/**
 The striped transfer engine of src/flexalloc_xnvme_env.c: where a byte of a striped object lives,
 and up to strp_nobjs chains of commands that each submit their next command on completion.
 */
module Striping {
  import opened Arith

  const TWO_16: int := 0x1_0000
  const TWO_32: int := 0x1_0000_0000

  /** The fields of struct fla_strp_params. */
  datatype Params = Params(nobjs: nat, chunk: nat, faobjNlbs: nat, start: nat, len: nat, total: nat, objStart: nat,
                           lba: nat, write: bool)
  {
    function ObjBytes(): nat { faobjNlbs * lba }

    /** What the caller of the engine provides; start and len are checked by the engine itself. */
    ghost predicate WellFormed() {
      && 0 < nobjs && 0 < lba && 0 < chunk && chunk % lba == 0
      && 0 < ObjBytes() && ObjBytes() % chunk == 0
      && total == nobjs * ObjBytes() && start + len <= total
      && objStart % lba == 0
      && chunk / lba <= TWO_16 && chunk * nobjs < TWO_32
    }

    predicate Aligned()
      requires 0 < lba
    {
      len % lba == 0 && start % lba == 0
    }
  }

  // ----- the address arithmetic of the code

  function ChunkTranslation(offset: nat, chunk: nat, step: nat): nat
    requires chunk > 0
  {
    offset % chunk + (offset / chunk) * step
  }

  function Translate(p: Params, x: nat): nat
    requires 0 < p.chunk && 0 < p.total
  {
    ChunkTranslation(ChunkTranslation(x, p.chunk, p.ObjBytes()), p.total, p.chunk)
  }

  function ObjSlba(p: Params, x: nat): nat
    requires 0 < p.chunk && 0 < p.total && 0 < p.lba
  {
    Translate(p, x) / p.lba
  }

  function Min(a: int, b: int): int { if a < b then a else b }

  function NextNlbs(p: Params, sbuf: nat): nat
    requires 0 < p.lba
  {
    (Min(p.chunk, p.len - sbuf) / p.lba - 1) % TWO_16
  }

  function FirstNlbs(p: Params, x: nat): nat
    requires 0 < p.lba && 0 < p.chunk
  {
    (Min(p.len, p.chunk - x % p.chunk) / p.lba - 1) % TWO_16
  }

  function NextSbuf(p: Params, sbuf: nat, nlbs: nat): nat {
    sbuf + (nlbs + 1) * p.lba % TWO_32 + p.chunk * (p.nobjs - 1) % TWO_32
  }

  // ----- the closed form

  /** Byte r of chunk q lies in object q mod N, in that object's chunk q div N. */
  function Place(p: Params, q: nat, r: nat): nat
    requires 0 < p.nobjs
  {
    Join(q % p.nobjs, Join(q / p.nobjs, r, p.chunk), p.ObjBytes())
  }

  function Phys(p: Params, x: nat): nat
    requires 0 < p.nobjs && 0 < p.chunk
  {
    Place(p, x / p.chunk, x % p.chunk)
  }

  /** The two-stage translation of the code is the closed form. */
  lemma TranslateIsPhys(p: Params, x: nat)
    requires 0 < p.nobjs && 0 < p.chunk <= p.ObjBytes() && p.total == p.nobjs * p.ObjBytes()
    ensures p.total > 0 && Translate(p, x) == Phys(p, x)
  {
    var n, ob := p.nobjs, p.ObjBytes();
    MulMonotone(1, n, ob);
    var q, r := x / p.chunk, x % p.chunk;
    var z := r + q * ob;
    DivMod(q, n);
    calc {
      z;
      r + ((q / n) * n + q % n) * ob;
      { Distribute((q / n) * n, q % n, ob); }
      r + (q / n) * n * ob + (q % n) * ob;
      { assert (q / n) * n * ob == (q / n) * (n * ob); }
      (q / n) * p.total + ((q % n) * ob + r);
    }
    MulMonotone(q % n, n - 1, ob);
    Distribute(n, -1, ob);
    DivUnique(z, p.total, q / n, (q % n) * ob + r);
  }

  /** The inverse of the translation. */
  function Unplace(p: Params, a: nat): nat
    requires 0 < p.nobjs && 0 < p.chunk && 0 < p.ObjBytes()
  {
    var inObj := a % p.ObjBytes();
    Join(Join(inObj / p.chunk, a / p.ObjBytes(), p.nobjs), inObj % p.chunk, p.chunk)
  }

  lemma Reassociate(n: nat, m: nat, c: nat)
    ensures n * (m * c) == (m * n) * c
  {
  }

  /** The two digit systems, on plain numbers: m rows of n chunks of c bytes, or n objects of m chunks. */
  lemma DigitsThere(n: nat, m: nat, c: nat, ob: nat, total: nat, i: nat, o: nat, r: nat)
    requires ob == m * c && total == n * ob && i < m && o < n && r < c
    ensures Join(i, r, c) < ob && Join(o, Join(i, r, c), ob) < total
  {
    JoinBound(i, r, c, m);
    JoinBound(o, Join(i, r, c), ob, n);
  }

  lemma DigitsBack(n: nat, m: nat, c: nat, ob: nat, total: nat, i: nat, o: nat, r: nat)
    requires ob == m * c && total == n * ob && i < m && o < n && r < c
    ensures Join(Join(i, o, n), r, c) < total
  {
    JoinBound(i, o, n, m);
    JoinBound(Join(i, o, n), r, c, m * n);
    Reassociate(n, m, c);
  }

  /** The row, object and remainder of a logical byte. */
  lemma LogicalDigits(n: nat, m: nat, c: nat, x: nat) returns (i: nat, o: nat, r: nat)
    requires 0 < n && 0 < c && x < (m * n) * c
    ensures i < m && o < n && r < c && x == Join(Join(i, o, n), r, c)
    ensures x / c == Join(i, o, n) && x % c == r && x / c / n == i && x / c % n == o
  {
    SplitBound(x, c, m * n);
    SplitJoin(x, c);
    i, o := TwoDigits(x / c, n, m);
    r := x % c;
  }

  lemma TwoDigits(q: nat, n: nat, m: nat) returns (i: nat, o: nat)
    requires 0 < n && q < m * n
    ensures i < m && o < n && q == Join(i, o, n) && q / n == i && q % n == o
  {
    SplitBound(q, n, m);
    SplitJoin(q, n);
    i, o := q / n, q % n;
  }

  /** The object, row and remainder of a physical byte. */
  lemma PhysicalDigits(n: nat, m: nat, c: nat, ob: nat, a: nat) returns (o: nat, i: nat, r: nat)
    requires 0 < c && 0 < ob == m * c && a < n * ob
    ensures o < n && i < m && r < c && a == Join(o, Join(i, r, c), ob)
    ensures a / ob == o && a % ob / c == i && a % ob % c == r
  {
    var inObj;
    o, inObj := TwoDigits(a, ob, n);
    i, r := TwoDigits(inObj, c, m);
  }

  lemma PhysInRange(p: Params, x: nat)
    requires p.WellFormed() && x < p.total
    ensures Phys(p, x) < p.total && Unplace(p, Phys(p, x)) == x
  {
    var n, ob, c := p.nobjs, p.ObjBytes(), p.chunk;
    var m := Rows(ob, c);
    Reassociate(n, m, c);
    var i, o, r := LogicalDigits(n, m, c, x);
    DigitsThere(n, m, c, ob, p.total, i, o, r);
    JoinSplit(o, Join(i, r, c), ob);
    JoinSplit(i, r, c);
  }

  lemma PhysOnto(p: Params, a: nat)
    requires p.WellFormed() && a < p.total
    ensures Unplace(p, a) < p.total && Phys(p, Unplace(p, a)) == a
  {
    var n, ob, c := p.nobjs, p.ObjBytes(), p.chunk;
    var m := Rows(ob, c);
    var o, i, r := PhysicalDigits(n, m, c, ob, a);
    DigitsBack(n, m, c, ob, p.total, i, o, r);
    JoinSplit(Join(i, o, n), r, c);
    JoinSplit(i, o, n);
  }

  lemma Rows(ob: nat, c: nat) returns (m: nat)
    requires 0 < c && ob % c == 0
    ensures ob == m * c
  {
    DivMod(ob, c);
    m := ob / c;
  }

  /** The translation permutes the bytes of the striped object. */
  lemma TranslationIsBijective(p: Params)
    requires p.WellFormed()
    ensures forall x: nat :: x < p.total ==> Phys(p, x) < p.total && Unplace(p, Phys(p, x)) == x
    ensures forall a: nat :: a < p.total ==> Unplace(p, a) < p.total && Phys(p, Unplace(p, a)) == a
  {
    forall x: nat | x < p.total
      ensures Phys(p, x) < p.total && Unplace(p, Phys(p, x)) == x
    {
      PhysInRange(p, x);
    }
    forall a: nat | a < p.total
      ensures Unplace(p, a) < p.total && Phys(p, Unplace(p, a)) == a
    {
      PhysOnto(p, a);
    }
  }
}
