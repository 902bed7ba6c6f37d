/**
 32-bit words and the bit counting of src/flexalloc_bits.c.

 The bitmap code works on single bits, so its words are sequences of 32 bits, lowest first, with C's
 unsigned operators spelled out on them.  Population count works on whole fields and is proved on
 machine words.
 */
module Bits {

  type Word = w: seq<bool> | |w| == 32 witness seq(32, _ => false)

  const ZERO: Word := seq(32, _ => false)
  const ALL_ONES: Word := seq(32, _ => true)

  function And(a: Word, b: Word): Word {
    seq(32, i requires 0 <= i < 32 => a[i] && b[i])
  }

  function Or(a: Word, b: Word): Word {
    seq(32, i requires 0 <= i < 32 => a[i] || b[i])
  }

  function Not(a: Word): Word {
    seq(32, i requires 0 <= i < 32 => !a[i])
  }

  function Shl(a: Word, k: nat): Word {
    seq(32, i requires 0 <= i < 32 => k <= i && a[i - k])
  }

  function Shr(a: Word, k: nat): Word {
    seq(32, i requires 0 <= i < 32 => i + k < 32 && a[i + k])
  }

  /** Adding one ripples through the leading ones. */
  function Ripple(s: seq<bool>): (r: seq<bool>)
    ensures |r| == |s|
  {
    if s == [] then [] else if s[0] then [false] + Ripple(s[1..]) else [true] + s[1..]
  }

  function Inc(a: Word): Word {
    Ripple(a)
  }

  /** Two's complement negation. */
  function Neg(a: Word): Word {
    Inc(Not(a))
  }

  /** 1 << i */
  function Mask(i: nat): Word {
    Shl(seq(32, j => j == 0), i)
  }

  function LowMask(k: nat): Word {
    seq(32, j => j < k)
  }

  // ----- the lowest one and the lowest zero

  ghost predicate IsLowest(w: Word, bit: bool, i: nat) {
    i < 32 && w[i] == bit && forall j :: 0 <= j < i ==> w[j] != bit
  }

  lemma {:induction false} RippleShape(s: seq<bool>, n: nat)
    requires n < |s| && !s[n] && forall j :: 0 <= j < n ==> s[j]
    ensures forall j :: 0 <= j < |s| ==> Ripple(s)[j] == if j < n then false else if j == n then true else s[j]
  {
    if n > 0 {
      assert s[1..][n - 1] == s[n];
      RippleShape(s[1..], n - 1);
    }
  }

  /** w & -w keeps only the lowest one. */
  lemma LowestOne(w: Word, i: nat)
    requires IsLowest(w, true, i)
    ensures And(w, Neg(w)) == Mask(i)
  {
    RippleShape(Not(w), i);
  }

  /** ~e & (e + 1) keeps only the lowest zero, as a one. */
  lemma LowestZero(e: Word, i: nat)
    requires IsLowest(e, false, i)
    ensures And(Not(e), Inc(e)) == Mask(i)
  {
    RippleShape(e, i);
  }

  lemma Uniform(w: Word, bit: bool)
    requires forall j :: 0 <= j < 32 ==> w[j] == bit
    ensures w == seq(32, _ => bit)
  {
  }

  /** A word that is not all !bit has a lowest bit. */
  lemma LowestExists(w: Word, bit: bool) returns (i: nat)
    requires w != seq(32, _ => !bit)
    ensures IsLowest(w, bit, i)
  {
    if forall j :: 0 <= j < 32 ==> w[j] == !bit {
      Uniform(w, !bit);
    }
    var some :| 0 <= some < 32 && w[some] == bit;
    i := 0;
    while w[i] != bit
      invariant i <= some && forall j :: 0 <= j < i ==> w[j] != bit
      decreases some - i
    {
      i := i + 1;
    }
  }

  // ----- trailing zeros

  /** The shifts so far: bits below n - 1 are zero, x holds the rest, and has a one in its k lowest. */
  ghost predicate Counted(word: Word, x: Word, n: nat, k: nat) {
    && 1 <= n
    && (forall j :: 0 <= j < n - 1 && j < 32 ==> !word[j])
    && (forall j :: 0 <= j < 32 ==> x[j] == (j + n - 1 < 32 && word[j + n - 1]))
    && (exists j :: 0 <= j < 32 && j < k && x[j])
  }

  lemma NoneBelow(x: Word, k: nat)
    ensures And(x, LowMask(k)) == ZERO <==> forall j :: 0 <= j < 32 && j < k ==> !x[j]
  {
    if And(x, LowMask(k)) == ZERO {
      forall j | 0 <= j < 32 && j < k
        ensures !x[j]
      {
        assert And(x, LowMask(k))[j] == ZERO[j];
      }
    }
  }

  /** One round: if the k lowest bits are zero they are shifted out and counted. */
  method CountRound(ghost word: Word, x: Word, n: nat, k: nat) returns (x': Word, n': nat)
    requires Counted(word, x, n, 2 * k)
    ensures Counted(word, x', n', k)
  {
    NoneBelow(x, k);
    x', n' := x, n;
    if And(x, LowMask(k)) == ZERO {
      x', n' := Shr(x, k), n + k;
      ghost var j :| 0 <= j < 32 && j < 2 * k && x[j];
      assert x'[j - k];
      forall i | 0 <= i < n' - 1 && i < 32
        ensures !word[i]
      {
        if n - 1 <= i {
          assert !x[i - (n - 1)];
        }
      }
    }
  }

  method Ntz(word: Word) returns (count: nat)
    ensures word == ZERO <==> count == 32
    ensures word != ZERO ==> IsLowest(word, true, count)
  {
    if word == ZERO {
      return 32;
    }
    ghost var some := LowestExists(word, true);
    var x, n := CountRound(word, word, 1, 16);
    x, n := CountRound(word, x, n, 8);
    x, n := CountRound(word, x, n, 4);
    x, n := CountRound(word, x, n, 2);
    count := n - (if x[0] then 1 else 0);
    CountEnds(word, x, n);
  }

  lemma CountEnds(word: Word, x: Word, n: nat)
    requires Counted(word, x, n, 2)
    ensures IsLowest(word, true, n - (if x[0] then 1 else 0))
  {
    if !x[0] {
      assert x[1];
    }
  }
}

/** Population count, by folding neighbouring fields of a machine word. */
module PopCount {
  import opened Bits

  /** Number of ones among the first n bits. */
  function Ones(bs: seq<bool>, n: nat): (r: nat)
    requires n <= |bs|
    ensures r <= n
  {
    if n == 0 then 0 else Ones(bs, n - 1) + (if bs[n - 1] then 1 else 0)
  }

  function Bool(b: bool): nat {
    if b then 1 else 0
  }

  /** Six bits hold every count up to 32. */
  function Low(b: bool): bv6 {
    if b then 1 else 0
  }

  function Sum8(a: bool, b: bool, c: bool, d: bool, e: bool, f: bool, g: bool, h: bool): bv6 {
    ((Low(a) + Low(b)) + (Low(c) + Low(d))) + ((Low(e) + Low(f)) + (Low(g) + Low(h)))
  }

  lemma Sum8Value(a: bool, b: bool, c: bool, d: bool, e: bool, f: bool, g: bool, h: bool)
    ensures Sum8(a, b, c, d, e, f, g, h) <= 8
    ensures Sum8(a, b, c, d, e, f, g, h) as nat ==
      Bool(a) + Bool(b) + Bool(c) + Bool(d) + Bool(e) + Bool(f) + Bool(g) + Bool(h)
  {
  }

  function Count8(bs: seq<bool>, i: nat): nat
    requires i + 8 <= |bs|
  {
    Bool(bs[i]) + Bool(bs[i + 1]) + Bool(bs[i + 2]) + Bool(bs[i + 3])
    + Bool(bs[i + 4]) + Bool(bs[i + 5]) + Bool(bs[i + 6]) + Bool(bs[i + 7])
  }

  lemma OnesByByte(bs: seq<bool>, i: nat)
    requires i + 8 <= |bs|
    ensures Ones(bs, i + 8) == Ones(bs, i) + Count8(bs, i)
  {
    assert Ones(bs, i + 2) == Ones(bs, i) + Bool(bs[i]) + Bool(bs[i + 1]);
    assert Ones(bs, i + 4) == Ones(bs, i + 2) + Bool(bs[i + 2]) + Bool(bs[i + 3]);
    assert Ones(bs, i + 6) == Ones(bs, i + 4) + Bool(bs[i + 4]) + Bool(bs[i + 5]);
  }

  // The five folding steps; each adds neighbouring fields of 1, 2, 4, 8 and 16 bits.

  function Fold1(v: bv32): bv32 { (v & 0x55555555) + ((v >> 1) & 0x55555555) }
  function Fold2(v: bv32): bv32 { (v & 0x33333333) + ((v >> 2) & 0x33333333) }
  function Fold4(v: bv32): bv32 { (v & 0x0F0F0F0F) + ((v >> 4) & 0x0F0F0F0F) }
  function Fold8(v: bv32): bv32 { (v & 0x00FF00FF) + ((v >> 8) & 0x00FF00FF) }
  function Fold16(v: bv32): bv32 { (v & 0x0000FFFF) + ((v >> 16) & 0x0000FFFF) }

  /** The first three steps leave each byte with its own population count. */
  function Folded(v: bv32): bv32 { Fold4(Fold2(Fold1(v))) }

  /** Byte k of a word. */
  function Byte(v: bv32, k: nat): bv32
    requires k < 4
  {
    if k == 0 then v & 0xFF else if k == 1 then (v >> 8) & 0xFF else if k == 2 then (v >> 16) & 0xFF else (v >> 24) & 0xFF
  }

  /** The first three steps work on each byte by itself. */
  lemma FoldedLanes(v: bv32)
    ensures Byte(Folded(v), 0) == Folded(Byte(v, 0)) && Byte(Folded(v), 1) == Folded(Byte(v, 1))
    ensures Byte(Folded(v), 2) == Folded(Byte(v, 2)) && Byte(Folded(v), 3) == Folded(Byte(v, 3))
    ensures forall k: nat :: k < 4 ==> Byte(v, k) <= 0xFF
  {
  }

  lemma FoldedByte(x: bv32)
    requires x <= 0xFF
    ensures Folded(x) <= 8
    ensures Folded(x) as bv6 == Sum8(x & 0x1 != 0, x & 0x2 != 0, x & 0x4 != 0, x & 0x8 != 0,
                                     x & 0x10 != 0, x & 0x20 != 0, x & 0x40 != 0, x & 0x80 != 0)
  {
  }

  /** The last two steps add up the four bytes. */
  function Total(c: bv32): bv32 {
    Fold16(Fold8(c))
  }

  lemma TotalOfBytes(c: bv32)
    requires Byte(c, 0) <= 8 && Byte(c, 1) <= 8 && Byte(c, 2) <= 8 && Byte(c, 3) <= 8
    ensures Total(c) <= 32
    ensures Total(c) as bv6 == (Byte(c, 0) as bv6 + Byte(c, 1) as bv6) + (Byte(c, 2) as bv6 + Byte(c, 3) as bv6)
  {
  }

  lemma PairValue(a: bv6, b: bv6) returns (c: bv6)
    requires a <= 16 && b <= 16
    ensures c == a + b && c as nat == a as nat + b as nat
    ensures a <= 8 && b <= 8 ==> c <= 16
  {
    c := a + b;
  }

  lemma OnesInFourBytes(bs: seq<bool>)
    requires |bs| == 32
    ensures Ones(bs, 32) == Count8(bs, 0) + Count8(bs, 8) + Count8(bs, 16) + Count8(bs, 24)
  {
    OnesByByte(bs, 0);
    OnesByByte(bs, 8);
    OnesByByte(bs, 16);
    OnesByByte(bs, 24);
  }

  /** The byte x has the bits of bs from i on. */
  ghost predicate ReadsByte(x: bv32, bs: Word, i: nat)
    requires i + 8 <= 32
  {
    && bs[i] == (x & 0x1 != 0) && bs[i + 1] == (x & 0x2 != 0) && bs[i + 2] == (x & 0x4 != 0) && bs[i + 3] == (x & 0x8 != 0)
    && bs[i + 4] == (x & 0x10 != 0) && bs[i + 5] == (x & 0x20 != 0) && bs[i + 6] == (x & 0x40 != 0) && bs[i + 7] == (x & 0x80 != 0)
  }

  /** The machine word v has the bits bs. */
  ghost predicate Reads(v: bv32, bs: Word) {
    && ReadsByte(Byte(v, 0), bs, 0) && ReadsByte(Byte(v, 1), bs, 8)
    && ReadsByte(Byte(v, 2), bs, 16) && ReadsByte(Byte(v, 3), bs, 24)
  }

  /** The byte x is the number of ones of bs from i on. */
  ghost predicate Counts(x: bv32, bs: Word, i: nat)
    requires i + 8 <= 32
  {
    x <= 8 && (x as bv6) as nat == Count8(bs, i)
  }

  /** The bytes of c count the ones of the bytes of bs. */
  ghost predicate HoldsSums(c: bv32, bs: Word) {
    Counts(Byte(c, 0), bs, 0) && Counts(Byte(c, 1), bs, 8) && Counts(Byte(c, 2), bs, 16) && Counts(Byte(c, 3), bs, 24)
  }

  lemma FoldedCounts(x: bv32, bs: Word, i: nat)
    requires i + 8 <= 32 && x <= 0xFF && ReadsByte(x, bs, i)
    ensures Counts(Folded(x), bs, i)
  {
    FoldedByte(x);
    Sum8Value(bs[i], bs[i + 1], bs[i + 2], bs[i + 3], bs[i + 4], bs[i + 5], bs[i + 6], bs[i + 7]);
  }

  lemma FoldedHoldsSums(v: bv32, bs: Word)
    requires Reads(v, bs)
    ensures HoldsSums(Folded(v), bs)
  {
    FoldedLanes(v);
    FoldedCounts(Byte(v, 0), bs, 0);
    FoldedCounts(Byte(v, 1), bs, 8);
    FoldedCounts(Byte(v, 2), bs, 16);
    FoldedCounts(Byte(v, 3), bs, 24);
  }

  /** A byte from its bits. */
  method MachineByte(bs: Word, i: nat) returns (x: bv32)
    requires i + 8 <= 32
    ensures x <= 0xFF && ReadsByte(x, bs, i)
  {
    x := (if bs[i] then 0x1 else 0) | (if bs[i + 1] then 0x2 else 0) | (if bs[i + 2] then 0x4 else 0)
      | (if bs[i + 3] then 0x8 else 0) | (if bs[i + 4] then 0x10 else 0) | (if bs[i + 5] then 0x20 else 0)
      | (if bs[i + 6] then 0x40 else 0) | (if bs[i + 7] then 0x80 else 0);
  }

  method JoinBytes(w: bv32, x: bv32, y: bv32, z: bv32) returns (v: bv32)
    requires w <= 0xFF && x <= 0xFF && y <= 0xFF && z <= 0xFF
    ensures Byte(v, 0) == w && Byte(v, 1) == x && Byte(v, 2) == y && Byte(v, 3) == z
  {
    v := w | (x << 8) | (y << 16) | (z << 24);
  }

  /** The machine word that has the bits bs. */
  method MachineWord(bs: Word) returns (v: bv32)
    ensures Reads(v, bs)
  {
    var w := MachineByte(bs, 0);
    var x := MachineByte(bs, 8);
    var y := MachineByte(bs, 16);
    var z := MachineByte(bs, 24);
    v := JoinBytes(w, x, y, z);
  }

  /** Two bytes of the folded word added up. */
  lemma HalfValue(x: bv32, y: bv32, bs: Word, i: nat) returns (z: bv6)
    requires i + 16 <= 32 && Counts(x, bs, i) && Counts(y, bs, i + 8)
    ensures z == x as bv6 + y as bv6 && z <= 16 && z as nat == Count8(bs, i) + Count8(bs, i + 8)
  {
    NarrowByte(x);
    NarrowByte(y);
    z := PairValue(x as bv6, y as bv6);
  }

  lemma NarrowByte(x: bv32)
    requires x <= 8
    ensures x as bv6 <= 8
  {
  }

  lemma SumOfHalves(total: bv6, lo: bv6, hi: bv6, bs: seq<bool>)
    requires |bs| == 32 && total == lo + hi && lo <= 16 && hi <= 16
    requires lo as nat == Count8(bs, 0) + Count8(bs, 8) && hi as nat == Count8(bs, 16) + Count8(bs, 24)
    ensures total as nat == Ones(bs, 32)
  {
    var sum := PairValue(lo, hi);
    OnesInFourBytes(bs);
  }

  lemma TotalValue(c: bv32, bs: Word)
    requires HoldsSums(c, bs)
    ensures Total(c) <= 32 && (Total(c) as bv6) as nat == Ones(bs, 32)
  {
    var lo := HalfValue(Byte(c, 0), Byte(c, 1), bs, 0);
    var hi := HalfValue(Byte(c, 2), Byte(c, 3), bs, 16);
    TotalOfBytes(c);
    SumOfHalves(Total(c) as bv6, lo, hi, bs);
  }

  lemma Narrow(r: bv32)
    requires r <= 32
    ensures (r as bv6) as nat == r as nat
  {
  }

  /** The last two folding steps and the conversion to a number. */
  function CountFolded(c: bv32, ghost bs: Word): (n: nat)
    requires HoldsSums(c, bs)
    ensures n == Ones(bs, 32)
  {
    TotalValue(c, bs);
    Narrow(Total(c));
    Total(c) as nat
  }

  /** The folding counts the ones of the word it is given. */
  method CountSetBits(val: bv32, ghost bs: Word) returns (count: nat)
    requires Reads(val, bs)
    ensures count == Ones(bs, 32)
  {
    FoldedHoldsSums(val, bs);
    var folded := Folded(val);
    count := CountFolded(folded, bs);
  }
}
