/**
 Disk geometry: the arithmetic of mkfs in src/flexalloc_mm.c, src/flexalloc_pool.c and
 src/flexalloc_util.c for a device that also holds the metadata, and where things lie on it.
 */
module Geometry {
  import opened Arith

  const TWO_31: nat := 0x8000_0000
  const TWO_32: nat := 0x1_0000_0000
  const TWO_64: nat := 0x1_0000_0000_0000_0000

  // Sizes of the on-disk structures in bytes.
  const SUPER_NBYTES: nat := 32
  const SLAB_HEADER_NBYTES: nat := 24
  const HTBL_HEADER_NBYTES: nat := 8
  const HTBL_ENTRY_NBYTES: nat := 16
  const POOL_ENTRY_NBYTES: nat := 160

  lemma CeilDivMonotone(x: nat, x': nat, y: nat)
    requires 0 < y && x <= x'
    ensures CeilDiv(x, y) <= CeilDiv(x', y)
  {
    var a, b := x + y - 1, x' + y - 1;
    DivMod(a, y);
    DivMod(b, y);
    if b / y < a / y {
      MulMonotone(b / y + 1, a / y, y);
      Distribute(b / y, 1, y);
    }
  }

  /** A product of two 32-bit numbers, kept in 32 bits. */
  function Mul32(a: nat, b: nat): nat {
    a * b % TWO_32
  }

  lemma NoWrap(a: nat, b: nat, bound: nat)
    requires a * b <= bound < TWO_32
    ensures Mul32(a, b) == a * b
  {
  }

  // ----- segment sizes in logical blocks

  function FlistNbytes(len: nat): nat { 4 * (1 + (len + 31) / 32) }

  function FlistNlb(len: nat, lb: nat): nat
    requires 0 < lb
  {
    CeilDiv(FlistNbytes(len), lb)
  }

  function SlabSgmtNlb(nslabs: nat, lb: nat): nat
    requires 0 < lb
  {
    CeilDiv(nslabs * SLAB_HEADER_NBYTES + 12, lb)
  }

  datatype PoolSgmt = PoolSgmt(freelistNlb: nat, htblNlb: nat, htblSize: nat, entriesNlb: nat) {
    function Nlb(): nat { freelistNlb + htblNlb + entriesNlb }
  }

  /** Slots of the hash table: two for each pool, counted in 32 bits. */
  function TableSize(npools: nat): (n: nat)
    ensures n <= npools * 2 && (npools < TWO_31 ==> n == npools * 2) && (TWO_31 <= npools ==> n != npools * 2)
  {
    npools * 2 % TWO_32
  }

  function TableNlb(npools: nat, lb: nat): nat
    requires 0 < lb
  {
    CeilDiv(HTBL_HEADER_NBYTES + TableSize(npools) * HTBL_ENTRY_NBYTES, lb)
  }

  function PoolSgmtCalc(npools: nat, lb: nat): PoolSgmt
    requires 0 < lb
  {
    PoolSgmt(CeilDiv(FlistNbytes(npools), lb), TableNlb(npools, lb), TableSize(npools), CeilDiv(npools * POOL_ENTRY_NBYTES, lb))
  }

  function PoolNlb(npools: nat, lb: nat): nat
    requires 0 < lb
  {
    PoolSgmtCalc(npools, lb).Nlb()
  }

  // ----- what the segments hold

  /** A segment of nlb blocks has room for the bytes, and no block to spare. */
  ghost predicate Tight(nlb: nat, lb: nat, nbytes: nat) {
    nbytes <= nlb * lb < nbytes + lb
  }

  lemma CeilDivTight(x: nat, y: nat)
    requires 0 < y
    ensures Tight(CeilDiv(x, y), y, x)
  {
    DivMod(x + y - 1, y);
  }

  /** A freelist has a word for its length and a bit for each entry, in whole words and no word to spare. */
  lemma FlistIsTight(len: nat, lb: nat)
    requires 0 < lb
    ensures FlistNbytes(len) % 4 == 0 && 32 + len <= 8 * FlistNbytes(len) < 32 + len + 32
    ensures Tight(FlistNlb(len, lb), lb, FlistNbytes(len))
  {
    CeilDivTight(FlistNbytes(len), lb);
  }

  /** The slab segment has a header for each slab and the three cells. */
  lemma SlabSgmtIsTight(nslabs: nat, lb: nat)
    requires 0 < lb
    ensures Tight(SlabSgmtNlb(nslabs, lb), lb, 24 * nslabs + 3 * 4)
  {
    CeilDivTight(nslabs * SLAB_HEADER_NBYTES + 12, lb);
  }

  /** The pool segment: a freelist, a table header and two slots for each pool, and an entry for each pool. */
  lemma PoolSgmtIsTight(npools: nat, lb: nat)
    requires 0 < lb && npools < TWO_31
    ensures var p := PoolSgmtCalc(npools, lb);
      && p.htblSize == 2 * npools && Tight(p.freelistNlb, lb, FlistNbytes(npools))
      && Tight(p.htblNlb, lb, 8 + 16 * (2 * npools)) && Tight(p.entriesNlb, lb, 160 * npools)
  {
    CeilDivTight(FlistNbytes(npools), lb);
    CeilDivTight(HTBL_HEADER_NBYTES + TableSize(npools) * HTBL_ENTRY_NBYTES, lb);
    CeilDivTight(npools * POOL_ENTRY_NBYTES, lb);
  }

  /** 128 pools on blocks of 512 bytes. */
  lemma PoolSgmtOf128()
    ensures PoolSgmtCalc(128, 512) == PoolSgmt(1, 9, 256, 40)
  {
  }

  /** Below 2^31 pools, where the size of the table does not wrap. */
  lemma PoolSgmtMonotone(n: nat, n': nat, lb: nat)
    requires 0 < lb && n <= n' < TWO_31
    ensures PoolNlb(n, lb) <= PoolNlb(n', lb)
  {
    CeilDivMonotone(FlistNbytes(n), FlistNbytes(n'), lb);
    CeilDivMonotone(HTBL_HEADER_NBYTES + TableSize(n) * HTBL_ENTRY_NBYTES, HTBL_HEADER_NBYTES + TableSize(n') * HTBL_ENTRY_NBYTES, lb);
    CeilDivMonotone(n * POOL_ENTRY_NBYTES, n' * POOL_ENTRY_NBYTES, lb);
  }

  /** At 2^31 pools the table shrinks from 16777216 blocks to one, and the segment with it. */
  lemma PoolSgmtShrinks()
    ensures TableNlb(TWO_31 - 1, 4096) == 16777216 && TableNlb(TWO_31, 4096) == 1
    ensures PoolNlb(TWO_31, 4096) < PoolNlb(TWO_31 - 1, 4096)
  {
  }

  // ----- fla_nelems_max

  /** n elements of size units and their metadata fit into total units. */
  predicate Fits(total: nat, size: nat, n: nat, md: nat) {
    n * size + md <= total
  }

  /** n is the largest count that fits with the metadata md(n) it needs; zero always counts as fitting. */
  ghost predicate IsMaxCount(total: nat, size: nat, md: nat -> nat, n: nat) {
    && (n > 0 ==> Fits(total, size, n, md(n)))
    && forall k: nat :: k > n ==> !Fits(total, size, k, md(k))
  }

  /** Where the count starts: a 64-bit quotient kept in 32 bits. */
  function Start(total: nat, size: nat): nat
    requires 0 < size
  {
    Low32(total / size)
  }

  function Low32(q: nat): nat {
    q % TWO_32
  }

  /** The test of the loop; the product is kept in 32 bits. */
  predicate Enough(total: nat, size: nat, n: nat, md: nat) {
    total - Mul32(n, size) >= md
  }

  /** What the loop computes: the first count from the start down that passes the test. */
  ghost predicate CountedDown(total: nat, size: nat, md: nat -> nat, n: nat)
    requires 0 < size
  {
    && n <= Start(total, size) && (n > 0 ==> Enough(total, size, n, md(n)))
    && forall k: nat :: n < k <= Start(total, size) ==> !Enough(total, size, k, md(k))
  }

  /** The largest count that fits, as long as the total is below 2^32. */
  method NelemsMax(total: nat, size: nat, md: nat -> nat) returns (n: nat)
    requires 0 < size && total < TWO_64
    ensures CountedDown(total, size, md, n)
    ensures total < TWO_32 ==> IsMaxCount(total, size, md, n)
  {
    n := Start(total, size);
    while n > 0
      invariant 0 <= n <= Start(total, size)
      invariant forall k: nat :: n < k <= Start(total, size) ==> !Enough(total, size, k, md(k))
    {
      NoBorrow(total, size, n);
      if Enough(total, size, n, md(n)) {
        break;
      }
      n := n - 1;
    }
    if total < TWO_32 {
      CountIsMax(total, size, md, n);
    }
  }

  lemma StartIs(total: nat, size: nat)
    requires 0 < size && total < TWO_32
    ensures Start(total, size) == total / size
  {
    var q := QuotientOf(total, size);
    SmallMod(q);
  }

  lemma QuotientOf(total: nat, size: nat) returns (q: nat)
    requires 0 < size
    ensures q == total / size <= total
  {
    QuotientBound(total, size);
    q := total / size;
  }

  lemma SmallMod(q: nat)
    requires q < TWO_32
    ensures Low32(q) == q
  {
  }

  lemma Mul32Bound(a: nat, b: nat)
    ensures Mul32(a, b) < TWO_32
  {
  }

  /** The subtraction of the test does not borrow. */
  lemma NoBorrow(total: nat, size: nat, n: nat)
    requires 0 < size && n <= Start(total, size)
    ensures Mul32(n, size) <= total
    ensures total < TWO_32 ==> Start(total, size) == total / size && Mul32(n, size) == n * size
  {
    Mul32Bound(n, size);
    if total < TWO_32 {
      StartIs(total, size);
      QuotientBound(total, size);
      MulMonotone(n, total / size, size);
      NoWrap(n, size, total);
    }
  }

  lemma QuotientBound(total: nat, size: nat)
    requires 0 < size
    ensures (total / size) * size <= total < (total / size + 1) * size && 0 <= total / size <= total
  {
    DivMod(total, size);
    Distribute(total / size, 1, size);
    QuotientSmall(total / size, size, total);
  }

  lemma QuotientSmall(q: int, size: int, total: int)
    requires 0 < size && 0 <= total && q * size <= total < (q + 1) * size
    ensures 0 <= q <= total
  {
    if q < 0 {
      MulMonotone(q + 1, 0, size);
    } else {
      MulMonotone(1, size, q);
    }
  }

  lemma CountIsMax(total: nat, size: nat, md: nat -> nat, n: nat)
    requires 0 < size && total < TWO_32 && CountedDown(total, size, md, n)
    ensures IsMaxCount(total, size, md, n)
  {
    NoBorrow(total, size, n);
    QuotientBound(total, size);
    forall k: nat | k > n
      ensures !Fits(total, size, k, md(k))
    {
      if k <= total / size {
        NoBorrow(total, size, k);
        assert !Enough(total, size, k, md(k));
      } else {
        MulMonotone(total / size + 1, k, size);
      }
    }
  }

  // ----- fla_mkfs_geo_calc without a metadata device

  datatype Geo = Geo(nlb: nat, lb: nat, slabNlb: nat, npools: nat, nslabs: nat, mdNlb: nat, pool: PoolSgmt, slabSgmtNlb: nat) {
    function SlabsBase(): nat { mdNlb + pool.Nlb() + slabSgmtNlb }
  }

  datatype Super = Super(nslabs: nat, slabNlb: nat, npools: nat, mdNlb: nat)

  function SuperOf(g: Geo): Super { Super(g.nslabs, g.slabNlb, g.npools, g.mdNlb) }

  /** fla_geo_from_super: the geometry an existing system is opened with. */
  function FromSuper(nlb: nat, lb: nat, s: Super): Geo
    requires 0 < lb
  {
    Geo(nlb, lb, s.slabNlb, s.npools, s.nslabs, s.mdNlb, PoolSgmtCalc(s.npools, lb), SlabSgmtNlb(s.nslabs, lb))
  }

  /** Everything the layout needs of a geometry. */
  ghost predicate Sound(g: Geo) {
    && 512 <= g.lb && 0 < g.slabNlb && 0 < g.npools <= g.nslabs && g.nlb < TWO_32
    && g.pool.htblSize == g.npools * 2
    && g == FromSuper(g.nlb, g.lb, SuperOf(g))
    && g.mdNlb == CeilDiv(SUPER_NBYTES, g.lb)
    && g.SlabsBase() + g.nslabs * g.slabNlb <= g.nlb
  }

  /** n is the slab count fla_nelems_max finds for total blocks. */
  ghost predicate IsMaxSlabs(total: nat, slabNlb: nat, lb: nat, n: nat)
    requires 0 < lb
  {
    && (n > 0 ==> Fits(total, slabNlb, n, SlabSgmtNlb(n, lb)))
    && forall k: nat :: k > n ==> !Fits(total, slabNlb, k, SlabSgmtNlb(k, lb))
  }

  /** The same count as a function. */
  ghost function MaxSlabs(total: nat, slabNlb: nat, lb: nat): (n: nat)
    requires 0 < slabNlb && 0 < lb
    ensures IsMaxSlabs(total, slabNlb, lb, n)
  {
    forall k: nat | k > total
      ensures !Fits(total, slabNlb, k, SlabSgmtNlb(k, lb))
    {
      MulMonotone(1, slabNlb, k);
    }
    MaxUpTo(total, slabNlb, lb, total)
  }

  ghost function MaxUpTo(total: nat, slabNlb: nat, lb: nat, k: nat): (n: nat)
    requires 0 < slabNlb && 0 < lb && forall j: nat :: j > k ==> !Fits(total, slabNlb, j, SlabSgmtNlb(j, lb))
    ensures IsMaxSlabs(total, slabNlb, lb, n)
  {
    if k == 0 || Fits(total, slabNlb, k, SlabSgmtNlb(k, lb)) then k else MaxUpTo(total, slabNlb, lb, k - 1)
  }

  lemma MaxIs(total: nat, slabNlb: nat, lb: nat, n: nat)
    requires 0 < slabNlb && 0 < lb && IsMaxSlabs(total, slabNlb, lb, n)
    ensures n == MaxSlabs(total, slabNlb, lb)
  {
  }

  /** A count that fits is the largest one if the next does not. */
  lemma MaxByNext(total: nat, slabNlb: nat, lb: nat, n: nat)
    requires 0 < slabNlb && 0 < lb && Fits(total, slabNlb, n, SlabSgmtNlb(n, lb))
    requires !Fits(total, slabNlb, n + 1, SlabSgmtNlb(n + 1, lb))
    ensures n == MaxSlabs(total, slabNlb, lb)
  {
    forall k: nat | k > n
      ensures !Fits(total, slabNlb, k, SlabSgmtNlb(k, lb))
    {
      MulMonotone(n + 1, k, slabNlb);
      CeilDivMonotone((n + 1) * SLAB_HEADER_NBYTES + 12, k * SLAB_HEADER_NBYTES + 12, lb);
    }
    MaxIs(total, slabNlb, lb, n);
  }

  /** Close to 2^64 the test always passes. */
  method SlabsMax(total: nat, slabNlb: nat, lb: nat) returns (n: nat)
    requires 0 < slabNlb && 0 < lb && total < TWO_64
    ensures n < TWO_32 && (total < TWO_32 ==> IsMaxSlabs(total, slabNlb, lb, n))
    ensures TWO_64 - 2 * TWO_32 <= total ==> n == Start(total, slabNlb)
  {
    var md := (k: nat) => SlabSgmtNlb(k, lb);
    n := NelemsMax(total, slabNlb, md);
    assert forall k: nat :: Fits(total, slabNlb, k, md(k)) == Fits(total, slabNlb, k, SlabSgmtNlb(k, lb));
    var first := Start(total, slabNlb);
    SlabSgmtBound(first, lb);
    assert n < first ==> !Enough(total, slabNlb, first, md(first));
  }

  lemma SlabSgmtBound(n: nat, lb: nat)
    requires 0 < lb
    ensures 0 < SlabSgmtNlb(n, lb) <= n * SLAB_HEADER_NBYTES + 12
  {
    CeilDivBound(n * SLAB_HEADER_NBYTES + 12, lb);
  }

  lemma CeilDivBound(x: nat, y: nat)
    requires 0 < x && 0 < y
    ensures 0 < CeilDiv(x, y) <= x
    ensures x <= y ==> CeilDiv(x, y) == 1
  {
    DivMod(x + y - 1, y);
    if x <= y {
      DivUnique(x + y - 1, y, 1, x - 1);
    }
    if x < CeilDiv(x, y) {
      MulMonotone(x + 1, CeilDiv(x, y), y);
      Distribute(x, 1, y);
      MulMonotone(1, y, x);
    }
  }

  lemma CeilDivAntitone(x: nat, y: nat, y': nat)
    requires 0 < y <= y'
    ensures CeilDiv(x, y') <= CeilDiv(x, y)
  {
    if x == 0 {
      DivUnique(y - 1, y, 0, y - 1);
      DivUnique(y' - 1, y', 0, y' - 1);
    } else {
      var q, q' := CeilDiv(x, y), CeilDiv(x, y');
      DivMod(x + y - 1, y);
      DivMod(x + y' - 1, y');
      if q < q' {
        MulMonotone(q + 1, q', y');
        MulMonotone(y, y', q);
        Distribute(q, 1, y');
      }
    }
  }

  function SuperNlb(lb: nat): nat
    requires 0 < lb
  {
    CeilDiv(SUPER_NBYTES, lb)
  }

  /** 64-bit subtraction. */
  function Sub64(a: int, b: int): nat {
    (a - b) % TWO_64
  }

  lemma Sub64Is(a: int, b: int)
    requires -2 * TWO_32 <= a - b < TWO_32
    ensures Sub64(a, b) == if b <= a then a - b else a - b + TWO_64
  {
  }

  /**
   The subtractions of mkfs do not wrap.  On a device of three blocks with slabs of one block the pool segment
   exceeds what is left after the super block.
   */
  predicate SegmentsFit(nlb: nat, slabNlb: nat) {
    0 < nlb && !(nlb == 3 && slabNlb == 1)
  }

  /** The slabs mkfs counts after the segment for n0 pools. */
  ghost function SlabsLeft(nlb: nat, lb: nat, slabNlb: nat, n0: nat): nat
    requires 0 < slabNlb && 0 < lb && PoolNlb(n0, lb) < nlb
  {
    MaxSlabs(nlb - 1 - PoolNlb(n0, lb), slabNlb, lb)
  }

  /**
   Lowering the pools from n0 to the n slabs found does no harm: the size of the table had not wrapped, or the
   segment for n pools needs no more than that for n0 and the blocks that the slabs leave.
   */
  ghost predicate LoweringFits(nlb: nat, lb: nat, slabNlb: nat, n0: nat)
    requires 0 < slabNlb && 0 < lb && PoolNlb(n0, lb) < nlb
  {
    var n := SlabsLeft(nlb, lb, slabNlb, n0);
    n0 < TWO_31 || (n < TWO_31 && PoolNlb(n, lb) <= PoolNlb(n0, lb) + Spare(nlb - 1 - PoolNlb(n0, lb), slabNlb, lb, n))
  }

  function Spare(left: int, slabNlb: nat, lb: nat, n: nat): int
    requires 0 < lb
  {
    left - n * slabNlb - SlabSgmtNlb(n, lb)
  }

  /** For which devices and pool counts the layout of a successful mkfs is sound. */
  ghost predicate MkfsWorks(nlb: nat, lb: nat, npools: nat, slabNlb: nat)
    requires 0 < slabNlb && 512 <= lb
  {
    SegmentsFit(nlb, slabNlb) &&
    if npools != 0 then npools < TWO_31
    else
      var n0 := MaxSlabs(nlb - 1, slabNlb, lb);
      0 < n0 && PoolNlb(n0, lb) < nlb && LoweringFits(nlb, lb, slabNlb, n0)
  }

  /** Pool segments are small: more than one pool never needs more blocks than there are pools, and one. */
  lemma PoolSgmtSmall(n: nat, lb: nat)
    requires 512 <= lb && 0 < n
    ensures n == 1 ==> PoolSgmtCalc(n, lb).Nlb() == 3
    ensures n >= 2 ==> PoolSgmtCalc(n, lb).Nlb() <= n + 1
  {
    if n == 1 {
      CeilDivBound(FlistNbytes(1), lb);
      CeilDivBound(HTBL_HEADER_NBYTES + 2 * HTBL_ENTRY_NBYTES, lb);
      CeilDivBound(POOL_ENTRY_NBYTES, lb);
    } else {
      CeilDivAntitone(FlistNbytes(n), 512, lb);
      CeilDivAntitone(HTBL_HEADER_NBYTES + TableSize(n) * HTBL_ENTRY_NBYTES, 512, lb);
      CeilDivMonotone(HTBL_HEADER_NBYTES + TableSize(n) * HTBL_ENTRY_NBYTES, HTBL_HEADER_NBYTES + n * 2 * HTBL_ENTRY_NBYTES, 512);
      CeilDivAntitone(n * POOL_ENTRY_NBYTES, 512, lb);
    }
  }

  /** The pool segment for as many pools as slabs that would fit without pools, or fewer. */
  lemma PoolSgmtFits(nlb: nat, lb: nat, slabNlb: nat, n0: nat, npools: nat)
    requires 0 < nlb && 512 <= lb && 0 < slabNlb && 0 < npools <= n0 && IsMaxSlabs(nlb - 1, slabNlb, lb, n0)
    ensures PoolNlb(npools, lb) < nlb <==> SegmentsFit(nlb, slabNlb)
    ensures !SegmentsFit(nlb, slabNlb) ==> npools == n0 == 1 && PoolNlb(npools, lb) == 3
  {
    SlabSgmtBound(n0, lb);
    PoolSgmtSmall(npools, lb);
    MulMonotone(1, slabNlb, n0);
    MulMonotone(1, n0, slabNlb);
  }

  /** What fla_nelems_max promises, applied to what is left after the super block and the pools. */
  ghost predicate NoBetter(nlb: nat, lb: nat, npools: nat, slabNlb: nat, least: nat)
    requires 0 < lb
  {
    forall k: nat :: k >= least ==>
      nlb < SuperNlb(lb) + PoolSgmtCalc(npools, lb).Nlb() + SlabSgmtNlb(k, lb) + k * slabNlb
  }

  lemma NoneFits(nlb: nat, lb: nat, npools: nat, slabNlb: nat, least: nat)
    requires 0 < lb && nlb < SuperNlb(lb) + PoolSgmtCalc(npools, lb).Nlb()
    ensures NoBetter(nlb, lb, npools, slabNlb, least)
  {
    forall k: nat
      ensures 0 <= k * slabNlb
    {
      MulMonotone(0, k, slabNlb);
    }
  }

  /** Without slabs the pools need no less room. */
  lemma NoneFitsEither(nlb: nat, lb: nat, npools: nat, slabNlb: nat, n: nat)
    requires 0 < lb && SuperNlb(lb) == 1 <= nlb && IsMaxSlabs(nlb - 1, slabNlb, lb, n)
    ensures NoBetter(nlb, lb, npools, slabNlb, n + 1)
  {
    forall k: nat | k >= n + 1
      ensures nlb < SuperNlb(lb) + PoolSgmtCalc(npools, lb).Nlb() + SlabSgmtNlb(k, lb) + k * slabNlb
    {
      assert !Fits(nlb - 1, slabNlb, k, SlabSgmtNlb(k, lb));
    }
  }

  /** Blocks of at least 512 bytes, as NVMe has them, keep the sizes of the segments in 32 bits. */
  method MkfsGeoCalc(nlb: nat, lb: nat, npools: nat, slabNlb: nat) returns (err: int, g: Geo)
    requires 512 <= lb && 0 < slabNlb < TWO_32 && nlb < TWO_32 && npools < TWO_32
    ensures err == 0 || err == -1
    ensures err == 0 ==> g.nlb == nlb && g.lb == lb && g.slabNlb == slabNlb && g.mdNlb == SuperNlb(lb) == 1
    ensures err == 0 ==> 0 < g.npools <= g.nslabs && g == FromSuper(nlb, lb, SuperOf(g))
    ensures err == 0 ==> (Sound(g) <==> MkfsWorks(nlb, lb, npools, slabNlb))
    ensures nlb == 3 && slabNlb == 1 && npools <= 1 ==> err == 0 && g.nslabs == TWO_32 - 1
    // with a wanted number of pools: it is kept, no more slabs would fit, and a refusal is right
    ensures npools != 0 && err == 0 ==> g.npools == npools && NoBetter(nlb, lb, npools, slabNlb, g.nslabs + 1)
    ensures npools != 0 && err == -1 ==> NoBetter(nlb, lb, npools, slabNlb, npools)
    // without one: a pool for every slab that would fit without pools is tried, and refused if that leaves no slab
    ensures npools == 0 && SegmentsFit(nlb, slabNlb) ==>
      var n0 := MaxSlabs(nlb - 1, slabNlb, lb);
      && (n0 == 0 ==> err == -1)
      && (0 < n0 ==> PoolNlb(n0, lb) < nlb && var n := SlabsLeft(nlb, lb, slabNlb, n0);
            (err == 0 <==> 0 < n) && g.nslabs == n && (0 < n ==> g.npools == if n0 < n then n0 else n))
  {
    var md := SuperNlb(lb);
    CeilDivBound(SUPER_NBYTES, lb);
    Sub64Is(nlb, md);
    g := Geo(nlb, lb, slabNlb, npools, 0, md, PoolSgmtCalc(npools, lb), 0);
    if nlb == 0 {
      NoneFits(nlb, lb, npools, slabNlb, 0);
    }
    var nslabsApprox := SlabsMax(Sub64(nlb, md), slabNlb, lb);
    if 0 < nlb {
      NoneFitsEither(nlb, lb, npools, slabNlb, nslabsApprox);
      OneSlabFits(nlb, lb, slabNlb, nslabsApprox);
      MaxIs(nlb - 1, slabNlb, lb, nslabsApprox);
    }
    if nslabsApprox == 0 {
      return -1, g;
    }
    if npools > nslabsApprox {
      return -1, g;
    } else if npools == 0 {
      g := g.(npools := nslabsApprox);
    }
    err, g := SlabCount(g, npools, nslabsApprox);
  }

  /** How many slabs mkfs finds after the pool segment, with n0 slabs if that took nothing. */
  method SlabsAfterPools(nlb: nat, lb: nat, slabNlb: nat, npools: nat, ghost n0: nat) returns (n: nat)
    requires 512 <= lb && 0 < slabNlb < TWO_32 && nlb < TWO_32 && SuperNlb(lb) == 1 && 0 < npools <= n0 < TWO_32
    requires 0 < nlb ==> IsMaxSlabs(nlb - 1, slabNlb, lb, n0)
    ensures SegmentsFit(nlb, slabNlb) ==> PoolNlb(npools, lb) < nlb && n == SlabsLeft(nlb, lb, slabNlb, npools)
    ensures !SegmentsFit(nlb, slabNlb) ==> nlb <= PoolNlb(npools, lb)
    ensures nlb == 3 && slabNlb == 1 ==> n == TWO_32 - 1 && npools == 1
  {
    PoolSgmtSmall(npools, lb);
    Sub64Is(nlb - 1, PoolNlb(npools, lb));
    if 0 < nlb {
      PoolSgmtFits(nlb, lb, slabNlb, n0, npools);
    }
    n := SlabsMax(Sub64(nlb - 1, PoolNlb(npools, lb)), slabNlb, lb);
    if SegmentsFit(nlb, slabNlb) {
      MaxIs(nlb - 1 - PoolNlb(npools, lb), slabNlb, lb, n);
    }
  }

  /** The second half of mkfs: what the pool segment leaves for slabs. */
  method SlabCount(g0: Geo, npools: nat, ghost n0: nat) returns (err: int, g: Geo)
    requires 512 <= g0.lb && 0 < g0.slabNlb < TWO_32 && g0.nlb < TWO_32 && g0.mdNlb == SuperNlb(g0.lb) == 1
    requires 0 < g0.npools <= n0 < TWO_32 && ((npools == 0 && g0.npools == n0) || npools == g0.npools)
    requires 0 < g0.nlb ==> n0 == MaxSlabs(g0.nlb - 1, g0.slabNlb, g0.lb)
    ensures err == 0 || err == -1
    ensures err == 0 ==> g.nlb == g0.nlb && g.lb == g0.lb && g.slabNlb == g0.slabNlb && g.mdNlb == 1
    ensures err == 0 ==> 0 < g.npools <= g.nslabs && g == FromSuper(g0.nlb, g0.lb, SuperOf(g))
    ensures err == 0 ==> (Sound(g) <==> MkfsWorks(g0.nlb, g0.lb, npools, g0.slabNlb))
    ensures g0.nlb == 3 && g0.slabNlb == 1 ==> err == 0 && g.nslabs == TWO_32 - 1
    ensures npools != 0 && err == 0 ==> g.npools == npools && NoBetter(g0.nlb, g0.lb, npools, g0.slabNlb, g.nslabs + 1)
    ensures npools != 0 && err == -1 ==> NoBetter(g0.nlb, g0.lb, npools, g0.slabNlb, npools)
    ensures npools == 0 && SegmentsFit(g0.nlb, g0.slabNlb) ==> PoolNlb(n0, g0.lb) < g0.nlb
    ensures npools == 0 && SegmentsFit(g0.nlb, g0.slabNlb) ==>
      var n := SlabsLeft(g0.nlb, g0.lb, g0.slabNlb, n0);
      (err == 0 <==> 0 < n) && g.nslabs == n && (0 < n ==> g.npools == if n0 < n then n0 else n)
  {
    g := g0.(pool := PoolSgmtCalc(g0.npools, g0.lb));
    var nslabs := SlabsAfterPools(g.nlb, g.lb, g.slabNlb, g.npools, n0);
    NoMoreSlabs(g.nlb, g.lb, g.npools, g.slabNlb, nslabs);
    g := g.(nslabs := nslabs);
    if nslabs == 0 {
      return -1, g;
    }
    g := g.(slabSgmtNlb := SlabSgmtNlb(nslabs, g.lb));
    if npools > nslabs {
      return -1, g;
    } else if g.npools > nslabs {
      g := g.(npools := nslabs);
      g := g.(pool := PoolSgmtCalc(g.npools, g.lb));
    }
    LayoutSound(g, npools, g0.npools);
    return 0, g;
  }

  lemma NoMoreSlabs(nlb: nat, lb: nat, npools: nat, slabNlb: nat, n: nat)
    requires 0 < lb && SuperNlb(lb) == 1
    requires nlb <= PoolNlb(npools, lb) || IsMaxSlabs(nlb - 1 - PoolNlb(npools, lb), slabNlb, lb, n)
    ensures NoBetter(nlb, lb, npools, slabNlb, n + 1)
  {
    if nlb <= PoolNlb(npools, lb) {
      NoneFits(nlb, lb, npools, slabNlb, n + 1);
    } else {
      LeftNoBetter(nlb, lb, npools, slabNlb, n);
    }
  }

  lemma OneSlabFits(nlb: nat, lb: nat, slabNlb: nat, n: nat)
    requires 0 < nlb && 512 <= lb && IsMaxSlabs(nlb - 1, slabNlb, lb, n)
    ensures nlb == 3 && slabNlb == 1 ==> n == 1
  {
    if nlb == 3 && slabNlb == 1 {
      CeilDivBound(SLAB_HEADER_NBYTES + 12, lb);
      SlabSgmtBound(n, lb);
      assert Fits(2, 1, 1, SlabSgmtNlb(1, lb));
    }
  }

  /** The layout of a success, counted against the segment for n0 pools, and its exact condition. */
  lemma LayoutSound(g: Geo, npools: nat, n0: nat)
    requires 512 <= g.lb && 0 < g.slabNlb && g.nlb < TWO_32 && g.mdNlb == SuperNlb(g.lb) == 1
    requires g == FromSuper(g.nlb, g.lb, SuperOf(g)) && 0 < g.npools <= g.nslabs
    requires if npools != 0 then n0 == g.npools == npools else g.npools == if n0 < g.nslabs then n0 else g.nslabs
    requires npools == 0 && 0 < g.nlb ==> n0 == MaxSlabs(g.nlb - 1, g.slabNlb, g.lb)
    requires if SegmentsFit(g.nlb, g.slabNlb) then PoolNlb(n0, g.lb) < g.nlb && g.nslabs == SlabsLeft(g.nlb, g.lb, g.slabNlb, n0)
             else g.nlb <= 3
    ensures Sound(g) <==> MkfsWorks(g.nlb, g.lb, npools, g.slabNlb)
  {
    if !SegmentsFit(g.nlb, g.slabNlb) {
      LayoutDoesNotFit(g);
    } else if n0 < TWO_31 {
      PoolSgmtMonotone(g.npools, n0, g.lb);
    }
  }

  lemma LayoutDoesNotFit(g: Geo)
    requires 512 <= g.lb && g.mdNlb == SuperNlb(g.lb) == 1 && 0 < g.npools && g.nlb <= 3
    requires g == FromSuper(g.nlb, g.lb, SuperOf(g))
    ensures !Sound(g)
  {
    MulMonotone(0, g.nslabs, g.slabNlb);
    SlabSgmtBound(g.nslabs, g.lb);
    PoolSgmtSmall(1, g.lb);
    if g.npools < TWO_31 {
      PoolSgmtMonotone(1, g.npools, g.lb);
    }
  }

  lemma LeftNoBetter(nlb: nat, lb: nat, npools: nat, slabNlb: nat, n: nat)
    requires 0 < lb && SuperNlb(lb) + PoolSgmtCalc(npools, lb).Nlb() <= nlb
    requires IsMaxSlabs(nlb - SuperNlb(lb) - PoolSgmtCalc(npools, lb).Nlb(), slabNlb, lb, n)
    ensures NoBetter(nlb, lb, npools, slabNlb, n + 1)
  {
    forall k: nat | k >= n + 1
      ensures nlb < SuperNlb(lb) + PoolSgmtCalc(npools, lb).Nlb() + SlabSgmtNlb(k, lb) + k * slabNlb
    {
      assert !Fits(nlb - SuperNlb(lb) - PoolSgmtCalc(npools, lb).Nlb(), slabNlb, k, SlabSgmtNlb(k, lb));
    }
  }

  /** The three-block device: mkfs succeeds with 2^32 - 1 slabs. */
  method ThreeBlockDevice(lb: nat) returns (g: Geo)
    requires 512 <= lb
    ensures g.nlb == 3 && g.nslabs == TWO_32 - 1 && !Sound(g)
  {
    var err;
    err, g := MkfsGeoCalc(3, lb, 1, 1);
  }

  /**
   2,170,000,000 blocks of 4096 bytes with slabs of one block: a pool for each of 2,157,359,222 slabs makes the
   size of the table wrap, and the segment that replaces it passes the end of the device.
   */
  method WrappedTableDevice() returns (g: Geo)
    ensures g.nslabs == g.npools == 2_073_436_123 && !Sound(g)
    ensures g.SlabsBase() + g.nslabs * g.slabNlb == g.nlb + 12_840_760
  {
    WrappedTableSlabs();
    var err;
    err, g := MkfsGeoCalc(2_170_000_000, 4096, 0, 1);
    WrappedTableSegments();
  }

  lemma WrappedTableSegments()
    ensures PoolNlb(2_157_359_222, 4096) == 84_414_836 && PoolNlb(2_073_436_123, 4096) == 97_255_596
    ensures SlabSgmtNlb(2_073_436_123, 4096) == 12_149_040
  {
  }

  lemma WrappedTableSlabs()
    ensures MaxSlabs(2_169_999_999, 1, 4096) == 2_157_359_222
    ensures PoolNlb(2_157_359_222, 4096) < 2_170_000_000
    ensures SlabsLeft(2_170_000_000, 4096, 1, 2_157_359_222) == 2_073_436_123
  {
    WrappedTableSegments();
    MaxByNext(2_169_999_999, 1, 4096, 2_157_359_222);
    MaxByNext(2_169_999_999 - 84_414_836, 1, 4096, 2_073_436_123);
  }

  /** n objects and their freelist fit into a slab, and no more do. */
  ghost predicate IsMaxObjs(slabNlb: nat, lb: nat, objNlb: nat, n: nat)
    requires 0 < lb
  {
    && 0 < n && Fits(slabNlb, objNlb, n, FlistNlb(n, lb))
    && forall m: nat :: m > n ==> !Fits(slabNlb, objNlb, m, FlistNlb(m, lb))
  }

  /**
   fla_calc_objs_in_slab: the most objects that leave room for their freelist at the slab's end.  Its
   loop is that of fla_nelems_max with the freelist as metadata.
   */
  method CalcObjsInSlab(slabNlb: nat, lb: nat, objNlb: nat) returns (n: nat)
    requires 0 < lb && 0 < objNlb && slabNlb < TWO_32
    ensures n > 0 ==> Fits(slabNlb, objNlb, n, FlistNlb(n, lb))
    ensures forall k: nat :: k > n ==> !Fits(slabNlb, objNlb, k, FlistNlb(k, lb))
  {
    var flistNlb := (k: nat) => FlistNlb(k, lb);
    n := NelemsMax(slabNlb, objNlb, flistNlb);
    assert forall k: nat :: Fits(slabNlb, objNlb, k, flistNlb(k)) == Fits(slabNlb, objNlb, k, FlistNlb(k, lb));
  }

  // ----- where open looks for things in memory

  /** Bytes of the slab segment. */
  function SlabSgmtNbytes(g: Geo): nat { g.slabSgmtNlb * g.lb }

  /** Byte offsets of the free-queue cells from the slab headers. */
  datatype Cells = Cells(num: int, head: int, tail: int)

  function CellsAtEnd(nbytes: nat): Cells { Cells(nbytes - 12, nbytes - 8, nbytes - 4) }

  /** fla_mkfs_slab_sgmt_init computes the end of the segment in 64 bits, fla_init in 32. */
  function MkfsCells(g: Geo): Cells { CellsAtEnd(SlabSgmtNbytes(g)) }
  function OpenCells(g: Geo): Cells { CellsAtEnd(Mul32(g.slabSgmtNlb, g.lb)) }

  lemma CellsAgree(g: Geo)
    ensures OpenCells(g) == MkfsCells(g) <==> SlabSgmtNbytes(g) < TWO_32
  {
    SmallProduct(g.slabSgmtNlb, g.lb);
  }

  lemma SmallProduct(a: nat, b: nat)
    ensures Mul32(a, b) == a * b <==> a * b < TWO_32
    ensures Mul32(a, b) < TWO_32
  {
    SmallOrNot(a * b);
  }

  lemma SmallOrNot(x: nat)
    ensures x % TWO_32 == x <==> x < TWO_32
    ensures x % TWO_32 < TWO_32
  {
  }

  /** Bytes of the pool freelist and the hash table, and the offset fla_pool_init computes for the entries after them. */
  function PoolTablesNbytes(g: Geo): nat { g.lb * (g.pool.freelistNlb + g.pool.htblNlb) }
  function OpenTableOffset(g: Geo): nat { Mul32(g.lb, g.pool.freelistNlb) }
  function OpenEntriesOffset(g: Geo): nat { Mul32(g.lb, g.pool.freelistNlb + g.pool.htblNlb) }

  /** The pool entries lie after the table exactly if freelist and table have fewer than 2^32 bytes. */
  lemma EntriesAgree(g: Geo)
    ensures PoolTablesNbytes(g) <= OpenEntriesOffset(g) <==> PoolTablesNbytes(g) < TWO_32
    ensures PoolTablesNbytes(g) < TWO_32 ==> OpenEntriesOffset(g) == PoolTablesNbytes(g)
  {
    SmallProduct(g.lb, g.pool.freelistNlb + g.pool.htblNlb);
  }

  /** With 140,000,000 pools the entries start inside the table, at byte 202,539,008 of 4,497,506,304. */
  lemma ManyPools()
    ensures var g := FromSuper(310_000_000, 4096, Super(150_000_000, 2, 140_000_000, 1));
      && PoolTablesNbytes(g) == 4_497_506_304 && OpenEntriesOffset(g) == 202_539_008
      && SlabSgmtNbytes(g) < TWO_32 && Sound(g)
  {
  }

  /** Open finds the free-queue cells where mkfs put them, and the pool entries clear of the table. */
  predicate OffsetsFit(g: Geo) {
    SlabSgmtNbytes(g) < TWO_32 && PoolTablesNbytes(g) < TWO_32
  }

  lemma OffsetsFitExactly(g: Geo)
    ensures OffsetsFit(g) <==> OpenCells(g) == MkfsCells(g) && PoolTablesNbytes(g) <= OpenEntriesOffset(g)
  {
    CellsAgree(g);
    EntriesAgree(g);
  }

  /** Slab ids then stay far below the marker that ends a list. */
  lemma FewSlabs(g: Geo)
    requires 0 < g.lb && g.slabSgmtNlb == SlabSgmtNlb(g.nslabs, g.lb) && OffsetsFit(g)
    ensures g.nslabs * SLAB_HEADER_NBYTES + 12 < TWO_32
  {
    CeilDivCovers(g.nslabs * SLAB_HEADER_NBYTES + 12, g.lb);
  }

  lemma CeilDivCovers(x: nat, y: nat)
    requires 0 < y
    ensures x <= CeilDiv(x, y) * y
  {
    DivMod(x + y - 1, y);
  }

  // ----- where things lie

  datatype Range = Range(lo: nat, hi: nat)

  ghost predicate Disjoint(a: Range, b: Range) {
    a.hi <= b.lo || b.hi <= a.lo
  }

  ghost predicate Within(a: Range, b: Range) {
    b.lo <= a.lo <= a.hi <= b.hi
  }

  /** fla_cs_cns_slab_offset; the product is a 32-bit one. */
  function SlabOff(g: Geo, slab: nat): nat {
    g.SlabsBase() + Mul32(slab, g.slabNlb)
  }

  function SlabRange(g: Geo, slab: nat): Range {
    Range(SlabOff(g, slab), SlabOff(g, slab) + g.slabNlb)
  }

  /** The LBAs of a slab's freelist of len entries: the last blocks of the slab. */
  function FlistRange(g: Geo, slab: nat, len: nat): (r: Range)
    requires 0 < g.lb && FlistNlb(len, g.lb) <= g.slabNlb
  {
    Range(SlabOff(g, slab) + g.slabNlb - FlistNlb(len, g.lb), SlabOff(g, slab) + g.slabNlb)
  }

  function MetaRange(g: Geo): Range { Range(0, g.SlabsBase()) }

  // The parts of the metadata.
  function SuperRange(g: Geo): Range { Range(0, g.mdNlb) }
  function PoolFlistRange(g: Geo): Range { Range(g.mdNlb, g.mdNlb + g.pool.freelistNlb) }
  function TableRange(g: Geo): Range { Range(PoolFlistRange(g).hi, PoolFlistRange(g).hi + g.pool.htblNlb) }
  function EntriesRange(g: Geo): Range { Range(TableRange(g).hi, TableRange(g).hi + g.pool.entriesNlb) }
  function SlabSgmtRange(g: Geo): Range { Range(EntriesRange(g).hi, EntriesRange(g).hi + g.slabSgmtNlb) }

  /** A range that begins at block lo and is just large enough for the bytes. */
  ghost predicate Holds(g: Geo, r: Range, lo: nat, nbytes: nat) {
    r.lo == lo <= r.hi && Tight(r.hi - r.lo, g.lb, nbytes)
  }

  /** Super block, pool freelist, hash table, pool entries, slab headers and slabs lie behind one another. */
  lemma SegmentsTile(g: Geo)
    requires Sound(g)
    ensures Holds(g, SuperRange(g), 0, SUPER_NBYTES)
    ensures Holds(g, PoolFlistRange(g), SuperRange(g).hi, FlistNbytes(g.npools))
    ensures Holds(g, TableRange(g), PoolFlistRange(g).hi, 8 + 16 * (2 * g.npools))
    ensures Holds(g, EntriesRange(g), TableRange(g).hi, 160 * g.npools)
    ensures Holds(g, SlabSgmtRange(g), EntriesRange(g).hi, 24 * g.nslabs + 3 * 4)
    ensures SlabRange(g, 0).lo == SlabSgmtRange(g).hi
  {
    CeilDivTight(SUPER_NBYTES, g.lb);
    FewPools(g);
    PoolSgmtIsTight(g.npools, g.lb);
    SlabSgmtIsTight(g.nslabs, g.lb);
    SlabOffIs(g, 0);
  }

  lemma FewPools(g: Geo)
    requires Sound(g)
    ensures g.npools < TWO_31
  {
  }

  /** Open finds the table and the entries where these ranges have them. */
  lemma OpenFindsParts(g: Geo)
    requires OffsetsFit(g)
    ensures OpenTableOffset(g) == (TableRange(g).lo - SuperRange(g).hi) * g.lb
    ensures OpenEntriesOffset(g) == (EntriesRange(g).lo - SuperRange(g).hi) * g.lb
  {
    MulMonotone(g.pool.freelistNlb, g.pool.freelistNlb + g.pool.htblNlb, g.lb);
    SmallProduct(g.lb, g.pool.freelistNlb);
    SmallProduct(g.lb, g.pool.freelistNlb + g.pool.htblNlb);
  }

  /** Consecutive ranges of one size, on plain numbers. */
  lemma Tiles(base: nat, size: nat, n: nat, a: nat, b: nat)
    requires a < n && b < n
    ensures base <= base + a * size <= base + a * size + size <= base + n * size
    ensures a != b ==> Disjoint(Range(base + a * size, base + a * size + size), Range(base + b * size, base + b * size + size))
  {
    MulMonotone(a + 1, n, size);
    Distribute(a, 1, size);
    Distribute(b, 1, size);
    if a < b {
      MulMonotone(a + 1, b, size);
    } else if b < a {
      MulMonotone(b + 1, a, size);
    }
  }

  lemma SlabOffIs(g: Geo, a: nat)
    requires Sound(g) && a < g.nslabs
    ensures SlabOff(g, a) == g.SlabsBase() + a * g.slabNlb
  {
    MulMonotone(a, g.nslabs, g.slabNlb);
    NoWrap(a, g.slabNlb, g.nlb);
  }

  /** Slabs tile the device after the metadata. */
  lemma SlabsApart(g: Geo, a: nat, b: nat)
    requires Sound(g) && a < g.nslabs && b < g.nslabs
    ensures Within(SlabRange(g, a), Range(g.SlabsBase(), g.nlb))
    ensures a != b ==> Disjoint(SlabRange(g, a), SlabRange(g, b))
  {
    SlabOffIs(g, a);
    SlabOffIs(g, b);
    Tiles(g.SlabsBase(), g.slabNlb, g.nslabs, a, b);
  }

  /** The first slab follows the metadata, each slab the one before. */
  lemma SlabsTile(g: Geo, x: nat)
    requires Sound(g) && x + 1 < g.nslabs
    ensures SlabRange(g, x + 1).lo == SlabRange(g, x).hi && SlabRange(g, 0).lo == MetaRange(g).hi
  {
    SlabOffIs(g, 0);
    SlabOffIs(g, x);
    SlabOffIs(g, x + 1);
    Distribute(x, 1, g.slabNlb);
  }

  /** A freelist is the end of its slab. */
  lemma FlistAtEnd(g: Geo, x: nat, len: nat)
    requires Sound(g) && x < g.nslabs && FlistNlb(len, g.lb) <= g.slabNlb
    ensures FlistRange(g, x, len).hi == SlabRange(g, x).hi && Tight(FlistRange(g, x, len).hi - FlistRange(g, x, len).lo, g.lb, FlistNbytes(len))
  {
    FlistIsTight(len, g.lb);
  }

  /** A device of 16 blocks of 512 bytes: two slabs of four blocks after five blocks of metadata. */
  function SmallGeo(): Geo {
    FromSuper(16, 512, Super(2, 4, 1, 1))
  }

  lemma SmallGeoIsSound()
    ensures Sound(SmallGeo()) && SmallGeo().SlabsBase() == 5
  {
  }
}
