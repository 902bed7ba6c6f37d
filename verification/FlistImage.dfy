/** A freelist in the blocks of an IO buffer: a word with the length, then the words of the bitmap. */
module FlistImage {
  import opened Arith
  import opened Geometry
  import Bits
  import Freelist

  /**
   The value of a freelist: its length, the entries whose bits in its words are one, and rest, the bits after its
   words that the buffer holds as well, numbered on.
   */
  datatype Bitmap = Bitmap(len: nat, free: set<nat>, rest: set<nat>)

  /** A block by the positions of its one bits. */
  datatype Block = Block(ones: set<nat>)

  // ----- 32-bit numbers as bits, lowest first

  function Pow2(n: nat): (p: nat)
    ensures 0 < p
  {
    if n == 0 then 1 else 2 * Pow2(n - 1)
  }

  lemma Pow32()
    ensures Pow2(32) == TWO_32
  {
    assert Pow2(8) == 256;
    assert Pow2(16) == 65536;
    assert Pow2(24) == 0x100_0000;
  }

  function Digits(x: nat, n: nat): (s: seq<bool>)
    ensures |s| == n
  {
    if n == 0 then [] else [x % 2 == 1] + Digits(x / 2, n - 1)
  }

  function Number(s: seq<bool>): nat {
    if s == [] then 0 else (if s[0] then 1 else 0) + 2 * Number(s[1..])
  }

  lemma {:induction false} NumberDigits(x: nat, n: nat)
    requires x < Pow2(n)
    ensures Number(Digits(x, n)) == x
  {
    if n > 0 {
      NumberDigits(x / 2, n - 1);
      assert Digits(x, n)[1..] == Digits(x / 2, n - 1);
    }
  }

  lemma {:induction false} NumberBound(s: seq<bool>)
    ensures Number(s) < Pow2(|s|)
  {
    if s != [] {
      NumberBound(s[1..]);
    }
  }

  // ----- bits of a buffer

  /** The block that holds bit p. */
  function BlockOf(p: nat, lb: nat): nat
    requires 0 < lb
  {
    QuotientBound(p, 8 * lb);
    p / (8 * lb)
  }

  predicate BitAt(bs: seq<Block>, lb: nat, p: nat)
    requires 0 < lb
  {
    BlockOf(p, lb) < |bs| && p % (8 * lb) in bs[BlockOf(p, lb)].ones
  }

  /** Bits in the words of a list. */
  function Cap(len: nat): nat { 32 * Freelist.Elems(len) }

  /** The bit of entry i is one; the length takes the first word. */
  predicate EntryAt(bs: seq<Block>, lb: nat, i: nat)
    requires 0 < lb
  {
    BitAt(bs, lb, 32 + i)
  }

  /** The entries from lo on and below hi whose bits are one. */
  function Ones(bs: seq<Block>, lb: nat, lo: nat, hi: nat): (s: set<nat>)
    requires 0 < lb
    ensures forall i: nat {:trigger i in s} :: i in s <==> lo <= i < hi && EntryAt(bs, lb, i)
  {
    set i: nat | lo <= i < hi && EntryAt(bs, lb, i)
  }

  /** The number in the first word. */
  function Lead(bs: seq<Block>, lb: nat): nat
    requires 0 < lb
  {
    Number(seq(32, p requires 0 <= p < 32 => BitAt(bs, lb, p)))
  }

  /** What a buffer of blocks holds. */
  function Parse(bs: seq<Block>, lb: nat): (l: Bitmap)
    requires 0 < lb
    ensures l.len == Lead(bs, lb)
  {
    var len := Lead(bs, lb);
    Bitmap(len, Ones(bs, lb, 0, Cap(len)), Ones(bs, lb, Cap(len), |bs| * (8 * lb)))
  }

  /** Bit p of the buffer of a list. */
  predicate HasBit(l: Bitmap, p: nat) {
    if p < 32 then Digits(l.len, 32)[p] else p - 32 in l.free || p - 32 in l.rest
  }

  /** Block k of the buffer. */
  function PieceAt(l: Bitmap, lb: nat, k: nat): (b: Block)
    requires 0 < lb
    ensures forall i: nat {:trigger i in b.ones} :: i in b.ones <==> i < 8 * lb && HasBit(l, Join(k, i, 8 * lb))
  {
    Block(set i: nat | i < 8 * lb && HasBit(l, Join(k, i, 8 * lb)))
  }

  function Image(l: Bitmap, lb: nat): (bs: seq<Block>)
    requires 0 < lb
    ensures |bs| == FlistNlb(l.len, lb)
  {
    seq(FlistNlb(l.len, lb), k requires 0 <= k => PieceAt(l, lb, k))
  }

  /** The length is a 32-bit number, entries lie in the words, and the rest lies after them in the buffer. */
  ghost predicate Fitting(l: Bitmap, lb: nat)
    requires 0 < lb
  {
    && l.len < TWO_32 && (forall i :: i in l.free ==> i < Cap(l.len))
    && forall i :: i in l.rest ==> Cap(l.len) <= i && BlockOf(32 + i, lb) < FlistNlb(l.len, lb)
  }

  /** The bits of the length and of the words have a place. */
  lemma WordsHavePlace(len: nat, lb: nat, p: nat)
    requires 0 < lb && p < 32 + Cap(len)
    ensures BlockOf(p, lb) < FlistNlb(len, lb)
  {
    CeilDivCovers(FlistNbytes(len), lb);
    var n := FlistNlb(len, lb);
    Reorder(n, lb);
    SplitBound(p, 8 * lb, n);
  }

  lemma Reorder(n: nat, lb: nat)
    ensures n * (8 * lb) == 8 * (n * lb)
  {
  }

  lemma ImageBit(l: Bitmap, lb: nat, p: nat)
    requires 0 < lb
    ensures BitAt(Image(l, lb), lb, p) <==> BlockOf(p, lb) < FlistNlb(l.len, lb) && HasBit(l, p)
  {
    if BlockOf(p, lb) < FlistNlb(l.len, lb) {
      assert Image(l, lb)[BlockOf(p, lb)] == PieceAt(l, lb, BlockOf(p, lb));
      SplitJoin(p, 8 * lb);
      DivMod(p, 8 * lb);
    }
  }

  /** A place among n blocks has a number below their bits. */
  lemma PlaceBound(p: nat, lb: nat, n: nat)
    requires 0 < lb && BlockOf(p, lb) < n
    ensures p < n * (8 * lb)
  {
    DivMod(p, 8 * lb);
    SplitJoin(p, 8 * lb);
    JoinBound(BlockOf(p, lb), p % (8 * lb), 8 * lb, n);
  }

  lemma LeadOfImage(l: Bitmap, lb: nat)
    requires 0 < lb && l.len < TWO_32
    ensures Lead(Image(l, lb), lb) == l.len
  {
    var bs := Image(l, lb);
    forall p: nat | p < 32
      ensures BitAt(bs, lb, p) == Digits(l.len, 32)[p]
    {
      ImageBit(l, lb, p);
      WordsHavePlace(l.len, lb, p);
    }
    assert seq(32, p requires 0 <= p < 32 => BitAt(bs, lb, p)) == Digits(l.len, 32);
    Pow32();
    NumberDigits(l.len, 32);
  }

  /** What is written is what is read. */
  lemma ParseImage(l: Bitmap, lb: nat)
    requires 0 < lb && Fitting(l, lb)
    ensures Parse(Image(l, lb), lb) == l
  {
    LeadOfImage(l, lb);
    var bs, parsed := Image(l, lb), Parse(Image(l, lb), lb);
    forall i: nat
      ensures i in parsed.free <==> i in l.free
      ensures i in parsed.rest <==> i in l.rest
    {
      ImageBit(l, lb, 32 + i);
      if i < Cap(l.len) {
        WordsHavePlace(l.len, lb, 32 + i);
      } else if i in l.rest {
        PlaceBound(32 + i, lb, |bs|);
      }
    }
  }

  /** The bits of word k of the bitmap come after the word with the length, lowest first. */
  lemma ImageHoldsWords(l: Bitmap, lb: nat, k: nat, b: nat)
    requires 0 < lb && Fitting(l, lb) && k < Freelist.Elems(l.len) && b < 32
    ensures BitAt(Image(l, lb), lb, 32 * (1 + k) + b) <==> WordsOf(l)[k][b]
    ensures BitAt(Image(l, lb), lb, b) <==> Digits(l.len, 32)[b]
  {
    var i := 32 * k + b;
    ImageBit(l, lb, 32 + i);
    WordsHavePlace(l.len, lb, 32 + i);
    assert WordsOf(l)[k] == WordAt(l, k);
    ImageBit(l, lb, b);
    WordsHavePlace(l.len, lb, b);
  }

  /** Three entries, the last two free: 3 in the first word and 6 in the second. */
  lemma SmallImage()
    ensures Image(Bitmap(3, {1, 2}, {}), 512) == [Block({0, 1, 33, 34})]
  {
    var l := Bitmap(3, {1, 2}, {});
    assert FlistNlb(3, 512) == 1;
    DigitsOfThree();
    var b := PieceAt(l, 512, 0);
    forall i: nat
      ensures i in b.ones <==> i in {0, 1, 33, 34}
    {
      assert Join(0, i, 8 * 512) == i;
    }
    assert b.ones == {0, 1, 33, 34};
    assert Image(l, 512) == [b];
  }

  lemma DigitsOfThree()
    ensures forall p: nat :: p < 32 ==> Digits(3, 32)[p] == (p < 2)
  {
    forall p: nat | p < 32
      ensures Digits(3, 32)[p] == (p < 2)
    {
      DigitOfThree(3, 32, 1, 31, 0, 30, p);
    }
  }

  lemma DigitOfThree(x: nat, n: nat, x': nat, n': nat, x'': nat, n'': nat, p: nat)
    requires x == 3 && x' == 1 && x'' == 0 && n == n' + 1 && n' == n'' + 1 && p < n
    ensures Digits(x, n)[p] == (p < 2)
  {
    HigherDigits(x, n, p);
    if p > 0 {
      HigherDigits(x', n', p - 1);
      DigitsOfZero(n'');
    }
  }

  lemma HigherDigits(x: nat, n: nat, p: nat)
    requires p < n
    ensures Digits(x, n)[p] == if p == 0 then x % 2 == 1 else Digits(x / 2, n - 1)[p - 1]
  {
  }

  lemma {:induction false} DigitsOfZero(n: nat)
    ensures forall p: nat :: p < n ==> !Digits(0, n)[p]
  {
    if n > 0 {
      DigitsOfZero(n - 1);
    }
  }

  lemma ParseFits(bs: seq<Block>, lb: nat)
    requires 0 < lb && |bs| == FlistNlb(Parse(bs, lb).len, lb)
    ensures Fitting(Parse(bs, lb), lb)
  {
    NumberBound(seq(32, p requires 0 <= p < 32 => BitAt(bs, lb, p)));
    Pow32();
  }

  // ----- a list in memory

  /** The words of a list. */
  function WordsOf(l: Bitmap): (ws: seq<Bits.Word>)
    ensures |ws| == Freelist.Elems(l.len)
  {
    seq(Freelist.Elems(l.len), k requires 0 <= k => WordAt(l, k))
  }

  function WordAt(l: Bitmap, k: nat): Bits.Word {
    seq(32, b requires 0 <= b < 32 => 32 * k + b in l.free)
  }

  lemma WordsHoldFree(l: Bitmap)
    requires forall i :: i in l.free ==> i < Cap(l.len)
    ensures Freelist.Free(WordsOf(l)) == l.free
  {
    forall i: nat | i < Cap(l.len)
      ensures Freelist.FreeAt(WordsOf(l), i) <==> i in l.free
    {
      assert WordsOf(l)[i / 32] == WordAt(l, i / 32);
    }
  }

  /** The bitmap that the freelist functions work on. */
  method InMemory(l: Bitmap) returns (flist: Freelist.Flist)
    requires Freelist.HasLen(l.len) && forall i :: i in l.free ==> i < Cap(l.len)
    ensures fresh(flist) && fresh(flist.words) && flist.Sized() && flist.len == l.len && flist.FreeSet() == l.free
  {
    WordsHoldFree(l);
    flist := new Freelist.Flist.Load(l.len, WordsOf(l));
  }
}
