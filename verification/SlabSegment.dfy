/**
 The slab segment as 32-bit words in memory: slab headers of six words from its start and, in its last three words,
 the cells of the free queue.  mkfs and open each compute where the cells are; see MkfsCells and OpenCells.
 */
module SlabSegment {
  import opened Arith
  import opened Geometry
  import opened SlabLists
  import opened Occupancy

  /** Words of a slab header: the pool in two words, prev, next, refcount and padding. */
  function Field(hd: Header, f: nat): nat {
    if f == 0 then hd.pool else if f == 2 then hd.prev else if f == 3 then hd.next else if f == 4 then hd.refcount else 0
  }

  /** Word i of a segment of n words that holds these headers and cells. */
  function WordAt(h: seq<Header>, num: nat, head: nat, tail: nat, n: nat, i: nat): nat {
    if i + 3 == n then num
    else if i + 2 == n then head
    else if i + 1 == n then tail
    else if i / 6 < |h| then Field(h[i / 6], i % 6)
    else 0
  }

  /** Headers and cells, where mkfs puts the cells. */
  ghost predicate Holds(words: seq<nat>, h: seq<Header>, num: nat, head: nat, tail: nat) {
    && 6 * |h| + 3 <= |words|
    && forall i {:trigger WordIs(words, h, num, head, tail, i)} :: 0 <= i < |words| ==> WordIs(words, h, num, head, tail, i)
  }

  ghost predicate WordIs(words: seq<nat>, h: seq<Header>, num: nat, head: nat, tail: nat, i: nat)
    requires i < |words|
  {
    words[i] == WordAt(h, num, head, tail, |words|, i)
  }

  /** The segment as mkfs leaves it. */
  method MkfsSegment(g: Geo) returns (words: array<nat>, ghost h: seq<Header>)
    requires Sound(g) && g.nslabs <= NULL && g.lb % 4 == 0
    ensures fresh(words) && 4 * words.Length == SlabSgmtNbytes(g) && |h| == g.nslabs
    ensures Holds(words[..], h, g.nslabs, 0, g.nslabs - 1) && Queue(h, 0, g.nslabs - 1, InOrder(g.nslabs))
    ensures forall x :: 0 <= x < |h| ==> h[x].pool == 0 && h[x].refcount == 0
  {
    var headers := new Header[g.nslabs](_ => Header(0, 0, 0, 0));
    var head, tail, num := MkfsSlabSgmtInit(headers);
    h := headers[..];
    var hs, n := headers[..], WordCount(g);
    words := new nat[n](i requires 0 <= i => WordAt(hs, num, head, tail, n, i));
    assert forall i :: 0 <= i < n ==> WordIs(words[..], h, num, head, tail, i);
  }

  function WordCount(g: Geo): (n: nat)
    requires Sound(g) && g.lb % 4 == 0
    ensures 4 * n == SlabSgmtNbytes(g) && 6 * g.nslabs + 3 <= n
  {
    CeilDivCovers(g.nslabs * SLAB_HEADER_NBYTES + 12, g.lb);
    WholeWords(g.slabSgmtNlb, g.lb);
    SlabSgmtNbytes(g) / 4
  }

  lemma WholeWords(n: nat, lb: nat)
    requires lb % 4 == 0
    ensures (n * lb) % 4 == 0
  {
    MultipleProduct(n, lb, 4);
  }

  // ----- fla_acquire_slab on the words, with the cells from word at on

  /** What taking the head off the queue returns. */
  function TakeErr(w: seq<nat>, nslabs: nat, at: nat): int
    requires 6 * nslabs <= |w| && at + 3 <= |w|
  {
    if w[at] == 0 then ALL_SLABS_USED
    else if w[at + 1] >= nslabs then -1
    else if w[at + 1] != w[at + 2] && w[6 * w[at + 1] + 3] >= nslabs then -1
    else 0
  }

  function Unqueued(w: seq<nat>, nslabs: nat, at: nat): (w': seq<nat>)
    requires 6 * nslabs <= |w| && at + 3 <= |w| && TakeErr(w, nslabs, at) == 0
    ensures |w'| == |w|
  {
    if w[at + 1] == w[at + 2] then w[at + 1 := NULL][at + 2 := NULL]
    else
      var n := w[6 * w[at + 1] + 3];
      w[at + 1 := n][6 * n + 2 := NULL]
  }

  function Cleared(w: seq<nat>, x: nat): (w': seq<nat>)
    requires 6 * (x + 1) <= |w|
    ensures |w'| == |w|
  {
    w[6 * x := 0][6 * x + 1 := 0][6 * x + 2 := NULL][6 * x + 3 := NULL][6 * x + 4 := 0]
  }

  function Acquired(w: seq<nat>, nslabs: nat, at: nat): (w': seq<nat>)
    requires 6 * nslabs <= |w| && at + 3 <= |w|
    ensures |w'| == |w|
  {
    if TakeErr(w, nslabs, at) != 0 then w
    else
      var w1 := Cleared(Unqueued(w, nslabs, at), w[at + 1]);
      w1[at := Dec32(w1[at])]
  }

  method TakeHead(words: array<nat>, nslabs: nat, at: nat) returns (err: int, x: nat)
    requires 6 * nslabs <= words.Length && at + 3 <= words.Length && words[at] != 0
    modifies words
    ensures err == TakeErr(old(words[..]), nslabs, at)
    ensures words[..] == if err == 0 then Unqueued(old(words[..]), nslabs, at) else old(words[..])
    ensures err == 0 ==> x == old(words[at + 1]) < nslabs
  {
    x := words[at + 1];
    if x >= nslabs {
      return -1, x;
    }
    if x == words[at + 2] {
      words[at + 1] := NULL;
      words[at + 2] := NULL;
    } else {
      var n := words[6 * x + 3];
      if n >= nslabs {
        return -1, x;
      }
      words[at + 1] := n;
      words[6 * n + 2] := NULL;
    }
    err := 0;
  }

  method ClearSlab(words: array<nat>, x: nat)
    requires 6 * (x + 1) <= words.Length
    modifies words
    ensures words[..] == Cleared(old(words[..]), x)
  {
    words[6 * x + 3], words[6 * x + 2], words[6 * x + 4] := NULL, NULL, 0;
    words[6 * x], words[6 * x + 1] := 0, 0;
  }

  method Acquire(words: array<nat>, nslabs: nat, at: nat) returns (err: int, x: nat)
    requires 6 * nslabs <= words.Length && at + 3 <= words.Length
    modifies words
    ensures err == TakeErr(old(words[..]), nslabs, at) && words[..] == Acquired(old(words[..]), nslabs, at)
    ensures err == 0 ==> x == old(words[at + 1])
  {
    if words[at] == 0 {
      return ALL_SLABS_USED, 0;
    }
    err, x := TakeHead(words, nslabs, at);
    if err != 0 {
      return;
    }
    ClearSlab(words, x);
    words[at] := Dec32(words[at]);
  }

  // ----- with the cells where mkfs put them, the words do what the headers and cells do

  lemma ReadCells(w: seq<nat>, h: seq<Header>, num: nat, head: nat, tail: nat)
    requires Holds(w, h, num, head, tail)
    ensures w[|w| - 3] == num && w[|w| - 2] == head && w[|w| - 1] == tail
  {
    assert WordIs(w, h, num, head, tail, |w| - 3);
    assert WordIs(w, h, num, head, tail, |w| - 2);
    assert WordIs(w, h, num, head, tail, |w| - 1);
  }

  lemma SetCells(w: seq<nat>, h: seq<Header>, num: nat, head: nat, tail: nat, num': nat, head': nat, tail': nat, w': seq<nat>)
    requires Holds(w, h, num, head, tail) && w' == w[|w| - 3 := num'][|w| - 2 := head'][|w| - 1 := tail']
    ensures Holds(w', h, num', head', tail')
  {
    forall i | 0 <= i < |w'|
      ensures WordIs(w', h, num', head', tail', i)
    {
      assert WordIs(w, h, num, head, tail, i);
    }
  }

  lemma CountDown(w: seq<nat>, h: seq<Header>, num: nat, head: nat, tail: nat)
    requires Holds(w, h, num, head, tail) && 0 < num
    ensures Holds(w[|w| - 3 := Dec32(w[|w| - 3])], h, num - 1, head, tail)
  {
    ReadCells(w, h, num, head, tail);
    var num' := num - 1;
    var w' := w[|w| - 3 := num'];
    forall i | 0 <= i < |w'|
      ensures WordIs(w', h, num', head, tail, i)
    {
      assert WordIs(w, h, num, head, tail, i);
    }
  }

  lemma HeaderWord(w: seq<nat>, h: seq<Header>, num: nat, head: nat, tail: nat, x: nat, f: nat)
    requires Holds(w, h, num, head, tail) && x < |h| && f < 6
    ensures w[6 * x + f] == Field(h[x], f)
  {
    assert WordIs(w, h, num, head, tail, 6 * x + f);
  }

  lemma SetPrev(w: seq<nat>, h: seq<Header>, num: nat, head: nat, tail: nat, x: nat, v: nat)
    requires Holds(w, h, num, head, tail) && x < |h|
    ensures Holds(w[6 * x + 2 := v], h[x := h[x].(prev := v)], num, head, tail)
  {
    var w', h' := w[6 * x + 2 := v], h[x := h[x].(prev := v)];
    forall i | 0 <= i < |w'|
      ensures WordIs(w', h', num, head, tail, i)
    {
      assert WordIs(w, h, num, head, tail, i);
    }
  }

  lemma ClearHeader(w: seq<nat>, h: seq<Header>, num: nat, head: nat, tail: nat, x: nat)
    requires Holds(w, h, num, head, tail) && x < |h|
    ensures Holds(Cleared(w, x), h[x := Header(0, NULL, NULL, 0)], num, head, tail)
  {
    var w', h' := Cleared(w, x), h[x := Header(0, NULL, NULL, 0)];
    forall i | 0 <= i < |w'|
      ensures WordIs(w', h', num, head, tail, i)
    {
      assert WordIs(w, h, num, head, tail, i);
    }
  }

  /** The cells after the head of a queue is taken. */
  function NextHead(h: seq<Header>, head: nat, tail: nat): nat
    requires head < |h|
  {
    if head == tail then NULL else h[head].next
  }

  function NextTail(head: nat, tail: nat): nat { if head == tail then NULL else tail }

  lemma UnqueueHolds(w: seq<nat>, h: seq<Header>, num: nat, head: nat, tail: nat)
    requires Holds(w, h, num, head, tail) && 0 < num && head < |h| && (head != tail ==> h[head].next < |h|)
    ensures TakeErr(w, |h|, |w| - 3) == 0 && w[|w| - 2] == head
    ensures Holds(Unqueued(w, |h|, |w| - 3), Dequeued(h, head, tail), num, NextHead(h, head, tail), NextTail(head, tail))
  {
    ReadCells(w, h, num, head, tail);
    HeaderWord(w, h, num, head, tail, head, 3);
    if head == tail {
      SetCells(w, h, num, head, tail, num, NULL, NULL, w[|w| - 2 := NULL][|w| - 1 := NULL]);
    } else {
      var n := h[head].next;
      SetCells(w, h, num, head, tail, num, n, tail, w[|w| - 2 := n]);
      SetPrev(w[|w| - 2 := n], h, num, n, tail, n, NULL);
    }
  }

  lemma ClearedQueue(h: seq<Header>, head: nat, tail: nat, s: seq<nat>, x: nat, hd: Header)
    requires Queue(h, head, tail, s) && x < |h| && x !in s
    ensures Queue(h[x := hd], head, tail, s)
  {
    assert forall i :: 0 <= i < |s| ==> s[i] in s;
    QueueFrame(h, h[x := hd], head, tail, s);
  }

  lemma AcquireTakesFirst(w: seq<nat>, h: seq<Header>, head: nat, tail: nat, s: seq<nat>)
    requires Holds(w, h, |s|, head, tail) && Queue(h, head, tail, s)
    ensures s == [] ==> TakeErr(w, |h|, |w| - 3) == ALL_SLABS_USED && Acquired(w, |h|, |w| - 3) == w
    ensures s != [] ==>
      && TakeErr(w, |h|, |w| - 3) == 0 && w[|w| - 2] == s[0] == head < |h| && (head != tail ==> h[head].next < |h|)
      && var h' := Dequeued(h, head, tail)[head := Header(0, NULL, NULL, 0)];
         && Holds(Acquired(w, |h|, |w| - 3), h', |s| - 1, NextHead(h, head, tail), NextTail(head, tail))
         && Queue(h', NextHead(h, head, tail), NextTail(head, tail), s[1..])
  {
    ReadCells(w, h, |s|, head, tail);
    if s != [] {
      DequeueTakesFirst(h, head, tail, s);
      AcquireHolds(w, h, |s|, head, tail);
      DistinctTail(s);
      ClearedQueue(Dequeued(h, head, tail), NextHead(h, head, tail), NextTail(head, tail), s[1..], head, Header(0, NULL, NULL, 0));
    }
  }

  lemma AcquireHolds(w: seq<nat>, h: seq<Header>, num: nat, head: nat, tail: nat)
    requires Holds(w, h, num, head, tail) && 0 < num && head < |h| && (head != tail ==> h[head].next < |h|)
    ensures TakeErr(w, |h|, |w| - 3) == 0 && w[|w| - 2] == head
    ensures Holds(Acquired(w, |h|, |w| - 3), Dequeued(h, head, tail)[head := Header(0, NULL, NULL, 0)], num - 1,
                  NextHead(h, head, tail), NextTail(head, tail))
  {
    UnqueueHolds(w, h, num, head, tail);
    var w1, h1 := Unqueued(w, |h|, |w| - 3), Dequeued(h, head, tail);
    var hd, head', tail' := Header(0, NULL, NULL, 0), NextHead(h, head, tail), NextTail(head, tail);
    ClearHeader(w1, h1, num, head', tail', head);
    CountDown(Cleared(w1, head), h1[head := hd], num, head', tail');
  }

  // ----- what open finds

  /** The word at which open looks for the cells. */
  function OpenAt(g: Geo): int { OpenCells(g).num / 4 }

  lemma OpenFindsCells(g: Geo)
    requires Sound(g) && g.lb % 4 == 0
    ensures var n := WordCount(g); MkfsCells(g) == Cells(4 * (n - 3), 4 * (n - 2), 4 * (n - 1))
    ensures OpenCells(g) == Cells(4 * OpenAt(g), 4 * (OpenAt(g) + 1), 4 * (OpenAt(g) + 2))
    ensures OpenAt(g) == WordCount(g) - 3 <==> SlabSgmtNbytes(g) < TWO_32
  {
    CellsAgree(g);
    WholeWords(g.slabSgmtNlb, g.lb);
    WholeWords32(g.slabSgmtNlb * g.lb);
    EndInWords(SlabSgmtNbytes(g), WordCount(g));
    var m := Mul32(g.slabSgmtNlb, g.lb);
    EndInWords(m, m / 4);
  }

  lemma EndInWords(nbytes: nat, n: nat)
    requires nbytes == 4 * n
    ensures CellsAtEnd(nbytes) == Cells(4 * (n - 3), 4 * (n - 2), 4 * (n - 1)) && CellsAtEnd(nbytes).num / 4 == n - 3
  {
  }

  lemma WholeWords32(x: nat)
    requires x % 4 == 0
    ensures x % TWO_32 % 4 == 0
  {
  }

  /** The free slabs are s, in that order. */
  ghost predicate Offers(words: seq<nat>, h: seq<Header>, head: nat, tail: nat, s: seq<nat>) {
    Holds(words, h, |s|, head, tail) && Queue(h, head, tail, s)
  }

  lemma AcquireOffers(w: seq<nat>, h: seq<Header>, head: nat, tail: nat, s: seq<nat>, at: nat)
    returns (h': seq<Header>, head': nat, tail': nat)
    requires Offers(w, h, head, tail, s) && at + 3 == |w|
    ensures s == [] ==> TakeErr(w, |h|, at) == ALL_SLABS_USED
    ensures s != [] ==> TakeErr(w, |h|, at) == 0 && w[at + 1] == s[0]
    ensures s != [] ==> |h'| == |h| && Offers(Acquired(w, |h|, at), h', head', tail', s[1..])
  {
    AcquireTakesFirst(w, h, head, tail, s);
    h', head', tail' := h, head, tail;
    if s != [] {
      h', head', tail' := Dequeued(h, head, tail)[head := Header(0, NULL, NULL, 0)], NextHead(h, head, tail), NextTail(head, tail);
    }
  }

  /** Acquires the next slab, if the cells are where mkfs put them. */
  method AcquireNext(words: array<nat>, at: nat, ghost h: seq<Header>, ghost head: nat, ghost tail: nat, nslabs: nat, ghost s: seq<nat>)
    returns (err: int, x: nat, ghost h': seq<Header>, ghost head': nat, ghost tail': nat)
    requires Offers(words[..], h, head, tail, s) && |h| == nslabs && at + 3 == words.Length
    modifies words
    ensures s == [] ==> err == ALL_SLABS_USED
    ensures s != [] ==> err == 0 && x == s[0] && |h'| == nslabs && Offers(words[..], h', head', tail', s[1..])
  {
    h', head', tail' := AcquireOffers(words[..], h, head, tail, s, at);
    err, x := Acquire(words, nslabs, at);
  }

  /** In a segment below 2^32 bytes, mkfs and open let all slabs be acquired, in order, and then none. */
  method AcquireAll(g: Geo) returns (taken: seq<nat>, err: int)
    requires Sound(g) && g.nslabs <= NULL && g.lb % 4 == 0 && SlabSgmtNbytes(g) < TWO_32
    ensures taken == InOrder(g.nslabs) && err == ALL_SLABS_USED
  {
    var words;
    ghost var h;
    words, h := MkfsSegment(g);
    OpenFindsCells(g);
    var nslabs, at := g.nslabs, OpenAt(g);
    assert at + 3 == words.Length;
    taken, err := Drain(words, at, nslabs, h);
  }

  method Drain(words: array<nat>, at: nat, nslabs: nat, ghost h0: seq<Header>) returns (taken: seq<nat>, err: int)
    requires 0 < nslabs == |h0| && at + 3 == words.Length && Offers(words[..], h0, 0, nslabs - 1, InOrder(nslabs))
    modifies words
    ensures taken == InOrder(nslabs) && err == ALL_SLABS_USED
  {
    ghost var h, head: nat, tail: nat, s := h0, 0, nslabs - 1, InOrder(nslabs);
    taken, err := [], 0;
    while true
      invariant |h| == nslabs && Offers(words[..], h, head, tail, s) && taken + s == InOrder(nslabs)
      decreases |s|
    {
      var x;
      err, x, h, head, tail := AcquireNext(words, at, h, head, tail, nslabs, s);
      if err != 0 {
        return;
      }
      taken, s := taken + [x], s[1..];
    }
  }

  // ----- a segment of more than 2^32 bytes

  /** 401,171,880 blocks of 4096 bytes with one pool and 200,000,000 slabs of two blocks. */
  function WideGeo(): Geo {
    FromSuper(401_171_880, 4096, Super(200_000_000, 2, 1, 1))
  }

  /** The cells are looked for in the header of slab 21,043,199, at its next field. */
  lemma WideGeoIs()
    ensures Sound(WideGeo()) && WideGeo().slabSgmtNlb == 1_171_876 && SlabSgmtNbytes(WideGeo()) == 4_800_004_096
    ensures OpenAt(WideGeo()) == 6 * 21_043_199 + 3
  {
  }

  /** One object of one block in each slab: all of Ok holds but for the bytes of the segment. */
  lemma WideConfig()
    ensures IsMaxObjs(2, 4096, 1, 1) && Numbered(Config(WideGeo(), 1, 1, 1, 1)) && WideGeo().nslabs <= NULL
    ensures PoolTablesNbytes(WideGeo()) < TWO_32
  {
    CeilDivBound(FlistNbytes(1), 4096);
    forall m: nat | m > 1
      ensures !Fits(2, 1, m, FlistNlb(m, 4096))
    {
      CeilDivBound(FlistNbytes(m), 4096);
    }
  }

  /** mkfs makes that geometry. */
  method WideDevice() returns (g: Geo)
    ensures g == WideGeo()
  {
    WideGeoIs();
    var err;
    err, g := MkfsGeoCalc(401_171_880, 4096, 1, 2);
    WideSlabs(g.nslabs);
  }

  lemma WideSlabs(n: nat)
    ensures n < 200_000_000 ==> !NoBetter(401_171_880, 4096, 1, 2, n + 1)
    ensures 200_000_000 < n ==> 401_171_880 < 1 + PoolNlb(1, 4096) + SlabSgmtNlb(n, 4096) + n * 2
  {
    if n < 200_000_000 {
      assert SlabSgmtNlb(200_000_000, 4096) == 1_171_876 && PoolNlb(1, 4096) == 3 && SuperNlb(4096) == 1;
    } else if 200_000_000 < n {
      CeilDivMonotone(200_000_001 * SLAB_HEADER_NBYTES + 12, n * SLAB_HEADER_NBYTES + 12, 4096);
    }
  }

  /**
   The second slab that a client asks for is refused, with 199,999,999 slabs unused, whatever creating an object
   in the first slab wrote into its header.
   */
  method WideRun(fields: seq<nat>) returns (first: int, x: nat, second: int)
    requires |fields| == 6
    ensures first == 0 && x == 0 && second == -1
  {
    WideGeoIs();
    var words;
    ghost var h;
    words, h := MkfsSegment(WideGeo());
    var at := OpenAt(WideGeo());
    WideCells(words[..], h);
    first, x := Acquire(words, 200_000_000, at);
    for f := 0 to 6
      invariant words[at] == 21_043_199 && words[at + 1] == NULL
    {
      words[6 * x + f] := fields[f];
    }
    var y;
    second, y := Acquire(words, 200_000_000, at);
  }

  lemma WideCells(w: seq<nat>, h: seq<Header>)
    requires Holds(w, h, 200_000_000, 0, 199_999_999) && Queue(h, 0, 199_999_999, InOrder(200_000_000)) && |h| == 200_000_000
    requires forall x :: 0 <= x < |h| ==> h[x].refcount == 0
    ensures var at := 6 * 21_043_199 + 3; w[at] == 21_043_200 && w[at + 1] == 0 && w[at + 2] == 0
  {
    var x := 21_043_199;
    HeaderWord(w, h, 200_000_000, 0, 199_999_999, x, 3);
    HeaderWord(w, h, 200_000_000, 0, 199_999_999, x, 4);
    HeaderWord(w, h, 200_000_000, 0, 199_999_999, x, 5);
    assert h[InOrder(200_000_000)[x]].next == SlabLists.After(InOrder(200_000_000), x);
  }
}
