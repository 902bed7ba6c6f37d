/**
 Which slab is on which list: the free queue of the system and the empty, partial and full lists of the
 pool at entry 0, over the headers they are threaded through.
 */
module SlabBook {
  import opened SlabLists
  import opened SetFacts

  /** The list a slab is on; Loose while it is between two of them. */
  datatype Kind = Free | Empty | Partial | Full | Loose {
    predicate InPool() { Empty? || Partial? || Full? }
  }

  /** The three list heads of a pool entry. */
  datatype PoolHeads = PoolHeads(empty: nat, partial: nat, full: nat) {
    function Head(k: Kind): nat
      requires k.InPool()
    {
      match k case Empty => empty case Partial => partial case Full => full
    }

    function With(k: Kind, v: nat): (p: PoolHeads)
      requires k.InPool()
      ensures forall j: Kind :: j.InPool() ==> p.Head(j) == if j == k then v else Head(j)
    {
      match k case Empty => this.(empty := v) case Partial => this.(partial := v) case Full => this.(full := v)
    }
  }

  /** The sequence without the first x. */
  function Less(s: seq<nat>, x: nat): seq<nat> {
    if s == [] then [] else if s[0] == x then s[1..] else [s[0]] + Less(s[1..], x)
  }

  /** The contents of the lists. */
  datatype Lists = Lists(free: seq<nat>, empty: seq<nat>, partial: seq<nat>, full: seq<nat>) {
    function Of(k: Kind): seq<nat> {
      match k case Free => free case Empty => empty case Partial => partial case Full => full case Loose => []
    }

    function With(k: Kind, v: seq<nat>): (l: Lists)
      requires !k.Loose?
      ensures forall j: Kind :: l.Of(j) == if j == k then v else Of(j)
    {
      match k
      case Free => this.(free := v)
      case Empty => this.(empty := v)
      case Partial => this.(partial := v)
      case Full => this.(full := v)
    }

    /** x is on no list. */
    function Minus(x: nat): (l: Lists)
      ensures forall j: Kind :: l.Of(j) == Less(Of(j), x)
    {
      Lists(Less(free, x), Less(empty, x), Less(partial, x), Less(full, x))
    }

    /** x is first on the list of kind k, and on no other. */
    function MovedTo(x: nat, k: Kind): Lists
      requires !k.Loose?
    {
      Minus(x).With(k, [x] + Less(Of(k), x))
    }
  }

  datatype Book = Book(h: seq<Header>, fhead: nat, ftail: nat, pool: PoolHeads)

  /** A list holds exactly the slabs of its kind. */
  ghost predicate Sorted(lists: Lists, kind: seq<Kind>, k: Kind) {
    forall x: nat {:trigger x in lists.Of(k)} :: x in lists.Of(k) <==> x < |kind| && kind[x] == k
  }

  /** The four lists are well linked, and every slab that is not loose is on exactly the list of its kind. */
  ghost predicate Threaded(b: Book, lists: Lists, kind: seq<Kind>) {
    && |kind| == |b.h|
    && Queue(b.h, b.fhead, b.ftail, lists.free)
    && (forall k: Kind {:trigger lists.Of(k)} :: k.InPool() ==> Linked(b.h, b.pool.Head(k), lists.Of(k)))
    && (forall k: Kind {:trigger Sorted(lists, kind, k)} :: !k.Loose? ==> Sorted(lists, kind, k))
  }

  /** The lists of all kinds but one are still linked. */
  lemma OthersKeep(b: Book, h': seq<Header>, lists: Lists, kind: seq<Kind>, but: Kind)
    requires Threaded(b, lists, kind) && |h'| == |b.h|
    requires forall x {:trigger h'[x]} :: 0 <= x < |b.h| && kind[x] != but && kind[x] != Loose ==>
      h'[x].next == b.h[x].next && h'[x].prev == b.h[x].prev
    ensures but != Free ==> Queue(h', b.fhead, b.ftail, lists.free)
    ensures forall k: Kind {:trigger lists.Of(k)} :: k.InPool() && k != but ==> Linked(h', b.pool.Head(k), lists.Of(k))
  {
    if but != Free {
      assert Sorted(lists, kind, Free);
      assert lists.Of(Free) == lists.free;
      SameLinksOf(b.h, h', lists, kind, Free);
      QueueFrame(b.h, h', b.fhead, b.ftail, lists.free);
    }
    forall k: Kind | k.InPool() && k != but
      ensures Linked(h', b.pool.Head(k), lists.Of(k))
    {
      assert Sorted(lists, kind, k);
      SameLinksOf(b.h, h', lists, kind, k);
      LinkedFrame(b.h, h', b.pool.Head(k), lists.Of(k));
    }
  }

  lemma SameLinksOf(h: seq<Header>, h': seq<Header>, lists: Lists, kind: seq<Kind>, k: Kind)
    requires |kind| == |h| == |h'| && Sorted(lists, kind, k)
    requires forall x {:trigger h'[x]} :: 0 <= x < |h| && kind[x] == k ==> h'[x].next == h[x].next && h'[x].prev == h[x].prev
    ensures var s := lists.Of(k); forall i {:trigger h'[s[i]]} :: 0 <= i < |s| ==>
      s[i] < |h| && h'[s[i]].next == h[s[i]].next && h'[s[i]].prev == h[s[i]].prev
  {
    var s := lists.Of(k);
    forall i | 0 <= i < |s|
      ensures s[i] < |h| && h'[s[i]].next == h[s[i]].next && h'[s[i]].prev == h[s[i]].prev
    {
      assert s[i] in lists.Of(k);
    }
  }

  lemma SortedAfter(lists: Lists, lists': Lists, kind: seq<Kind>, x: nat, from: Kind, to: Kind)
    requires x < |kind| && kind[x] == from != to
    requires forall k: Kind {:trigger Sorted(lists, kind, k)} :: !k.Loose? ==> Sorted(lists, kind, k)
    requires forall k: Kind {:trigger lists'.Of(k)} :: k != from && k != to ==> lists'.Of(k) == lists.Of(k)
    requires forall y: nat {:trigger y in lists'.Of(from)} :: !from.Loose? ==> (y in lists'.Of(from) <==> y != x && y in lists.Of(from))
    requires forall y: nat {:trigger y in lists'.Of(to)} :: !to.Loose? ==> (y in lists'.Of(to) <==> y == x || y in lists.Of(to))
    ensures forall k: Kind {:trigger Sorted(lists', kind[x := to], k)} :: !k.Loose? ==> Sorted(lists', kind[x := to], k)
  {
    forall k: Kind | !k.Loose?
      ensures Sorted(lists', kind[x := to], k)
    {
      assert Sorted(lists, kind, k);
    }
  }

  lemma WithoutHolds(s: seq<nat>, i: nat)
    requires i < |s| && Distinct(s)
    ensures forall y: nat :: y in Without(s, i) <==> y != s[i] && y in s
  {
    WithoutDistinct(s, i);
    forall y: nat | y in s && y != s[i]
      ensures y in Without(s, i)
    {
      var j :| 0 <= j < |s| && s[j] == y;
      assert Without(s, i)[if j < i then j else j - 1] == y;
    }
  }

  lemma OffThenOn(l: Lists, off: Lists, on: Lists, x: nat, k: Kind)
    requires k.InPool() && off == l.Minus(x) && on == off.With(k, [x] + off.Of(k))
    ensures on == l.MovedTo(x, k)
  {
  }

  lemma {:induction false} LessAbsent(s: seq<nat>, x: nat)
    requires x !in s
    ensures Less(s, x) == s
  {
    if s != [] {
      LessAbsent(s[1..], x);
    }
  }

  lemma {:induction false} LessIsWithout(s: seq<nat>, i: nat)
    requires i < |s| && Distinct(s)
    ensures Less(s, s[i]) == Without(s, i)
  {
    if i > 0 {
      DistinctTail(s);
      assert s[0] != s[1..][i - 1];
      LessIsWithout(s[1..], i - 1);
      assert Without(s, i) == [s[0]] + Without(s[1..], i - 1);
    }
  }

  /** Taking a slab off the list that has it takes it off all of them. */
  lemma MinusIs(b: Book, lists: Lists, kind: seq<Kind>, x: nat, i: nat)
    requires Threaded(b, lists, kind) && x < |b.h| && !kind[x].Loose? && i < |lists.Of(kind[x])| && lists.Of(kind[x])[i] == x
    ensures lists.Minus(x) == lists.With(kind[x], Without(lists.Of(kind[x]), i))
  {
    forall k: Kind
      ensures lists.Minus(x).Of(k) == lists.With(kind[x], Without(lists.Of(kind[x]), i)).Of(k)
    {
      assert !k.Loose? ==> Sorted(lists, kind, k);
      if k == kind[x] {
        LessIsWithout(lists.Of(k), i);
      } else {
        LessAbsent(lists.Of(k), x);
      }
    }
    SameLists(lists.Minus(x), lists.With(kind[x], Without(lists.Of(kind[x]), i)));
  }

  lemma SameLists(l: Lists, l': Lists)
    requires forall k: Kind :: l.Of(k) == l'.Of(k)
    ensures l == l'
  {
    assert l.Of(Free) == l'.Of(Free) && l.Of(Empty) == l'.Of(Empty) && l.Of(Partial) == l'.Of(Partial) && l.Of(Full) == l'.Of(Full);
  }

  // ----- the lists that object create uses

  /** Where the next object goes: the first partial slab, else the first empty one, else the oldest free one. */
  function Pick(l: Lists): nat
    requires l.partial != [] || l.empty != [] || l.free != []
  {
    if l.partial != [] then l.partial[0] else if l.empty != [] then l.empty[0] else l.free[0]
  }

  /** The lists once that slab is in the pool. */
  function Offered(l: Lists): Lists
    requires l.partial != [] || l.empty != [] || l.free != []
  {
    if l.partial != [] || l.empty != [] then l else l.(free := l.free[1..], empty := [l.free[0]])
  }

  /** The lists after an object was created, which may have filled its slab. */
  function AfterCreate(l: Lists, full: bool): Lists
    requires l.partial != [] || l.empty != [] || l.free != []
  {
    if full then l.MovedTo(Pick(l), Full) else if l.partial != [] then l else l.MovedTo(Pick(l), Partial)
  }

  lemma OfferedThenMoved(l: Lists, to: Kind)
    requires Distinct(l.free) && (l.partial != [] || l.empty != [] || l.free != []) && (to == Partial || to == Full)
    ensures Offered(l).MovedTo(Pick(l), to) == l.MovedTo(Pick(l), to)
  {
    if l.partial == [] && l.empty == [] {
      DistinctTail(l.free);
      LessAbsent(l.free[1..], l.free[0]);
      SameLists(Offered(l).Minus(l.free[0]), l.Minus(l.free[0]));
    }
  }

  /** Taking a slab into the pool and moving it is one move. */
  lemma CreateMoves(l: Lists, offered: Lists, after: Lists, full: bool)
    requires Distinct(l.free) && (l.partial != [] || l.empty != [] || l.free != []) && offered == Offered(l)
    requires after == if full then offered.MovedTo(Pick(l), Full) else if l.partial != [] then offered else offered.MovedTo(Pick(l), Partial)
    ensures after == AfterCreate(l, full)
  {
    OfferedThenMoved(l, Full);
    OfferedThenMoved(l, Partial);
  }

  // ----- moving a slab

  function Removed(b: Book, x: nat, k: Kind): Book
    requires k.InPool() && x < |b.h|
    requires (b.h[x].prev == NULL || b.h[x].prev < |b.h|) && (b.h[x].next == NULL || b.h[x].next < |b.h|)
  {
    b.(h := Unlinked(b.h, x), pool := b.pool.With(k, HeadWithout(b.h, b.pool.Head(k), x)))
  }

  /** Where a slab is on its list. */
  lemma Locate(b: Book, lists: Lists, kind: seq<Kind>, x: nat) returns (i: nat)
    requires Threaded(b, lists, kind) && x < |b.h| && kind[x].InPool()
    ensures i < |lists.Of(kind[x])| && lists.Of(kind[x])[i] == x
    ensures (b.h[x].prev == NULL || b.h[x].prev < |b.h|) && (b.h[x].next == NULL || b.h[x].next < |b.h|)
    ensures b.h[x].prev != x && b.h[x].next != x
    ensures x == b.pool.Head(kind[x]) ==> Without(lists.Of(kind[x]), i) == lists.Of(kind[x])[1..]
    ensures forall y {:trigger Unlinked(b.h, x)[y]} :: 0 <= y < |b.h| && y !in lists.Of(kind[x]) ==> Unlinked(b.h, x)[y] == b.h[y]
  {
    var k := kind[x];
    var s := lists.Of(k);
    assert Sorted(lists, kind, k);
    assert x in lists.Of(k);
    i :| 0 <= i < |s| && s[i] == x;
    Neighbours(b.h, b.pool.Head(k), s, i);
    UnlinkTouches(b.h, x, s);
  }

  /** fla_hdll_remove takes the slab off its list. */
  lemma RemoveKeeps(b: Book, lists: Lists, kind: seq<Kind>, x: nat) returns (lists': Lists)
    requires Threaded(b, lists, kind) && x < |b.h| && kind[x].InPool()
    ensures (b.h[x].prev == NULL || b.h[x].prev < |b.h|) && (b.h[x].next == NULL || b.h[x].next < |b.h|)
    ensures b.h[x].prev != x && b.h[x].next != x
    ensures Threaded(Removed(b, x, kind[x]), lists', kind[x := Loose])
    ensures lists' == lists.Minus(x) && lists'.free == lists.free
  {
    var i := Locate(b, lists, kind, x);
    lists' := lists.With(kind[x], Without(lists.Of(kind[x]), i));
    RemoveAt(b, lists, kind, x, i);
    MinusIs(b, lists, kind, x, i);
  }

  lemma RemoveAt(b: Book, lists: Lists, kind: seq<Kind>, x: nat, i: nat)
    requires Threaded(b, lists, kind) && x < |b.h| && kind[x].InPool()
    requires i < |lists.Of(kind[x])| && lists.Of(kind[x])[i] == x
    requires (b.h[x].prev == NULL || b.h[x].prev < |b.h|) && (b.h[x].next == NULL || b.h[x].next < |b.h|)
    requires forall y {:trigger Unlinked(b.h, x)[y]} :: 0 <= y < |b.h| && y !in lists.Of(kind[x]) ==> Unlinked(b.h, x)[y] == b.h[y]
    ensures Threaded(Removed(b, x, kind[x]), lists.With(kind[x], Without(lists.Of(kind[x]), i)), kind[x := Loose])
  {
    var k := kind[x];
    var s := lists.Of(k);
    assert Sorted(lists, kind, k);
    UnlinkLinks(b.h, b.pool.Head(k), s, i);
    WithoutHolds(s, i);
    OthersKeep(b, Unlinked(b.h, x), lists, kind, k);
    SortedAfter(lists, lists.With(k, Without(s, i)), kind, x, k, Loose);
  }

  /** A slab's neighbours are other slabs of its list, and only the first slab is the head. */
  lemma Neighbours(h: seq<Header>, head: nat, s: seq<nat>, i: nat)
    requires Linked(h, head, s) && i < |s|
    ensures h[s[i]].prev == NULL || h[s[i]].prev in s
    ensures h[s[i]].next == NULL || h[s[i]].next in s
    ensures h[s[i]].prev != s[i] && h[s[i]].next != s[i]
    ensures s[i] == head ==> i == 0 && Without(s, i) == s[1..]
  {
    assert h[s[i]].next == After(s, i) && h[s[i]].prev == Before(s, i);
    assert i > 0 ==> !Same(s, i - 1, i) && !Same(s, i, 0);
    assert i + 1 < |s| ==> !Same(s, i, i + 1);
  }

  lemma UnlinkTouches(h: seq<Header>, x: nat, s: seq<nat>)
    requires x < |h| && (h[x].prev == NULL || h[x].prev in s) && (h[x].next == NULL || h[x].next in s)
    requires forall i :: 0 <= i < |s| ==> s[i] < |h|
    ensures forall y {:trigger Unlinked(h, x)[y]} :: 0 <= y < |h| && y !in s ==> Unlinked(h, x)[y] == h[y]
  {
  }

  function Added(b: Book, x: nat, k: Kind): Book
    requires k.InPool() && x < |b.h| && (b.pool.Head(k) == NULL || b.pool.Head(k) < |b.h|)
  {
    b.(h := Prepended(b.h, b.pool.Head(k), x), pool := b.pool.With(k, x))
  }

  /** fla_hdll_prepend puts a loose slab first. */
  lemma AddKeeps(b: Book, lists: Lists, kind: seq<Kind>, x: nat, k: Kind) returns (lists': Lists)
    requires Threaded(b, lists, kind) && x < |b.h| && kind[x] == Loose && k.InPool()
    ensures b.pool.Head(k) == NULL || b.pool.Head(k) < |b.h|
    ensures Threaded(Added(b, x, k), lists', kind[x := k])
    ensures lists' == lists.With(k, [x] + lists.Of(k))
  {
    var s := lists.Of(k);
    assert Sorted(lists, kind, k);
    PrependLinks(b.h, b.pool.Head(k), s, x);
    lists' := lists.With(k, [x] + s);
    var b' := Added(b, x, k);
    assert b.pool.Head(k) != NULL ==> b.pool.Head(k) in s;
    OthersKeep(b, b'.h, lists, kind, k);
    SortedAfter(lists, lists', kind, x, Loose, k);
  }

  function Taken(b: Book): Book
    requires b.fhead < |b.h| && (b.fhead != b.ftail ==> b.h[b.fhead].next < |b.h|)
  {
    Book(Dequeued(b.h, b.fhead, b.ftail), if b.fhead == b.ftail then NULL else b.h[b.fhead].next,
         if b.fhead == b.ftail then NULL else b.ftail, b.pool)
  }

  /** fla_edll_remove_head takes the oldest free slab. */
  lemma TakeKeeps(b: Book, lists: Lists, kind: seq<Kind>) returns (lists': Lists)
    requires Threaded(b, lists, kind) && lists.free != []
    ensures b.fhead == lists.free[0] < |b.h| && (b.fhead != b.ftail ==> b.h[b.fhead].next < |b.h|)
    ensures kind[b.fhead] == Free && Threaded(Taken(b), lists', kind[b.fhead := Loose])
    ensures lists' == lists.With(Free, lists.free[1..])
  {
    var s := lists.Of(Free);
    assert Sorted(lists, kind, Free);
    DequeueTakesFirst(b.h, b.fhead, b.ftail, s);
    lists' := lists.With(Free, s[1..]);
    assert b.fhead in s;
    assert b.fhead != b.ftail ==> b.h[s[0]].next == s[1] && s[1] in s;
    OthersKeep(b, Taken(b).h, lists, kind, Free);
    WithoutHolds(s, 0);
    assert Without(s, 0) == s[1..];
    SortedAfter(lists, lists', kind, b.fhead, Free, Loose);
  }

  function Returned(b: Book, x: nat): Book
    requires x < |b.h| && (b.fhead == b.ftail == NULL || b.ftail < |b.h|)
  {
    Book(Enqueued(b.h, b.fhead, b.ftail, x), if b.fhead == b.ftail == NULL then x else b.fhead, x, b.pool)
  }

  /** fla_edll_add_tail makes a loose slab the youngest free one. */
  lemma ReturnKeeps(b: Book, lists: Lists, kind: seq<Kind>, x: nat) returns (lists': Lists)
    requires Threaded(b, lists, kind) && x < |b.h| && kind[x] == Loose
    ensures b.fhead == b.ftail == NULL || b.ftail < |b.h|
    ensures b.ftail < |b.h| ==> kind[b.ftail] == Free
    ensures Threaded(Returned(b, x), lists', kind[x := Free])
    ensures lists' == lists.With(Free, lists.free + [x])
  {
    var s := lists.Of(Free);
    assert Sorted(lists, kind, Free);
    EnqueueAddsLast(b.h, b.fhead, b.ftail, s, x);
    lists' := lists.With(Free, s + [x]);
    assert s != [] ==> b.ftail in s;
    OthersKeep(b, Returned(b, x).h, lists, kind, Free);
    SortedAfter(lists, lists', kind, x, Loose, Free);
  }

  /** Headers of loose slabs, and the other fields of all of them, are free to change. */
  lemma RelabelKeeps(b: Book, h': seq<Header>, lists: Lists, kind: seq<Kind>)
    requires Threaded(b, lists, kind) && |h'| == |b.h|
    requires forall x {:trigger h'[x]} :: 0 <= x < |h'| && kind[x] != Loose ==> h'[x].next == b.h[x].next && h'[x].prev == b.h[x].prev
    ensures Threaded(b.(h := h'), lists, kind)
  {
    OthersKeep(b, h', lists, kind, Loose);
  }

  /** The head of a pool list is null, or a slab of the list's kind. */
  lemma HeadOf(b: Book, lists: Lists, kind: seq<Kind>, k: Kind)
    requires Threaded(b, lists, kind) && k.InPool()
    ensures b.pool.Head(k) == NULL <==> lists.Of(k) == []
    ensures lists.Of(k) != [] ==> b.pool.Head(k) == lists.Of(k)[0] < |b.h| && kind[b.pool.Head(k)] == k
  {
    assert Sorted(lists, kind, k);
    if lists.Of(k) != [] {
      assert lists.Of(k)[0] in lists.Of(k);
    }
  }

  lemma HeadsAreFirst(b: Book, lists: Lists, kind: seq<Kind>)
    requires Threaded(b, lists, kind)
    ensures b.pool == PoolHeads(First(lists.empty), First(lists.partial), First(lists.full))
  {
    assert b.pool.Head(Empty) == First(lists.Of(Empty)) && b.pool.Head(Partial) == First(lists.Of(Partial)) && b.pool.Head(Full) == First(lists.Of(Full));
  }

  // ----- giving up a whole list

  /** The slabs of kind k become loose. */
  ghost function Loosened(kind: seq<Kind>, k: Kind): (r: seq<Kind>)
    ensures |r| == |kind| && forall x {:trigger r[x]} :: 0 <= x < |kind| ==> r[x] == if kind[x] == k then Loose else kind[x]
  {
    seq(|kind|, x requires 0 <= x < |kind| => if kind[x] == k then Loose else kind[x])
  }

  /** A pool list that is given up stays a chain through its next fields. */
  lemma LoosenKeeps(b: Book, lists: Lists, kind: seq<Kind>, k: Kind)
    requires Threaded(b, lists, kind) && k.InPool()
    ensures Threaded(b.(pool := b.pool.With(k, NULL)), lists.With(k, []), Loosened(kind, k))
    ensures Chained(b.h, b.pool.Head(k), lists.Of(k))
    ensures Sorted(lists, kind, k)
  {
    var lists', kind' := lists.With(k, []), Loosened(kind, k);
    assert Sorted(lists, kind, k);
    forall j: Kind | !j.Loose?
      ensures Sorted(lists', kind', j)
    {
      assert Sorted(lists, kind, j);
    }
    LinkedIsChained(b.h, b.pool.Head(k), lists.Of(k));
  }

  lemma LinkedIsChained(h: seq<Header>, head: nat, s: seq<nat>)
    requires Linked(h, head, s)
    ensures Chained(h, head, s)
  {
  }

  /** Returning the first slab of a chain leaves the rest of it. */
  lemma ChainAfterReturn(b: Book, lists: Lists, kind: seq<Kind>, s: seq<nat>)
    requires Threaded(b, lists, kind) && s != [] && Chained(b.h, s[0], s)
    requires forall x: nat :: x in s ==> x < |kind| && kind[x] == Loose
    ensures b.fhead == b.ftail == NULL || b.ftail < |b.h|
    ensures b.h[s[0]].next == First(s[1..])
    ensures Chained(Enqueued(b.h, b.fhead, b.ftail, s[0]), First(s[1..]), s[1..])
  {
    var _ := ReturnKeeps(b, lists, kind, s[0]);
    DistinctTail(s);
    var h', t := Returned(b, s[0]).h, s[1..];
    assert b.h[s[0]].next == After(s, 0);
    forall i | 0 <= i < |t|
      ensures h'[t[i]].next == After(t, i)
    {
      assert t[i] == s[i + 1] && b.h[s[i + 1]].next == After(s, i + 1) && s[i + 1] in s;
    }
  }

  function Elements(s: seq<nat>): set<nat> {
    set x | x in s
  }

  // ----- a slab that is lost

  function Second(s: seq<nat>): nat { if |s| > 1 then s[1] else NULL }

  /** The heads of a pool that could not be released: the first full slab, or else the first partial one, is passed. */
  function HeadsAfterLoss(l: Lists): PoolHeads {
    if l.full != [] then PoolHeads(NULL, First(l.partial), Second(l.full)) else PoolHeads(NULL, Second(l.partial), NULL)
  }

  /** Some four lists describe the headers and cells, and every slab is on one of them. */
  ghost predicate Consistent(b: Book) {
    exists lists, kind :: Threaded(b, lists, kind) && forall x {:trigger kind[x]} :: 0 <= x < |kind| ==> kind[x] != Loose
  }

  /** The next fields leave no choice. */
  lemma {:induction false} ChainUnique(h: seq<Header>, head: nat, s: seq<nat>, t: seq<nat>)
    requires Chained(h, head, s) && Chained(h, head, t)
    ensures s == t
    decreases |s|
  {
    if s != [] && t != [] {
      ChainRest(h, s);
      ChainRest(h, t);
      ChainUnique(h, h[head].next, s[1..], t[1..]);
      assert s == [s[0]] + s[1..] && t == [t[0]] + t[1..];
    }
  }

  lemma ChainRest(h: seq<Header>, s: seq<nat>)
    requires s != [] && Chained(h, s[0], s)
    ensures Chained(h, h[s[0]].next, s[1..])
  {
    DistinctTail(s);
    var t := s[1..];
    assert h[s[0]].next == After(s, 0);
    forall i | 0 <= i < |t|
      ensures h[t[i]].next == After(t, i)
    {
      assert t[i] == s[i + 1] && h[s[i + 1]].next == After(s, i + 1);
    }
  }

  /** Both descriptions agree on a list whose head is the same. */
  lemma AgreeOnList(b: Book, b': Book, lists: Lists, lists': Lists, kind: seq<Kind>, kind': seq<Kind>, k: Kind)
    requires Threaded(b, lists, kind) && Threaded(b', lists', kind') && b'.h == b.h && !k.Loose?
    requires if k == Free then b'.fhead == b.fhead else b'.pool.Head(k) == b.pool.Head(k)
    ensures lists'.Of(k) == lists.Of(k)
  {
    var s, t := lists.Of(k), lists'.Of(k);
    if k == Free {
      ChainUnique(b.h, b.fhead, s, t);
    } else {
      LinkedIsChained(b.h, b.pool.Head(k), s);
      LinkedIsChained(b.h, b.pool.Head(k), t);
      ChainUnique(b.h, b.pool.Head(k), s, t);
    }
  }

  /** If the head of a list is moved past its first slab and nothing else is done, that slab is on no list. */
  lemma FirstIsLost(b: Book, b': Book, lists: Lists, kind: seq<Kind>, k: Kind)
    requires Threaded(b, lists, kind) && k.InPool() && lists.Of(k) != []
    requires b.pool.Head(k) < |b.h| && b' == b.(pool := b.pool.With(k, b.h[b.pool.Head(k)].next))
    ensures !Consistent(b')
  {
    var s := lists.Of(k);
    HeadOf(b, lists, kind, k);
    forall lists', kind' | Threaded(b', lists', kind')
      ensures s[0] < |kind'| && kind'[s[0]] == Loose
    {
      var j := kind'[s[0]];
      if j != Loose {
        assert Sorted(lists', kind', j);
        assert s[0] in lists'.Of(j);
        if j == k {
          HeadNotPassed(b, b', lists, lists', kind, kind', k);
        } else {
          assert Sorted(lists, kind, j);
          AgreeOnList(b, b', lists, lists', kind, kind', j);
        }
      }
    }
  }

  /** The first slab of a list points on, but the second still points back. */
  lemma HeadNotPassed(b: Book, b': Book, lists: Lists, lists': Lists, kind: seq<Kind>, kind': seq<Kind>, k: Kind)
    requires Threaded(b, lists, kind) && Threaded(b', lists', kind') && k.InPool() && lists.Of(k) != []
    requires b.pool.Head(k) < |b.h| && b' == b.(pool := b.pool.With(k, b.h[b.pool.Head(k)].next))
    ensures lists'.Of(k) == []
  {
    var s, t := lists.Of(k), lists'.Of(k);
    assert Linked(b.h, b.pool.Head(k), s) && Linked(b.h, b'.pool.Head(k), t);
    PointsBack(b.h, s);
  }

  lemma PointsBack(h: seq<Header>, s: seq<nat>)
    requires s != [] && Linked(h, s[0], s)
    ensures h[s[0]].next == Second(s)
    ensures h[s[0]].next == NULL || (h[s[0]].next < |h| && h[h[s[0]].next].prev == s[0] < NULL)
  {
    assert h[s[0]].next == After(s, 0);
    assert |s| > 1 ==> h[s[1]].prev == Before(s, 1);
  }

  lemma DistinctBound(s: seq<nat>, n: nat)
    requires Distinct(s) && forall i :: 0 <= i < |s| ==> s[i] < n
    ensures |s| <= n
  {
    ElementCount(s);
    SubsetSize(Elements(s), Upto(n));
  }

  lemma {:induction false} ElementCount(s: seq<nat>)
    requires Distinct(s)
    ensures |Elements(s)| == |s|
  {
    if s != [] {
      DistinctTail(s);
      ElementCount(s[1..]);
      assert Elements(s) == Elements(s[1..]) + {s[0]};
    }
  }

  lemma {:induction false} CountOnce(s: seq<nat>, x: nat)
    requires Distinct(s)
    ensures multiset(s)[x] == if x in s then 1 else 0
  {
    if s != [] {
      DistinctTail(s);
      CountOnce(s[1..], x);
      assert s == [s[0]] + s[1..];
    }
  }

  /** How often a slab occurs on the four lists together. */
  ghost function Occurrences(lists: Lists, x: nat): nat {
    multiset(lists.free)[x] + multiset(lists.empty)[x] + multiset(lists.partial)[x] + multiset(lists.full)[x]
  }

  /** Every slab that is not loose is on one list, once. */
  lemma OnOneList(b: Book, lists: Lists, kind: seq<Kind>, x: nat)
    requires Threaded(b, lists, kind) && x < |b.h|
    ensures Occurrences(lists, x) == if kind[x] == Loose then 0 else 1
    ensures x in lists.free <==> kind[x] == Free
    ensures x in lists.empty <==> kind[x] == Empty
    ensures x in lists.partial <==> kind[x] == Partial
    ensures x in lists.full <==> kind[x] == Full
  {
    assert Sorted(lists, kind, Free) && Sorted(lists, kind, Empty) && Sorted(lists, kind, Partial) && Sorted(lists, kind, Full);
    assert x in lists.Of(Free) <==> kind[x] == Free;
    assert x in lists.Of(Empty) <==> kind[x] == Empty;
    assert x in lists.Of(Partial) <==> kind[x] == Partial;
    assert x in lists.Of(Full) <==> kind[x] == Full;
    CountOnce(lists.free, x);
    CountOnce(lists.Of(Empty), x);
    CountOnce(lists.Of(Partial), x);
    CountOnce(lists.Of(Full), x);
  }
}
