/**
 The index-linked slab lists of src/flexalloc_ll.c: lists with a head cell (hdll) and a queue with
 head and tail cells (edll), threaded through the next and prev fields of the slab headers.
 */
module SlabLists {

  /** FLA_LINKED_LIST_NULL, INT32_MAX. */
  const NULL: nat := 0x7FFF_FFFF

  /** FLA_ERR_ALL_SLABS_USED. */
  const ALL_SLABS_USED: int := 2001

  datatype Header = Header(pool: nat, prev: nat, next: nat, refcount: nat)

  // ----- sequences of slab ids

  ghost predicate Same(s: seq<nat>, i: nat, j: nat)
    requires i < |s| && j < |s|
  {
    s[i] == s[j]
  }

  ghost predicate Distinct(s: seq<nat>) {
    forall i, j {:trigger Same(s, i, j)} :: 0 <= i < |s| && 0 <= j < |s| && Same(s, i, j) ==> i == j
  }

  function First(s: seq<nat>): nat { if s == [] then NULL else s[0] }
  function Last(s: seq<nat>): nat { if s == [] then NULL else s[|s| - 1] }

  function After(s: seq<nat>, i: nat): nat
    requires i < |s|
  {
    if i + 1 < |s| then s[i + 1] else NULL
  }

  function Before(s: seq<nat>, i: nat): nat
    requires i < |s|
  {
    if i > 0 then s[i - 1] else NULL
  }

  function Without(s: seq<nat>, k: nat): (r: seq<nat>)
    requires k < |s|
    ensures |r| == |s| - 1
  {
    s[..k] + s[k + 1..]
  }

  // ----- list predicates

  ghost predicate Ids(h: seq<Header>, s: seq<nat>) {
    |h| <= NULL && Distinct(s) && forall i :: 0 <= i < |s| ==> s[i] < |h|
  }

  /** head starts the doubly linked list of the slabs s, in order. */
  ghost predicate Linked(h: seq<Header>, head: nat, s: seq<nat>) {
    && Ids(h, s) && head == First(s)
    && forall i {:trigger h[s[i]]} :: 0 <= i < |s| ==> h[s[i]].next == After(s, i) && h[s[i]].prev == Before(s, i)
  }

  /** head and tail delimit the queue of the slabs s; a system's only slab may have a stray prev field. */
  ghost predicate Queue(h: seq<Header>, head: nat, tail: nat, s: seq<nat>) {
    && Ids(h, s) && head == First(s) && tail == Last(s)
    && forall i {:trigger h[s[i]]} :: 0 <= i < |s| ==>
      h[s[i]].next == After(s, i) && (|h| != 1 ==> h[s[i]].prev == Before(s, i))
  }

  /** head leads through the next fields to the slabs s. */
  ghost predicate Chained(h: seq<Header>, head: nat, s: seq<nat>) {
    && Ids(h, s) && head == First(s)
    && forall i {:trigger h[s[i]]} :: 0 <= i < |s| ==> h[s[i]].next == After(s, i)
  }

  /** Lists over slabs whose headers did not change are unaffected. */
  lemma LinkedFrame(h: seq<Header>, h': seq<Header>, head: nat, s: seq<nat>)
    requires Linked(h, head, s) && |h'| == |h|
    requires forall i {:trigger h'[s[i]]} :: 0 <= i < |s| ==>
      h'[s[i]].next == h[s[i]].next && h'[s[i]].prev == h[s[i]].prev
    ensures Linked(h', head, s)
  {
    assert forall i {:trigger h'[s[i]]} :: 0 <= i < |s| ==> h[s[i]].next == After(s, i) && h[s[i]].prev == Before(s, i);
  }

  lemma QueueFrame(h: seq<Header>, h': seq<Header>, head: nat, tail: nat, s: seq<nat>)
    requires Queue(h, head, tail, s) && |h'| == |h|
    requires forall i {:trigger h'[s[i]]} :: 0 <= i < |s| ==>
      h'[s[i]].next == h[s[i]].next && h'[s[i]].prev == h[s[i]].prev
    ensures Queue(h', head, tail, s)
  {
    assert forall i {:trigger h'[s[i]]} :: 0 <= i < |s| ==>
      h[s[i]].next == After(s, i) && (|h| != 1 ==> h[s[i]].prev == Before(s, i));
  }

  // ----- fla_hdll_prepend

  function Prepended(h: seq<Header>, head: nat, x: nat): (h': seq<Header>)
    requires x < |h| && (head == NULL || head < |h|)
    ensures |h'| == |h|
  {
    var h1 := if head == NULL then h else h[head := h[head].(prev := x)];
    h1[x := h1[x].(next := head, prev := NULL)]
  }

  lemma PrependLinks(h: seq<Header>, head: nat, s: seq<nat>, x: nat)
    requires Linked(h, head, s) && x < |h| && x !in s
    ensures head == NULL || head < |h|
    ensures Linked(Prepended(h, head, x), x, [x] + s)
  {
    var h', t := Prepended(h, head, x), [x] + s;
    forall i, j | 0 <= i < |t| && 0 <= j < |t| && Same(t, i, j)
      ensures i == j
    {
      if i > 0 && j > 0 {
        assert Same(s, i - 1, j - 1);
      }
    }
    forall i | 0 <= i < |t|
      ensures h'[t[i]].next == After(t, i) && h'[t[i]].prev == Before(t, i)
    {
      if i > 0 {
        assert t[i] == s[i - 1] && h[s[i - 1]].next == After(s, i - 1);
        assert i > 1 ==> !Same(s, i - 1, 0);
      }
    }
  }

  // ----- fla_hdll_remove

  function Unlinked(h: seq<Header>, x: nat): (h': seq<Header>)
    requires x < |h| && (h[x].prev == NULL || h[x].prev < |h|) && (h[x].next == NULL || h[x].next < |h|)
    ensures |h'| == |h|
  {
    var p, n := h[x].prev, h[x].next;
    var h1 := if p == NULL then h else h[p := h[p].(next := n)];
    if n == NULL then h1 else h1[n := h1[n].(prev := p)]
  }

  function HeadWithout(h: seq<Header>, head: nat, x: nat): nat
    requires x < |h|
  {
    if h[x].prev == NULL then h[x].next else head
  }

  lemma WithoutDistinct(s: seq<nat>, k: nat)
    requires Distinct(s) && k < |s|
    ensures Distinct(Without(s, k)) && s[k] !in Without(s, k)
  {
    var t := Without(s, k);
    forall i, j | 0 <= i < |t| && 0 <= j < |t| && Same(t, i, j)
      ensures i == j
    {
      assert Same(s, if i < k then i else i + 1, if j < k then j else j + 1);
    }
    forall i | 0 <= i < |t|
      ensures t[i] != s[k]
    {
      assert !Same(s, if i < k then i else i + 1, k);
    }
  }

  lemma UnlinkLinks(h: seq<Header>, head: nat, s: seq<nat>, k: nat)
    requires Linked(h, head, s) && k < |s|
    ensures var x := s[k];
      && (h[x].prev == NULL || h[x].prev < |h|) && (h[x].next == NULL || h[x].next < |h|)
      && Linked(Unlinked(h, x), HeadWithout(h, head, x), Without(s, k))
  {
    var x, t := s[k], Without(s, k);
    assert h[x].next == After(s, k) && h[x].prev == Before(s, k);
    WithoutDistinct(s, k);
    var h' := Unlinked(h, x);
    forall i | 0 <= i < |t|
      ensures h'[t[i]].next == After(t, i) && h'[t[i]].prev == Before(t, i)
    {
      var o := if i < k then i else i + 1;
      assert t[i] == s[o] && h[s[o]].next == After(s, o) && h[s[o]].prev == Before(s, o);
      assert k > 0 && o != k - 1 ==> !Same(s, o, k - 1);
      assert k + 1 < |s| && o != k + 1 ==> !Same(s, o, k + 1);
    }
  }

  // ----- fla_edll_remove_head

  function Dequeued(h: seq<Header>, head: nat, tail: nat): (h': seq<Header>)
    requires head < |h| && (head != tail ==> h[head].next < |h|)
    ensures |h'| == |h|
  {
    if head == tail then h else h[h[head].next := h[h[head].next].(prev := NULL)]
  }

  lemma DistinctTail(s: seq<nat>)
    requires Distinct(s) && s != []
    ensures Distinct(s[1..]) && s[0] !in s[1..]
  {
    WithoutDistinct(s, 0);
    assert Without(s, 0) == s[1..];
  }

  lemma DequeueTakesFirst(h: seq<Header>, head: nat, tail: nat, s: seq<nat>)
    requires Queue(h, head, tail, s) && s != []
    ensures head == s[0] < |h| && (head == tail <==> |s| == 1) && (head != tail ==> h[head].next < |h|)
    ensures Queue(Dequeued(h, head, tail), if head == tail then NULL else h[head].next,
                  if head == tail then NULL else tail, s[1..])
  {
    DistinctTail(s);
    assert h[s[0]].next == After(s, 0);
    assert |s| > 1 ==> !Same(s, 0, |s| - 1);
    var h', t := Dequeued(h, head, tail), s[1..];
    forall i | 0 <= i < |t|
      ensures h'[t[i]].next == After(t, i) && (|h| != 1 ==> h'[t[i]].prev == Before(t, i))
    {
      assert t[i] == s[i + 1] && h[s[i + 1]].next == After(s, i + 1);
      assert i > 0 ==> !Same(s, i + 1, 1);
    }
  }

  // ----- fla_edll_add_tail

  function Enqueued(h: seq<Header>, head: nat, tail: nat, x: nat): (h': seq<Header>)
    requires x < |h| && (head == tail == NULL || tail < |h|)
    ensures |h'| == |h|
  {
    var h1 := h[x := h[x].(next := NULL)];
    if head == tail && head == NULL then h1[x := h1[x].(prev := NULL)]
    else
      var h2 := h1[tail := h1[tail].(next := x)];
      h2[x := h2[x].(prev := tail)]
  }

  lemma EnqueueAddsLast(h: seq<Header>, head: nat, tail: nat, s: seq<nat>, x: nat)
    requires Queue(h, head, tail, s) && x < |h| && x !in s
    ensures head == tail == NULL <==> s == []
    ensures s != [] ==> tail < |h| && head != NULL
    ensures Queue(Enqueued(h, head, tail, x), if s == [] then x else head, x, s + [x])
  {
    var h', t := Enqueued(h, head, tail, x), s + [x];
    forall i, j | 0 <= i < |t| && 0 <= j < |t| && Same(t, i, j)
      ensures i == j
    {
      if i < |s| && j < |s| {
        assert Same(s, i, j);
      }
    }
    forall i | 0 <= i < |t|
      ensures h'[t[i]].next == After(t, i) && (|h| != 1 ==> h'[t[i]].prev == Before(t, i))
    {
      if i < |s| {
        assert t[i] == s[i] && h[s[i]].next == After(s, i);
        assert i + 1 < |s| ==> !Same(s, i, |s| - 1);
      }
    }
  }

  // ----- the methods, on the array of slab headers

  method HdllPrepend(headers: array<Header>, head: nat, x: nat) returns (head': nat)
    requires x < headers.Length && (head == NULL || head < headers.Length)
    modifies headers
    ensures headers[..] == Prepended(old(headers[..]), head, x) && head' == x
  {
    if head != NULL {
      headers[head] := headers[head].(prev := x);
    }
    headers[x] := headers[x].(next := head, prev := NULL);
    head' := x;
  }

  method HdllRemove(headers: array<Header>, head: nat, x: nat) returns (head': nat)
    requires x < headers.Length
    requires headers[x].prev == NULL || headers[x].prev < headers.Length
    requires headers[x].next == NULL || headers[x].next < headers.Length
    requires headers[x].prev != x && headers[x].next != x
    modifies headers
    ensures headers[..] == Unlinked(old(headers[..]), x) && head' == HeadWithout(old(headers[..]), head, x)
  {
    head' := head;
    if headers[x].prev == NULL {
      head' := headers[x].next;
    } else {
      var p := headers[x].prev;
      headers[p] := headers[p].(next := headers[x].next);
    }
    if headers[x].next != NULL {
      var n := headers[x].next;
      headers[n] := headers[n].(prev := headers[x].prev);
    }
  }

  method EdllRemoveHead(headers: array<Header>, head: nat, tail: nat) returns (x: nat, head': nat, tail': nat)
    requires head < headers.Length && (head != tail ==> headers[head].next < headers.Length)
    modifies headers
    ensures x == head && headers[..] == Dequeued(old(headers[..]), head, tail)
    ensures head' == if head == tail then NULL else old(headers[head].next)
    ensures tail' == if head == tail then NULL else tail
  {
    x := head;
    if head == tail {
      head', tail' := NULL, NULL;
    } else {
      var n := headers[x].next;
      head', tail' := n, tail;
      headers[n] := headers[n].(prev := NULL);
    }
  }

  method EdllAddTail(headers: array<Header>, head: nat, tail: nat, x: nat) returns (head': nat, tail': nat)
    requires x < headers.Length && (head == tail == NULL || tail < headers.Length)
    modifies headers
    ensures headers[..] == Enqueued(old(headers[..]), head, tail, x)
    ensures tail' == x && head' == if head == tail == NULL then x else head
  {
    headers[x] := headers[x].(next := NULL);
    if head == tail && head == NULL {
      head', tail' := x, x;
      headers[x] := headers[x].(prev := NULL);
    } else {
      headers[tail] := headers[tail].(next := x);
      headers[x] := headers[x].(prev := tail);
      head', tail' := head, x;
    }
  }

  // ----- fla_mkfs_slab_sgmt_init

  /** The slabs in the order of their ids. */
  function InOrder(n: nat): (s: seq<nat>)
    ensures |s| == n && forall i :: 0 <= i < n ==> s[i] == i
  {
    seq(n, i requires 0 <= i < n => i)
  }

  /** 32-bit subtraction of one. */
  function Dec32(x: nat): nat { if x == 0 then 0xFFFF_FFFF else x - 1 }

  /** Every slab starts on the free queue, in order.  With a single slab the prev field is a wrapped -1. */
  method MkfsSlabSgmtInit(headers: array<Header>) returns (head: nat, tail: nat, num: nat)
    requires 0 < headers.Length <= NULL
    modifies headers
    ensures num == headers.Length && Queue(headers[..], head, tail, InOrder(num))
    ensures Linked(headers[..], head, InOrder(num)) <==> headers.Length != 1
    ensures forall i :: 0 <= i < headers.Length ==> headers[i].pool == 0 && headers[i].refcount == 0
  {
    var last := headers.Length - 1;
    for i := 0 to headers.Length
      invariant forall j :: 0 <= j < i ==> headers[j] == Header(0, 0, 0, 0)
    {
      headers[i] := Header(0, 0, 0, 0);
    }
    tail, head, num := last, 0, headers.Length;
    headers[0] := headers[0].(next := 1, prev := NULL);
    headers[last] := headers[last].(next := NULL, prev := Dec32(last));
    var i := 1;
    while i < last
      invariant 1 <= i && (last > 0 ==> i <= last)
      invariant forall j :: 0 <= j < headers.Length ==> headers[j].pool == 0 && headers[j].refcount == 0
      invariant forall j :: 1 <= j < i && j < last ==> headers[j].next == j + 1 && headers[j].prev == j - 1
      invariant headers[last].next == NULL && headers[last].prev == Dec32(last)
      invariant last > 0 ==> headers[0].next == 1 && headers[0].prev == NULL
    {
      headers[i] := headers[i].(next := i + 1, prev := i - 1);
      i := i + 1;
    }
    InOrderIsQueue(headers[..], last);
  }

  lemma InOrderIsQueue(h: seq<Header>, last: nat)
    requires last + 1 == |h| <= NULL
    requires forall j :: 1 <= j < last ==> h[j].next == j + 1 && h[j].prev == j - 1
    requires h[last].next == NULL && h[last].prev == Dec32(last)
    requires last > 0 ==> h[0].next == 1 && h[0].prev == NULL
    ensures Queue(h, 0, last, InOrder(|h|))
    ensures Linked(h, 0, InOrder(|h|)) <==> |h| != 1
  {
    var s := InOrder(|h|);
    forall i, j | 0 <= i < |s| && 0 <= j < |s| && Same(s, i, j)
      ensures i == j
    {
    }
    forall i | 0 <= i < |s|
      ensures h[s[i]].next == After(s, i) && (|h| != 1 ==> h[s[i]].prev == Before(s, i))
    {
    }
    if |h| == 1 {
      assert h[s[0]].prev != Before(s, 0);
    }
  }
}
