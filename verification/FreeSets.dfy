/** Freelists as sets of indices: the specification the bitmap and its clients share. */
module FreeSets {
  import opened Arith
  import opened SetFacts

  ghost predicate IsMin(s: set<nat>, x: nat) {
    x in s && forall y :: y in s ==> x <= y
  }

  lemma {:induction false} MinExists(s: set<nat>)
    requires s != {}
    ensures exists m :: IsMin(s, m)
  {
    var x :| x in s;
    if s == {x} {
      assert IsMin(s, x);
    } else {
      MinExists(s - {x});
      var m :| IsMin(s - {x}, m);
      var m' := if x < m then x else m;
      forall y | y in s
        ensures m' <= y
      {
        assert y == x || y in s - {x};
      }
      assert IsMin(s, m');
    }
  }

  function Min(s: set<nat>): (m: nat)
    requires s != {}
    ensures IsMin(s, m)
  {
    MinExists(s);
    assert exists m :: m in s && forall y :: y in s ==> m <= y by {
      var m :| IsMin(s, m);
    }
    var m :| m in s && forall y :: y in s ==> m <= y;
    m
  }

  /** An index as the C functions return it: a 32-bit int, negative from 2^31 on. */
  function Int32(x: nat): (i: int)
    ensures x < 0x8000_0000 ==> i == x
    ensures 0x8000_0000 <= x < 0xFFFF_FFFF ==> i < -1
  {
    if x < 0x8000_0000 then x else x - 0x1_0000_0000
  }

  lemma MinUnique(s: set<nat>, a: nat, b: nat)
    requires IsMin(s, a) && IsMin(s, b)
    ensures a == b
  {
  }

  /** The n smallest members, or all if there are fewer. */
  function Lowest(s: set<nat>, n: nat): (r: set<nat>)
    ensures r <= s
    decreases n
  {
    if n == 0 || s == {} then {} else {Min(s)} + Lowest(s - {Min(s)}, n - 1)
  }

  lemma {:induction false} LowestSize(s: set<nat>, n: nat)
    ensures |Lowest(s, n)| == if n <= |s| then n else |s|
    decreases n
  {
    if n != 0 && s != {} {
      LowestSize(s - {Min(s)}, n - 1);
    }
  }

  /** Taking one more: the smallest member that is left. */
  lemma {:induction false} LowestStep(s: set<nat>, n: nat, m: nat)
    requires IsMin(s - Lowest(s, n), m)
    ensures Lowest(s, n + 1) == Lowest(s, n) + {m}
    decreases n
  {
    var least := Min(s);
    var rest := s - {least};
    if n == 0 {
      assert s - Lowest(s, 0) == s;
      MinUnique(s, least, m);
      assert Lowest(rest, 0) == {};
    } else {
      assert s - Lowest(s, n) == rest - Lowest(rest, n - 1);
      LowestStep(rest, n - 1, m);
    }
  }

  lemma StillLeft(s: set<nat>, n: nat)
    requires s - Lowest(s, n) != {}
    ensures n < |s|
  {
    if |s| <= n {
      LowestSize(s, n);
      SubsetSameSize(Lowest(s, n), s);
    }
  }

  /** What is left after one more allocation. */
  lemma AllocStep(before: set<nat>, n: nat, left: set<nat>, m: nat)
    requires left == before - Lowest(before, n) && IsMin(left, m)
    ensures left - {m} == before - Lowest(before, n + 1) && n < |before|
  {
    LowestStep(before, n, m);
    StillLeft(before, n);
  }

  /** Once everything is taken nothing more is. */
  lemma LowestAll(s: set<nat>, n: nat, k: nat)
    requires s - Lowest(s, n) == {} && n <= k
    ensures Lowest(s, k) == s && |s| <= n
  {
    assert Lowest(s, n) == s;
    LowestSize(s, n);
    LowestSize(s, k);
    SubsetSameSize(Lowest(s, k), s);
  }

  /** The entries ndx, ndx + 1, ..., num of them. */
  function Run(ndx: nat, num: nat): (s: set<nat>)
    ensures forall i: nat {:trigger i in s} :: i in s <==> ndx <= i < ndx + num
  {
    if num == 0 then {} else Run(ndx, num - 1) + {ndx + num - 1}
  }

  /** How many of num entries from ndx on are freed in a list of length len: the index len still is. */
  function Accepted(len: nat, ndx: nat, num: nat): (n: nat)
    ensures n <= num && (ndx + num <= len ==> n == num) && (0 < n ==> ndx + n <= len + 1)
  {
    if ndx > len then 0 else if ndx + num <= len + 1 then num else len + 1 - ndx
  }

  lemma DifferenceSize<T>(a: set<T>, b: set<T>)
    requires b <= a
    ensures |a - b| == |a| - |b|
  {
    assert a == (a - b) + b;
  }

  // ----- allocation in groups of n entries

  /** k is the number of whole groups of n among len entries. */
  ghost predicate Groups(len: nat, n: nat, k: nat) {
    0 < n && Join(k, 0, n) <= len < Join(k, 0, n) + n
  }

  /** The entries of whole groups are free or reserved together, and the rest after them is free. */
  ghost predicate Grouped(len: nat, s: set<nat>, n: nat, k: nat) {
    && Groups(len, n, k) && s <= Upto(len)
    && (forall g: nat, b: nat {:trigger Join(g, b, n)} :: g < k && b < n ==>
          (Join(g, b, n) in s <==> Join(g, 0, n) in s))
    && (forall i: nat :: Join(k, 0, n) <= i < len ==> i in s)
  }

  lemma Split(i: nat, n: nat, k: nat) returns (g: nat, b: nat)
    requires 0 < n && i < Join(k, 0, n)
    ensures g < k && b < n && Join(g, b, n) == i
  {
    SplitBound(i, n, k);
    SplitJoin(i, n);
    g, b := i / n, i % n;
  }

  /** With n entries unreserved, some group is free. */
  lemma GroupIsFree(len: nat, s: set<nat>, n: nat, k: nat)
    requires Grouped(len, s, n, k) && |Upto(len) - s| + n <= len
    ensures exists g: nat :: g < k && Join(g, 0, n) in s
  {
    if forall g: nat :: g < k ==> Join(g, 0, n) !in s {
      forall i | i in Upto(Join(k, 0, n))
        ensures i in Upto(len) - s
      {
        var g, b := Split(i, n, k);
      }
      SubsetSize(Upto(Join(k, 0, n)), Upto(len) - s);
    }
  }

  /** The least free entry starts a group. */
  lemma LeastStartsGroup(len: nat, s: set<nat>, n: nat, k: nat) returns (g: nat)
    requires Grouped(len, s, n, k) && |Upto(len) - s| + n <= len
    ensures g < k && IsMin(s, Join(g, 0, n))
  {
    GroupIsFree(len, s, n, k);
    var some: nat :| some < k && Join(some, 0, n) in s;
    var m := Min(s);
    JoinBound(some, 0, n, k);
    var b;
    g, b := Split(m, n, k);
    assert Join(g, b, n) in s;
  }

  lemma {:induction false} LowestRun(s: set<nat>, m: nat, n: nat)
    requires IsMin(s, m) && Run(m, n) <= s
    ensures Lowest(s, n) == Run(m, n)
    decreases n
  {
    if n > 0 {
      MinUnique(s, m, Min(s));
      var rest := s - {m};
      assert Run(m, n) == {m} + Run(m + 1, n - 1);
      if n > 1 {
        assert m + 1 in Run(m, n);
        assert IsMin(rest, m + 1);
        LowestRun(rest, m + 1, n - 1);
      }
    }
  }

  lemma GroupRun(len: nat, s: set<nat>, n: nat, k: nat, g: nat)
    requires Grouped(len, s, n, k) && g < k && Join(g, 0, n) in s
    ensures Run(Join(g, 0, n), n) <= s
  {
    forall i | i in Run(Join(g, 0, n), n)
      ensures i in s
    {
      assert i == Join(g, i - Join(g, 0, n), n);
    }
  }

  /** An entry of a group lies in the group's run, and in no other. */
  lemma RunOfGroup(g: nat, h: nat, b: nat, n: nat)
    requires b < n
    ensures Join(h, b, n) in Run(Join(g, 0, n), n) <==> g == h
  {
    if g < h {
      MulMonotone(g + 1, h, n);
      Distribute(g, 1, n);
    } else if h < g {
      MulMonotone(h + 1, g, n);
      Distribute(h, 1, n);
    }
  }

  lemma RegroupKeeps(len: nat, s: set<nat>, s': set<nat>, n: nat, k: nat, g: nat)
    requires Grouped(len, s, n, k) && g < k
    requires s' == s - Run(Join(g, 0, n), n) || s' == s + Run(Join(g, 0, n), n)
    ensures Grouped(len, s', n, k)
  {
    JoinBound(g, n - 1, n, k);
    forall h: nat, b: nat | h < k && b < n
      ensures Join(h, b, n) in s' <==> Join(h, 0, n) in s'
    {
      RunOfGroup(g, h, b, n);
      RunOfGroup(g, h, 0, n);
      assert Join(h, b, n) in s <==> Join(h, 0, n) in s;
    }
  }

  /**
   Allocating n entries one by one takes a whole group: as long as n entries are unreserved, the n
   lowest free ones are a run that starts at a multiple of n, and the grouping is kept.
   */
  lemma StripedAlloc(len: nat, s: set<nat>, n: nat, k: nat) returns (g: nat)
    requires Grouped(len, s, n, k) && |Upto(len) - s| + n <= len
    ensures g < k && IsMin(s, Join(g, 0, n)) && n <= |s|
    ensures Lowest(s, n) == Run(Join(g, 0, n), n) <= s
    ensures Grouped(len, s - Lowest(s, n), n, k)
  {
    g := LeastStartsGroup(len, s, n, k);
    GroupRun(len, s, n, k, g);
    LowestRun(s, Join(g, 0, n), n);
    RegroupKeeps(len, s, s - Lowest(s, n), n, k, g);
    DifferenceSize(Upto(len), s);
  }

  /** Freeing a group undoes allocating it. */
  lemma StripedFree(len: nat, s: set<nat>, n: nat, k: nat, g: nat)
    requires Grouped(len, s, n, k) && g < k
    ensures Grouped(len, s + Run(Join(g, 0, n), n), n, k)
    ensures Run(Join(g, 0, n), n) <= s ==> s - Run(Join(g, 0, n), n) + Run(Join(g, 0, n), n) == s
  {
    RegroupKeeps(len, s, s + Run(Join(g, 0, n), n), n, k, g);
  }

  lemma AllFreeIsGrouped(len: nat, n: nat, k: nat)
    requires Groups(len, n, k)
    ensures Grouped(len, Upto(len), n, k)
  {
    forall g: nat, b: nat | g < k && b < n
      ensures Join(g, b, n) in Upto(len) && Join(g, 0, n) in Upto(len)
    {
      JoinBound(g, b, n, k);
      JoinBound(g, 0, n, k);
    }
  }
}
