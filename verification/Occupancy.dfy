/** What is allocated in the slabs of the pool at entry 0: refcounts, freelists and live objects. */
module Occupancy {
  import opened Arith
  import opened SetFacts
  import opened FreeSets
  import opened Geometry
  import opened SlabLists
  import opened SlabBook
  import opened FlistImage
  import opened SlabCache
  import Freelist

  /**
   The system: its geometry, blocks in an object, entries in a slab, n entries per allocation
   (fla_pool_num_fla_objs), and so k allocations in a slab.
   */
  datatype Config = Config(g: Geo, objNlb: nat, nobj: nat, n: nat, k: nat)

  /** Slabs hold objects, and the last one, too, starts at an entry below 2^31. */
  ghost predicate Numbered(c: Config) {
    0 < c.n <= c.nobj && Groups(c.nobj, c.n, c.k) && 0 < c.k && Join(c.k - 1, 0, c.n) < TWO_31
  }

  /** A layout that the code's 32-bit offsets and entry numbers can address. */
  ghost predicate Ok(c: Config) {
    && Sound(c.g) && OffsetsFit(c.g) && c.g.nslabs <= NULL
    && 0 < c.objNlb && IsMaxObjs(c.g.slabNlb, c.g.lb, c.objNlb, c.nobj)
    && Freelist.HasLen(c.nobj) && Numbered(c)
  }

  lemma OkHasRoom(c: Config)
    requires Ok(c)
    ensures HasRoom(c.g, c.nobj) && 0 < c.k
  {
    MulMonotone(0, c.nobj, c.objNlb);
  }

  lemma SlabFitsWord(c: Config)
    requires Ok(c)
    ensures c.g.slabNlb < TWO_32
  {
    MulMonotone(1, c.g.nslabs, c.g.slabNlb);
  }

  /** fla_pool_best_slab_list. */
  function Best(c: Config, refcount: nat): (k: Kind)
    ensures k.InPool()
  {
    if refcount == 0 then Empty else if refcount + c.n > c.nobj then Full else Partial
  }

  /** List, refcount and freelist of a slab agree. */
  ghost predicate SlabOk(c: Config, hd: Header, kind: Kind, list: Bitmap) {
    && (kind.Free? ==> hd.refcount == 0)
    && (kind.InPool() ==>
          && hd.pool == 0 && list.len == c.nobj && Grouped(c.nobj, list.free, c.n, c.k)
          && hd.refcount + |list.free| == c.nobj && kind == Best(c, hd.refcount))
  }

  /** The refcount is the number of reserved entries. */
  lemma RefcountIsReserved(c: Config, hd: Header, kind: Kind, list: Bitmap)
    requires SlabOk(c, hd, kind, list) && kind.InPool()
    ensures hd.refcount == |Upto(c.nobj) - list.free|
  {
    DifferenceSize(Upto(c.nobj), list.free);
  }

  lemma FormattedIsOk(c: Config, hd: Header)
    requires Ok(c) && hd.pool == 0 && hd.refcount == 0
    ensures forall list :: Untouched(list, c.nobj) ==> SlabOk(c, hd, Empty, list)
  {
    AllFreeIsGrouped(c.nobj, c.n, c.k);
  }

  /** A slab that is not full has the next n entries for one more object. */
  lemma AllocIsOk(c: Config, hd: Header, kind: Kind, list: Bitmap) returns (b: nat)
    requires Numbered(c) && SlabOk(c, hd, kind, list) && (kind == Empty || kind == Partial)
    ensures CanAlloc(list.free, c.n) && b < c.k && IsMin(list.free, Join(b, 0, c.n))
    ensures Lowest(list.free, c.n) == Run(Join(b, 0, c.n), c.n)
    ensures SlabOk(c, hd.(refcount := hd.refcount + c.n), Best(c, hd.refcount + c.n),
                   list.(free := list.free - Lowest(list.free, c.n)))
  {
    b := NextGroup(c, list.free);
    StillOk(c, hd.(refcount := hd.refcount + c.n), list.(free := list.free - Lowest(list.free, c.n)));
  }

  lemma NextGroup(c: Config, free: set<nat>) returns (b: nat)
    requires Numbered(c) && Grouped(c.nobj, free, c.n, c.k) && c.n <= |free|
    ensures CanAlloc(free, c.n) && b < c.k && IsMin(free, Join(b, 0, c.n))
    ensures Lowest(free, c.n) == Run(Join(b, 0, c.n), c.n)
    ensures Grouped(c.nobj, free - Lowest(free, c.n), c.n, c.k) && |free - Lowest(free, c.n)| == |free| - c.n
  {
    DifferenceSize(Upto(c.nobj), free);
    b := StripedAlloc(c.nobj, free, c.n, c.k);
    TakenSize(free, c.n);
    EntryIsInt(b, c.k, c.n, free);
  }

  /** The entry at which an object starts is returned as it is. */
  lemma EntryIsInt(b: nat, k: nat, n: nat, free: set<nat>)
    requires b < k && Join(k - 1, 0, n) < TWO_31 && IsMin(free, Join(b, 0, n)) && n <= |free|
    ensures CanAlloc(free, n)
  {
    MinUnique(free, Join(b, 0, n), Min(free));
    MulMonotone(b, k - 1, n);
  }

  /**
   If the last object of a slab starts at 2^31 or later, a slab in which only that object is left, or what follows
   it, is on the partial list and yet has none to give.
   */
  lemma LastObjectFails(c: Config) returns (hd: Header, list: Bitmap)
    requires Freelist.HasLen(c.nobj) && Groups(c.nobj, c.n, c.k) && 0 < c.k && TWO_31 <= Join(c.k - 1, 0, c.n)
    ensures SlabOk(c, hd, Partial, list) && !CanAlloc(list.free, c.n)
  {
    var free, first := LastFree(c.nobj, c.n, c.k);
    hd, list := Header(0, NULL, NULL, first), Bitmap(c.nobj, free, {});
    StillOk(c, hd, list);
  }

  lemma LastFree(len: nat, n: nat, k: nat) returns (s: set<nat>, first: nat)
    requires Groups(len, n, k) && 0 < k
    ensures first == Join(k - 1, 0, n) && first + n <= len && first + |s| == len
    ensures Grouped(len, s, n, k) && s != {} && Min(s) == first
  {
    first := Join(k - 1, 0, n);
    Distribute(k - 1, 1, n);
    s := Upto(len) - Upto(first);
    assert IsMin(s, first);
    MinUnique(s, first, Min(s));
    DifferenceSize(Upto(len), Upto(first));
    LastGroup(len, n, k);
  }

  lemma LastGroup(len: nat, n: nat, k: nat)
    requires Groups(len, n, k) && 0 < k
    ensures Grouped(len, Upto(len) - Upto(Join(k - 1, 0, n)), n, k)
  {
    var s := Upto(len) - Upto(Join(k - 1, 0, n));
    forall g: nat, b: nat | g < k && b < n
      ensures Join(g, b, n) in s <==> Join(g, 0, n) in s
    {
      JoinBound(g, b, n, k);
      if g < k - 1 {
        JoinBound(g, b, n, k - 1);
      }
    }
  }

  lemma StillOk(c: Config, hd: Header, list: Bitmap)
    requires hd.pool == 0 && list.len == c.nobj && Grouped(c.nobj, list.free, c.n, c.k) && hd.refcount + |list.free| == c.nobj
    ensures SlabOk(c, hd, Best(c, hd.refcount), list)
  {
  }

  lemma TakenSize(s: set<nat>, n: nat)
    requires n <= |s|
    ensures |s - Lowest(s, n)| == |s| - n
  {
    LowestSize(s, n);
    DifferenceSize(s, Lowest(s, n));
  }

  lemma RunSize(ndx: nat, num: nat)
    ensures |Run(ndx, num)| == num
  {
  }

  /** Freeing a live object gives its n entries back. */
  lemma FreeIsOk(c: Config, hd: Header, kind: Kind, list: Bitmap, b: nat)
    requires Ok(c) && SlabOk(c, hd, kind, list) && kind.InPool() && b < c.k && Join(b, 0, c.n) !in list.free
    ensures c.n <= hd.refcount && Join(b, 0, c.n) + c.n <= c.nobj
    ensures SlabOk(c, hd.(refcount := hd.refcount - c.n), Best(c, hd.refcount - c.n),
                   list.(free := list.free + Run(Join(b, 0, c.n), c.n)))
  {
    var run := Run(Join(b, 0, c.n), c.n);
    JoinBound(b, c.n - 1, c.n, c.k);
    GroupTaken(c.nobj, list.free, c.n, c.k, b);
    RunSize(Join(b, 0, c.n), c.n);
    StripedFree(c.nobj, list.free, c.n, c.k, b);
    UnionSize(list.free, run);
    SubsetSize(list.free + run, Upto(c.nobj));
  }

  lemma GroupTaken(len: nat, s: set<nat>, n: nat, k: nat, g: nat)
    requires Grouped(len, s, n, k) && g < k && Join(g, 0, n) !in s
    ensures Run(Join(g, 0, n), n) !! s && Run(Join(g, 0, n), n) <= Upto(len)
  {
    JoinBound(g, n - 1, n, k);
    forall i | i in Run(Join(g, 0, n), n)
      ensures i !in s && i < len
    {
      assert i == Join(g, i - Join(g, 0, n), n);
    }
  }

  /** A slab is on the full list exactly when every object it can hold is live. */
  lemma FullMeansAllTaken(c: Config, hd: Header, kind: Kind, list: Bitmap)
    requires Ok(c) && SlabOk(c, hd, kind, list) && kind.InPool()
    ensures kind == Full <==> forall b: nat :: b < c.k ==> Join(b, 0, c.n) !in list.free
  {
    if kind == Full {
      forall b: nat | b < c.k
        ensures Join(b, 0, c.n) !in list.free
      {
        if Join(b, 0, c.n) in list.free {
          GroupRun(c.nobj, list.free, c.n, c.k, b);
          RunSize(Join(b, 0, c.n), c.n);
          SubsetSize(Run(Join(b, 0, c.n), c.n), list.free);
        }
      }
    } else {
      RefcountIsReserved(c, hd, kind, list);
      GroupIsFree(c.nobj, list.free, c.n, c.k);
    }
  }

  // ----- live objects

  datatype Object = Object(slab: nat, entry: nat)

  /** e is the first entry of one of the first m groups. */
  ghost predicate Starts(n: nat, m: nat, e: nat) {
    exists b: nat :: b < m && IsStart(n, b, e)
  }

  ghost predicate IsStart(n: nat, b: nat, e: nat) {
    e == Join(b, 0, n)
  }

  lemma GroupStarts(n: nat, m: nat, b: nat)
    requires b < m
    ensures Starts(n, m, Join(b, 0, n))
  {
    assert IsStart(n, b, Join(b, 0, n));
  }

  lemma StartsStep(n: nat, m: nat, e: nat)
    requires 0 < n
    ensures Starts(n, m + 1, e) <==> Starts(n, m, e) || e == Join(m, 0, n)
    ensures Starts(n, m, e) ==> e != Join(m, 0, n)
  {
    if Starts(n, m, e) {
      var b: nat :| b < m && IsStart(n, b, e);
      JoinSplit(b, 0, n);
      JoinSplit(m, 0, n);
    }
    if e == Join(m, 0, n) {
      GroupStarts(n, m + 1, m);
    }
  }

  lemma StartsNext(n: nat, m: nat)
    requires 0 < n
    ensures forall e: nat :: Starts(n, m + 1, e) <==> Starts(n, m, e) || e == Join(m, 0, n)
    ensures !Starts(n, m, Join(m, 0, n))
  {
    forall e: nat
      ensures Starts(n, m + 1, e) <==> Starts(n, m, e) || e == Join(m, 0, n)
    {
      StartsStep(n, m, e);
    }
    StartsStep(n, m, Join(m, 0, n));
  }

  /** The first m objects of a slab. */
  function InSlab(n: nat, slab: nat, m: nat): set<Object> {
    if m == 0 then {} else InSlab(n, slab, m - 1) + {Object(slab, Join(m - 1, 0, n))}
  }

  lemma {:induction false} InSlabHolds(n: nat, slab: nat, m: nat)
    requires 0 < n
    ensures |InSlab(n, slab, m)| == m
    ensures forall o {:trigger o in InSlab(n, slab, m)} :: o in InSlab(n, slab, m) <==> o.slab == slab && Starts(n, m, o.entry)
  {
    if m > 0 {
      InSlabHolds(n, slab, m - 1);
      StartsNext(n, m - 1);
    }
  }

  /** Every object that ns slabs can hold. */
  function Objects(n: nat, k: nat, ns: nat): set<Object> {
    if ns == 0 then {} else Objects(n, k, ns - 1) + InSlab(n, ns - 1, k)
  }

  lemma {:induction false} ObjectsHold(n: nat, k: nat, ns: nat)
    requires 0 < n
    ensures |Objects(n, k, ns)| == ns * k
    ensures forall o {:trigger o in Objects(n, k, ns)} :: o in Objects(n, k, ns) <==> o.slab < ns && Starts(n, k, o.entry)
  {
    if ns > 0 {
      ObjectsHold(n, k, ns - 1);
      OneSlabMore(n, k, ns - 1);
      OneMore(ns - 1, k, |Objects(n, k, ns - 1)|, |Objects(n, k, ns)|);
    }
  }

  lemma OneSlabMore(n: nat, k: nat, ns: nat)
    requires 0 < n
    requires forall o {:trigger o in Objects(n, k, ns)} :: o in Objects(n, k, ns) <==> o.slab < ns && Starts(n, k, o.entry)
    ensures |Objects(n, k, ns + 1)| == |Objects(n, k, ns)| + k
    ensures forall o {:trigger o in Objects(n, k, ns + 1)} :: o in Objects(n, k, ns + 1) <==> o.slab < ns + 1 && Starts(n, k, o.entry)
  {
    InSlabHolds(n, ns, k);
    UnionSize(Objects(n, k, ns), InSlab(n, ns, k));
  }

  lemma OneMore(m: nat, k: nat, a: nat, b: nat)
    requires a == m * k && b == a + k
    ensures b == (m + 1) * k
  {
  }

  lemma UnionSize<T>(a: set<T>, b: set<T>)
    requires a !! b
    ensures |a + b| == |a| + |b|
  {
  }

  function All(c: Config): (r: set<Object>)
    requires 0 < c.n
    ensures forall o {:trigger o in r} :: o in r <==> o.slab < c.g.nslabs && Starts(c.n, c.k, o.entry)
    ensures |r| == c.g.nslabs * c.k
  {
    ObjectsHold(c.n, c.k, c.g.nslabs);
    Objects(c.n, c.k, c.g.nslabs)
  }

  /** The objects whose entries are reserved in a slab the pool owns. */
  ghost function Live(c: Config, kind: seq<Kind>, lists: seq<Bitmap>): set<Object>
    requires |kind| == |lists| == c.g.nslabs && 0 < c.n
  {
    set o | o in All(c) && kind[o.slab].InPool() && o.entry !in lists[o.slab].free
  }

  lemma ObjectOfGroup(c: Config, x: nat, b: nat)
    requires x < c.g.nslabs && b < c.k && 0 < c.n
    ensures Object(x, Join(b, 0, c.n)) in All(c)
  {
    GroupStarts(c.n, c.k, b);
  }

  lemma GroupOfObject(c: Config, o: Object) returns (b: nat)
    requires 0 < c.n && o in All(c)
    ensures o.slab < c.g.nslabs && b < c.k && o.entry == Join(b, 0, c.n)
  {
    b :| b < c.k && IsStart(c.n, b, o.entry);
  }

  /** Every object of slab x is live, or none is. */
  ghost predicate AllLive(c: Config, live: set<Object>, x: nat) {
    forall b: nat {:trigger GroupLive(c, live, x, b)} :: b < c.k ==> GroupLive(c, live, x, b)
  }

  ghost predicate GroupLive(c: Config, live: set<Object>, x: nat, b: nat) {
    Object(x, Join(b, 0, c.n)) in live
  }

  ghost predicate NoneLive(live: set<Object>, x: nat) {
    forall o {:trigger o in live} :: o in live ==> o.slab != x
  }

  /** o is the first object of its slab that is not live. */
  ghost predicate IsFirst(c: Config, live: set<Object>, o: Object)
    requires 0 < c.n
  {
    o in All(c) && o !in live && forall p {:trigger p in live} :: p in All(c) && p.slab == o.slab && p.entry < o.entry ==> p in live
  }

  lemma NotAllLive(c: Config, live: set<Object>, o: Object)
    requires 0 < c.n && o in All(c) && o !in live
    ensures !AllLive(c, live, o.slab)
  {
    var b := GroupOfObject(c, o);
    assert !GroupLive(c, live, o.slab, b);
  }

  lemma LeastIsFirst(c: Config, kind: seq<Kind>, lists: seq<Bitmap>, x: nat, entry: nat)
    requires |kind| == |lists| == c.g.nslabs && 0 < c.n && x < |kind| && kind[x].InPool()
    requires Object(x, entry) in All(c) && IsMin(lists[x].free, entry)
    ensures IsFirst(c, Live(c, kind, lists), Object(x, entry))
  {
  }

  /** The list of a slab in the pool tells how many of its objects are live. */
  lemma KindTells(c: Config, hd: Header, kind: seq<Kind>, lists: seq<Bitmap>, x: nat)
    requires Ok(c) && |kind| == |lists| == c.g.nslabs && x < |kind| && kind[x].InPool() && SlabOk(c, hd, kind[x], lists[x])
    ensures kind[x] == Full <==> AllLive(c, Live(c, kind, lists), x)
    ensures kind[x] == Empty <==> NoneLive(Live(c, kind, lists), x)
  {
    var live := Live(c, kind, lists);
    FullMeansAllTaken(c, hd, kind[x], lists[x]);
    forall b: nat | b < c.k
      ensures GroupLive(c, live, x, b) <==> Join(b, 0, c.n) !in lists[x].free
    {
      ObjectOfGroup(c, x, b);
    }
    if kind[x] == Empty {
      forall o | o in live
        ensures o.slab != x
      {
        if o.slab == x {
          var b := GroupOfObject(c, o);
          FreeIsOk(c, hd, kind[x], lists[x], b);
        }
      }
    } else {
      var o := InUse(c, hd, kind[x], lists[x], x);
      assert o in live;
    }
  }

  /** Of the objects of a slab only that of group b has entries in the group's run. */
  lemma OthersOutside(c: Config, o: Object, b: nat)
    requires 0 < c.n && o in All(c) && b < c.k
    ensures o.entry in Run(Join(b, 0, c.n), c.n) <==> o.entry == Join(b, 0, c.n)
  {
    var d := GroupOfObject(c, o);
    RunOfGroup(b, d, 0, c.n);
  }

  /** Reserving or freeing the entries of group b changes the liveness of one object. */
  lemma LiveChanges(c: Config, kind: seq<Kind>, lists: seq<Bitmap>, x: nat, to: Kind, list: Bitmap, b: nat)
    requires |kind| == |lists| == c.g.nslabs && x < |kind| && kind[x].InPool() && to.InPool() && b < c.k && 0 < c.n
    requires var run := Run(Join(b, 0, c.n), c.n); list.free == lists[x].free - run || list.free == lists[x].free + run
    ensures Object(x, Join(b, 0, c.n)) in All(c)
    ensures var o := Object(x, Join(b, 0, c.n));
      Live(c, kind[x := to], lists[x := list]) ==
      if o.entry in list.free then Live(c, kind, lists) - {o} else Live(c, kind, lists) + {o}
  {
    ObjectOfGroup(c, x, b);
    forall o | o in All(c)
      ensures o.entry in Run(Join(b, 0, c.n), c.n) <==> o.entry == Join(b, 0, c.n)
    {
      OthersOutside(c, o, b);
    }
  }

  /** Handing an unused slab to the pool, or back, makes nothing live. */
  lemma LiveSame(c: Config, kind: seq<Kind>, lists: seq<Bitmap>, x: nat, to: Kind, list: Bitmap)
    requires Ok(c) && |kind| == |lists| == c.g.nslabs && x < |kind|
    requires kind[x].InPool() ==> lists[x].free == Upto(c.nobj)
    requires to.InPool() ==> list.free == Upto(c.nobj)
    ensures Live(c, kind[x := to], lists[x := list]) == Live(c, kind, lists)
  {
    forall o | o in All(c)
      ensures o.entry in Upto(c.nobj)
    {
      var b := GroupOfObject(c, o);
      JoinBound(b, 0, c.n, c.k);
    }
  }

  /** All slabs are full exactly when as many objects are live as the device can hold. */
  lemma FullMeansExhausted(c: Config, h: seq<Header>, kind: seq<Kind>, lists: seq<Bitmap>)
    requires Ok(c) && |h| == |kind| == |lists| == c.g.nslabs
    requires forall x :: 0 <= x < |kind| ==> kind[x] != Loose && SlabOk(c, h[x], kind[x], lists[x])
    ensures (forall x :: 0 <= x < |kind| ==> kind[x] == Full) <==> |Live(c, kind, lists)| == c.g.nslabs * c.k
  {
    var live := Live(c, kind, lists);
    if forall x :: 0 <= x < |kind| ==> kind[x] == Full {
      forall o | o in All(c)
        ensures o in live
      {
        AllTaken(c, h[o.slab], lists[o.slab], o);
      }
      assert live == All(c);
    } else {
      var x :| 0 <= x < |kind| && kind[x] != Full;
      var o := NotLive(c, h[x], kind[x], lists[x], x);
      SubsetSize(live, All(c) - {o});
    }
  }

  /** A slab on the partial or full list holds a live object. */
  lemma InUse(c: Config, hd: Header, kind: Kind, list: Bitmap, x: nat) returns (o: Object)
    requires Ok(c) && x < c.g.nslabs && SlabOk(c, hd, kind, list) && (kind == Partial || kind == Full)
    ensures o in All(c) && o.slab == x && o.entry !in list.free
  {
    if Upto(c.nobj) <= list.free {
      SubsetSize(Upto(c.nobj), list.free);
    }
    var i :| i in Upto(c.nobj) && i !in list.free;
    var b, r := Split(i, c.n, c.k);
    ObjectOfGroup(c, x, b);
    o := Object(x, Join(b, 0, c.n));
  }

  lemma AllTaken(c: Config, hd: Header, list: Bitmap, o: Object)
    requires Ok(c) && SlabOk(c, hd, Full, list) && o in All(c)
    ensures o.entry !in list.free
  {
    FullMeansAllTaken(c, hd, Full, list);
    var b := GroupOfObject(c, o);
  }

  lemma FreeGroup(c: Config, list: Bitmap) returns (b: nat)
    requires !(forall b: nat :: b < c.k ==> Join(b, 0, c.n) !in list.free)
    ensures b < c.k && Join(b, 0, c.n) in list.free
  {
    b :| b < c.k && Join(b, 0, c.n) in list.free;
  }

  lemma NotLive(c: Config, hd: Header, kind: Kind, list: Bitmap, x: nat) returns (o: Object)
    requires Ok(c) && x < c.g.nslabs && SlabOk(c, hd, kind, list) && kind != Full
    ensures o in All(c) && o.slab == x && (!kind.InPool() || o.entry in list.free)
  {
    OkHasRoom(c);
    var b := 0;
    if kind.InPool() {
      FullMeansAllTaken(c, hd, kind, list);
      b := FreeGroup(c, list);
    }
    ObjectOfGroup(c, x, b);
    o := Object(x, Join(b, 0, c.n));
  }
}
