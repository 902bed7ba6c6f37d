/**
 What the steps of the allocator do to the headers, freelists and live objects of the slabs: the part of
 its invariant that is about one slab at a time, on values.
 */
module SlabSteps {
  import opened Arith
  import opened SetFacts
  import opened FreeSets
  import opened Geometry
  import opened SlabLists
  import opened SlabBook
  import opened FlistImage
  import opened SlabCache
  import opened Occupancy
  import opened ObjectData

  // ----- the per-slab part of the invariant, on values

  ghost predicate AtSlab(c: Config, h: seq<Header>, kind: seq<Kind>, elems: seq<Elem>, views: seq<Bitmap>, x: nat)
    requires |h| == |kind| == |elems| == |views| && x < |h|
  {
    SlabOk(c, h[x], kind[x], views[x]) && (kind[x].Free? ==> elems[x].Stale?)
  }

  ghost predicate PerSlab(c: Config, h: seq<Header>, kind: seq<Kind>, elems: seq<Elem>, views: seq<Bitmap>) {
    && |h| == |kind| == |elems| == |views|
    && forall x {:trigger AtSlab(c, h, kind, elems, views, x)} :: 0 <= x < |h| ==> AtSlab(c, h, kind, elems, views, x)
  }

  /** Only links differ. */
  ghost predicate SameCounts(h: seq<Header>, h': seq<Header>) {
    |h'| == |h| && forall x {:trigger h'[x]} :: 0 <= x < |h| ==> h'[x].refcount == h[x].refcount && h'[x].pool == h[x].pool
  }

  lemma RelinkKeeps(c: Config, h: seq<Header>, h': seq<Header>, kind: seq<Kind>, elems: seq<Elem>, views: seq<Bitmap>)
    requires PerSlab(c, h, kind, elems, views) && SameCounts(h, h')
    ensures PerSlab(c, h', kind, elems, views)
  {
    forall x | 0 <= x < |h|
      ensures AtSlab(c, h', kind, elems, views, x)
    {
      assert AtSlab(c, h, kind, elems, views, x);
    }
  }

  lemma OneSlab(c: Config, h: seq<Header>, kind: seq<Kind>, elems: seq<Elem>, views: seq<Bitmap>,
                x: nat, hd: Header, k: Kind, e: Elem, v: Bitmap)
    requires PerSlab(c, h, kind, elems, views) && x < |h| && SlabOk(c, hd, k, v) && (k.Free? ==> e.Stale?)
    ensures PerSlab(c, h[x := hd], kind[x := k], elems[x := e], views[x := v])
  {
    var h', kind', elems', views' := h[x := hd], kind[x := k], elems[x := e], views[x := v];
    forall y | 0 <= y < |h'|
      ensures AtSlab(c, h', kind', elems', views', y)
    {
      assert AtSlab(c, h, kind, elems, views, y);
    }
  }

  ghost predicate NoLoose(kind: seq<Kind>) {
    forall x {:trigger kind[x]} :: 0 <= x < |kind| ==> kind[x] != Loose
  }

  lemma UniqueCount(g: Geo, objNlb: nat, a: nat, b: nat)
    requires 0 < g.lb && IsMaxObjs(g.slabNlb, g.lb, objNlb, a)
    requires b > 0 ==> Fits(g.slabNlb, objNlb, b, FlistNlb(b, g.lb))
    requires forall m: nat :: m > b ==> !Fits(g.slabNlb, objNlb, m, FlistNlb(m, g.lb))
    ensures a == b
  {
  }

  lemma FreshlyThreaded(b: Book, lists: Lists, kind: seq<Kind>)
    requires Queue(b.h, b.fhead, b.ftail, InOrder(|b.h|)) && b.pool == PoolHeads(NULL, NULL, NULL)
    requires lists == Lists(InOrder(|b.h|), [], [], []) && kind == seq(|b.h|, _ => Free)
    ensures Threaded(b, lists, kind)
  {
    forall k: Kind, x: nat | !k.Loose?
      ensures x in lists.Of(k) <==> x < |kind| && kind[x] == k
    {
      if k == Free && x < |b.h| {
        assert InOrder(|b.h|)[x] == x;
      }
    }
  }

  /** Objects are live exactly if a slab is on the partial or the full list. */
  lemma UseIsListed(c: Config, b: Book, lists: Lists, kind: seq<Kind>, elems: seq<Elem>, views: seq<Bitmap>)
    requires Ok(c) && |b.h| == c.g.nslabs && Threaded(b, lists, kind) && PerSlab(c, b.h, kind, elems, views)
    ensures Live(c, kind, views) == {} <==> lists.partial == [] && lists.full == []
  {
    if lists.partial != [] {
      var o := LiveOnList(c, b, lists, kind, elems, views, Partial);
    } else if lists.full != [] {
      var o := LiveOnList(c, b, lists, kind, elems, views, Full);
    } else if Live(c, kind, views) != {} {
      var o :| o in Live(c, kind, views);
      ListOfLive(c, b, lists, kind, elems, views, o);
    }
  }

  lemma ListOfLive(c: Config, b: Book, lists: Lists, kind: seq<Kind>, elems: seq<Elem>, views: seq<Bitmap>, o: Object)
    requires Ok(c) && |b.h| == c.g.nslabs && Threaded(b, lists, kind) && PerSlab(c, b.h, kind, elems, views)
    requires o in Live(c, kind, views)
    ensures o.slab in lists.partial || o.slab in lists.full
  {
    var x := o.slab;
    assert AtSlab(c, b.h, kind, elems, views, x);
    UsedIsListed(c, b.h[x], kind[x], views[x], o);
    assert Sorted(lists, kind, kind[x]);
    assert x in lists.Of(kind[x]);
  }

  lemma UsedIsListed(c: Config, hd: Header, kind: Kind, list: Bitmap, o: Object)
    requires Ok(c) && SlabOk(c, hd, kind, list) && kind.InPool() && o in All(c) && o.entry !in list.free
    ensures kind == Partial || kind == Full
  {
    FreeInOne(c, hd, kind, list, o);
  }

  lemma LiveOnList(c: Config, b: Book, lists: Lists, kind: seq<Kind>, elems: seq<Elem>, views: seq<Bitmap>, k: Kind)
    returns (o: Object)
    requires Ok(c) && |b.h| == c.g.nslabs && Threaded(b, lists, kind) && PerSlab(c, b.h, kind, elems, views)
    requires (k == Partial || k == Full) && lists.Of(k) != []
    ensures o in Live(c, kind, views)
  {
    HeadOf(b, lists, kind, k);
    var x := lists.Of(k)[0];
    assert AtSlab(c, b.h, kind, elems, views, x);
    o := InUse(c, b.h[x], kind[x], views[x], x);
  }

  lemma AllFree(c: Config, b: Book, lists: Lists, kind: seq<Kind>, views: seq<Bitmap>)
    requires Ok(c) && |b.h| == |views| == c.g.nslabs && Threaded(b, lists, kind) && NoLoose(kind)
    requires lists.empty == [] && lists.partial == [] && lists.full == []
    ensures |lists.free| == c.g.nslabs && Live(c, kind, views) == {} && forall x :: 0 <= x < |kind| ==> kind[x] == Free
  {
    forall x: nat | x < |kind|
      ensures kind[x] == Free && x in lists.Of(Free)
    {
      assert Sorted(lists, kind, kind[x]);
      assert x in lists.Of(kind[x]);
    }
    assert lists.Of(Free) == lists.free;
    assert Sorted(lists, kind, Free);
    ElementCount(lists.free);
    assert Elements(lists.free) == Upto(c.g.nslabs) by {
      forall x | x in lists.free
        ensures x < c.g.nslabs
      {
        assert x in lists.Of(Free);
      }
    }
  }

  /** With no slab in the pool nothing is cached. */
  lemma NothingCached(c: Config, b: Book, lists: Lists, kind: seq<Kind>, elems: seq<Elem>, views: seq<Bitmap>)
    requires Threaded(b, lists, kind) && PerSlab(c, b.h, kind, elems, views) && NoLoose(kind)
    requires lists.empty == [] && lists.partial == [] && lists.full == []
    ensures forall x :: 0 <= x < |elems| ==> elems[x].Stale?
  {
    forall x: nat | x < |elems|
      ensures elems[x].Stale?
    {
      assert Sorted(lists, kind, kind[x]);
      assert x in lists.Of(kind[x]);
      assert AtSlab(c, b.h, kind, elems, views, x);
    }
  }

  lemma UniformLists(c: Config, h: seq<Header>, kind: seq<Kind>, elems: seq<Elem>, disk: seq<Block>)
    requires Ok(c) && HasRoom(c.g, c.nobj) && |elems| == c.g.nslabs && |disk| == c.g.nlb && NoLoose(kind)
    requires PerSlab(c, h, kind, elems, Views(c.g, disk, elems, c.nobj))
    ensures Uniform(c, elems)
  {
    forall x | 0 <= x < |elems| && !elems[x].Stale?
      ensures elems[x].list.len == c.nobj
    {
      assert AtSlab(c, h, kind, elems, Views(c.g, disk, elems, c.nobj), x);
      assert kind[x] != Loose;
    }
  }

  /** Elements that are stale for the same slabs and give the same lists serve as well. */
  lemma SameViewsKeep(c: Config, h: seq<Header>, kind: seq<Kind>, elems: seq<Elem>, elems': seq<Elem>, views: seq<Bitmap>)
    requires PerSlab(c, h, kind, elems, views) && |elems'| == |elems|
    requires forall x {:trigger elems'[x]} :: 0 <= x < |elems| && elems[x].Stale? ==> elems'[x].Stale?
    ensures PerSlab(c, h, kind, elems', views)
  {
    forall x | 0 <= x < |h|
      ensures AtSlab(c, h, kind, elems', views, x)
    {
      assert AtSlab(c, h, kind, elems, views, x);
    }
  }

  lemma SyncKeeps(c: Config, h: seq<Header>, kind: seq<Kind>, disk: seq<Block>, elems: seq<Elem>, disk': seq<Block>, elems': seq<Elem>)
    requires Ok(c) && HasRoom(c.g, c.nobj) && |elems| == |elems'| == c.g.nslabs && |disk| == |disk'| == c.g.nlb
    requires PerSlab(c, h, kind, elems, Views(c.g, disk, elems, c.nobj))
    requires forall x :: 0 <= x < |elems| ==> elems'[x] == if elems[x].Dirty? then Clean(elems[x].list) else elems[x]
    requires forall x :: 0 <= x < |elems| && elems[x].Stale? ==> SameList(c.g, disk, disk', x)
    ensures Views(c.g, disk', elems', c.nobj) == Views(c.g, disk, elems, c.nobj)
    ensures PerSlab(c, h, kind, elems', Views(c.g, disk', elems', c.nobj))
  {
    ViewsSame(c.g, disk, disk', elems, elems', c.nobj);
    SameViewsKeep(c, h, kind, elems, elems', Views(c.g, disk, elems, c.nobj));
  }

  lemma ReopenKeeps(c: Config, h: seq<Header>, kind: seq<Kind>, disk: seq<Block>, elems: seq<Elem>)
    requires Ok(c) && HasRoom(c.g, c.nobj) && |elems| == c.g.nslabs && |disk| == c.g.nlb && Uniform(c, elems)
    requires PerSlab(c, h, kind, elems, Views(c.g, disk, elems, c.nobj))
    requires forall x :: 0 <= x < |elems| ==> !elems[x].Dirty? && Coherent(c.g, disk, x, elems[x])
    ensures var stale := seq(c.g.nslabs, _ => Stale);
      && Views(c.g, disk, stale, c.nobj) == Views(c.g, disk, elems, c.nobj)
      && PerSlab(c, h, kind, stale, Views(c.g, disk, stale, c.nobj))
  {
    var stale := seq(c.g.nslabs, _ => Stale);
    ViewsSame(c.g, disk, disk, elems, stale, c.nobj);
    SameViewsKeep(c, h, kind, elems, stale, Views(c.g, disk, elems, c.nobj));
  }

  ghost predicate AllLoose(kind: seq<Kind>, rest: seq<nat>) {
    forall x: nat {:trigger x in rest} :: x in rest <==> x < |kind| && kind[x] == Loose
  }

  ghost predicate Unreferenced(h: seq<Header>, rest: seq<nat>) {
    forall x: nat {:trigger x in rest} :: x in rest ==> x < |h| && h[x].refcount == 0
  }

  lemma EndOfChain(h: seq<Header>, rest: seq<nat>)
    requires Chained(h, First(rest), rest)
    ensures First(rest) == NULL <==> rest == []
  {
  }

  lemma NextOfChain(lists: Lists, free: seq<nat>, all: seq<nat>, left: nat)
    requires 0 < left <= |all|
    ensures var rest := all[|all| - left..];
      && rest[1..] == all[|all| - (left - 1)..]
      && lists.With(Free, free + all[..|all| - left]).With(Free, free + all[..|all| - left] + [rest[0]])
           == lists.With(Free, free + all[..|all| - (left - 1)])
  {
    var rest := all[|all| - left..];
    assert all[..|all| - left] + [rest[0]] == all[..|all| - (left - 1)];
    assert free + all[..|all| - left] + [rest[0]] == free + (all[..|all| - left] + [rest[0]]);
  }

  lemma NoneLeft(kind: seq<Kind>)
    ensures AllLoose(kind, []) ==> NoLoose(kind)
  {
    if AllLoose(kind, []) {
      var none: seq<nat> := [];
      forall x | 0 <= x < |kind|
        ensures kind[x] != Loose
      {
        assert x !in none;
      }
    }
  }

  lemma FirstLoose(h: seq<Header>, kind: seq<Kind>, rest: seq<nat>)
    requires rest != [] && AllLoose(kind, rest) && Unreferenced(h, rest)
    ensures First(rest) == rest[0] < |h| && rest[0] < |kind| && kind[rest[0]] == Loose && h[rest[0]].refcount == 0
  {
    assert rest[0] in rest;
  }

  lemma RestLoose(h: seq<Header>, h': seq<Header>, kind: seq<Kind>, rest: seq<nat>)
    requires rest != [] && Distinct(rest) && AllLoose(kind, rest) && Unreferenced(h, rest) && SameCounts(h, h')
    ensures rest[0] < |kind| && AllLoose(kind[rest[0] := Free], rest[1..]) && Unreferenced(h', rest[1..])
  {
    FirstLoose(h, kind, rest);
    DistinctTail(rest);
    assert forall x: nat :: x in rest <==> x == rest[0] || x in rest[1..];
  }

  /** Giving up a list, for the slabs one by one. */
  lemma EmptyIsUnreferenced(c: Config, h: seq<Header>, kind: seq<Kind>, elems: seq<Elem>, views: seq<Bitmap>, lists: Lists, k: Kind)
    requires PerSlab(c, h, kind, elems, views) && Sorted(lists, kind, k) && NoLoose(kind)
    requires k.InPool() && (k == Empty || lists.Of(k) == [])
    ensures Unreferenced(h, lists.Of(k)) && AllLoose(Loosened(kind, k), lists.Of(k))
    ensures PerSlab(c, h, Loosened(kind, k), elems, views)
  {
    forall x | 0 <= x < |h|
      ensures AtSlab(c, h, Loosened(kind, k), elems, views, x)
      ensures kind[x] == Empty ==> h[x].refcount == 0
    {
      assert AtSlab(c, h, kind, elems, views, x);
    }
    var kind' := Loosened(kind, k);
    forall x: nat | x < |kind|
      ensures kind'[x] == Loose <==> kind[x] == k
    {
    }
  }

  lemma FreedSlab(c: Config, h: seq<Header>, h': seq<Header>, kind: seq<Kind>, elems: seq<Elem>, views: seq<Bitmap>, x: nat, v: Bitmap)
    requires PerSlab(c, h, kind, elems, views) && SameCounts(h, h') && x < |h| && h[x].refcount == 0
    ensures PerSlab(c, h', kind[x := Free], elems[x := Stale], views[x := v])
  {
    RelinkKeeps(c, h, h', kind, elems, views);
    OneSlab(c, h', kind, elems, views, x, h'[x], Free, Stale, v);
    assert h'[x := h'[x]] == h';
  }

  /** Freeing a live object keeps every slab consistent. */
  lemma FreeKeeps(c: Config, h: seq<Header>, kind: seq<Kind>, elems: seq<Elem>, views: seq<Bitmap>, o: Object)
    returns (hd: Header, list: Bitmap)
    requires Ok(c) && |h| == c.g.nslabs && PerSlab(c, h, kind, elems, views) && o in Live(c, kind, views)
    ensures c.n <= h[o.slab].refcount && views[o.slab].len == c.nobj && o.entry + c.n <= c.nobj
    ensures hd == h[o.slab].(refcount := h[o.slab].refcount - c.n)
    ensures list == views[o.slab].(free := views[o.slab].free + Run(o.entry, c.n))
    ensures var x := o.slab; PerSlab(c, h[x := hd], kind[x := Best(c, hd.refcount)], elems[x := Dirty(list)], views[x := list])
  {
    var x := o.slab;
    assert AtSlab(c, h, kind, elems, views, x);
    FreeInOne(c, h[x], kind[x], views[x], o);
    hd := h[x].(refcount := h[x].refcount - c.n);
    list := views[x].(free := views[x].free + Run(o.entry, c.n));
    OneSlab(c, h, kind, elems, views, x, hd, Best(c, hd.refcount), Dirty(list), list);
  }

  lemma FreeInOne(c: Config, hd: Header, kind: Kind, list: Bitmap, o: Object)
    requires Ok(c) && SlabOk(c, hd, kind, list) && kind.InPool() && o in All(c) && o.entry !in list.free
    ensures c.n <= hd.refcount && o.entry + c.n <= c.nobj
    ensures SlabOk(c, hd.(refcount := hd.refcount - c.n), Best(c, hd.refcount - c.n), list.(free := list.free + Run(o.entry, c.n)))
  {
    var b := GroupOfObject(c, o);
    FreeIsOk(c, hd, kind, list, b);
  }

  lemma FreeMakesDead(c: Config, h: seq<Header>, kind: seq<Kind>, elems: seq<Elem>, views: seq<Bitmap>, o: Object, to: Kind)
    requires Ok(c) && |h| == c.g.nslabs && PerSlab(c, h, kind, elems, views) && o in Live(c, kind, views) && to.InPool()
    ensures var list := views[o.slab].(free := views[o.slab].free + Run(o.entry, c.n));
      Live(c, kind[o.slab := to], views[o.slab := list]) == Live(c, kind, views) - {o}
  {
    var b := GroupOfObject(c, o);
    RunOfGroup(b, b, 0, c.n);
    LiveChanges(c, kind, views, o.slab, to, views[o.slab].(free := views[o.slab].free + Run(o.entry, c.n)), b);
  }

  lemma FreeIsStale(c: Config, h: seq<Header>, kind: seq<Kind>, elems: seq<Elem>, views: seq<Bitmap>, x: nat)
    requires PerSlab(c, h, kind, elems, views) && x < |h| && kind[x].Free?
    ensures elems[x].Stale?
  {
    assert AtSlab(c, h, kind, elems, views, x);
  }

  lemma BestIsKind(c: Config, h: seq<Header>, kind: seq<Kind>, elems: seq<Elem>, views: seq<Bitmap>, x: nat)
    requires PerSlab(c, h, kind, elems, views) && x < |h| && kind[x].InPool()
    ensures kind[x] == Best(c, h[x].refcount)
  {
    assert AtSlab(c, h, kind, elems, views, x);
  }

  /** No list offers a slab exactly when every object is live. */
  lemma Exhaustion(c: Config, b: Book, lists: Lists, kind: seq<Kind>, elems: seq<Elem>, views: seq<Bitmap>)
    requires Ok(c) && |b.h| == c.g.nslabs && Threaded(b, lists, kind) && PerSlab(c, b.h, kind, elems, views) && NoLoose(kind)
    ensures lists.free == [] && lists.empty == [] && lists.partial == [] <==> |Live(c, kind, views)| == c.g.nslabs * c.k
  {
    forall x | 0 <= x < |kind|
      ensures kind[x] != Loose && SlabOk(c, b.h[x], kind[x], views[x])
    {
      assert AtSlab(c, b.h, kind, elems, views, x);
    }
    FullMeansExhausted(c, b.h, kind, views);
    OnlyFull(b, lists, kind);
  }

  lemma OnlyFull(b: Book, lists: Lists, kind: seq<Kind>)
    requires Threaded(b, lists, kind) && NoLoose(kind)
    ensures lists.free == [] && lists.empty == [] && lists.partial == [] <==> forall x :: 0 <= x < |kind| ==> kind[x] == Full
  {
    forall k: Kind | !k.Loose?
      ensures lists.Of(k) == [] <==> forall x :: 0 <= x < |kind| ==> kind[x] != k
    {
      assert Sorted(lists, kind, k);
      if lists.Of(k) != [] {
        assert lists.Of(k)[0] in lists.Of(k);
      } else {
        forall x | 0 <= x < |kind|
          ensures kind[x] != k
        {
          assert x !in lists.Of(k);
        }
      }
    }
    assert lists.Of(Free) == lists.free && lists.Of(Empty) == lists.empty && lists.Of(Partial) == lists.partial;
  }

  /** The list of an owned slab has the length that loading expects. */
  lemma LoadableSlab(c: Config, h: seq<Header>, kind: seq<Kind>, elems: seq<Elem>, views: seq<Bitmap>, x: nat)
    requires PerSlab(c, h, kind, elems, views) && x < |h| && kind[x].InPool()
    ensures views[x].len == c.nobj
  {
    assert AtSlab(c, h, kind, elems, views, x);
  }

  lemma LoadedSlab(c: Config, h: seq<Header>, kind: seq<Kind>, elems: seq<Elem>, views: seq<Bitmap>, x: nat, e: Elem)
    requires PerSlab(c, h, kind, elems, views) && x < |h| && kind[x].InPool()
    ensures PerSlab(c, h, kind, elems[x := e], views) && views[x := views[x]] == views
  {
    assert AtSlab(c, h, kind, elems, views, x);
    OneSlab(c, h, kind, elems, views, x, h[x], kind[x], e, views[x]);
    assert h[x := h[x]] == h && kind[x := kind[x]] == kind && views[x := views[x]] == views;
  }

  /** A slab on the empty or partial list has entries for one more object. */
  lemma EnoughLeft(c: Config, h: seq<Header>, kind: seq<Kind>, elems: seq<Elem>, views: seq<Bitmap>, x: nat)
    requires Ok(c) && PerSlab(c, h, kind, elems, views) && x < |h| && (kind[x] == Empty || kind[x] == Partial)
    requires !elems[x].Stale? && elems[x].list == views[x]
    ensures !Spoils(elems[x], c.n)
  {
    assert AtSlab(c, h, kind, elems, views, x);
    var b := AllocIsOk(c, h[x], kind[x], views[x]);
  }

  /** Allocating in slab x keeps every slab consistent. */
  lemma AllocKeeps(c: Config, h: seq<Header>, kind: seq<Kind>, elems: seq<Elem>, views: seq<Bitmap>, x: nat,
                   err: int, entry: nat, e: Elem) returns (hd: Header)
    requires Ok(c) && PerSlab(c, h, kind, elems, views)
    requires x < |h| && (kind[x] == Empty || kind[x] == Partial) && !elems[x].Stale? && elems[x].list == views[x]
    requires Allocated(elems[x], c.n, err, entry, e)
    ensures err == 0 && !e.Stale? && hd == h[x].(refcount := h[x].refcount + c.n)
    ensures PerSlab(c, h[x := hd], kind[x := Best(c, hd.refcount)], elems[x := e], views[x := e.list])
  {
    assert AtSlab(c, h, kind, elems, views, x);
    var b := AllocInOne(c, h[x], kind[x], elems[x], err, entry, e);
    hd := h[x].(refcount := h[x].refcount + c.n);
    OneSlab(c, h, kind, elems, views, x, hd, Best(c, hd.refcount), e, e.list);
  }

  /** It makes one object live, at the entry returned. */
  lemma AllocMakesLive(c: Config, h: seq<Header>, kind: seq<Kind>, elems: seq<Elem>, views: seq<Bitmap>, x: nat,
                       err: int, entry: nat, e: Elem, to: Kind)
    requires Ok(c) && |h| == c.g.nslabs && PerSlab(c, h, kind, elems, views) && to.InPool()
    requires x < |h| && (kind[x] == Empty || kind[x] == Partial) && !elems[x].Stale? && elems[x].list == views[x]
    requires Allocated(elems[x], c.n, err, entry, e)
    ensures IsFirst(c, Live(c, kind, views), Object(x, entry))
    ensures !e.Stale? && Live(c, kind[x := to], views[x := e.list]) == Live(c, kind, views) + {Object(x, entry)}
  {
    assert AtSlab(c, h, kind, elems, views, x);
    var b := AllocInOne(c, h[x], kind[x], elems[x], err, entry, e);
    LiveChanges(c, kind, views, x, to, e.list, b);
    LeastIsFirst(c, kind, views, x, entry);
  }

  /** The list a slab of the pool is on, by its live objects. */
  lemma KindAt(c: Config, h: seq<Header>, kind: seq<Kind>, elems: seq<Elem>, views: seq<Bitmap>, x: nat)
    requires Ok(c) && |h| == c.g.nslabs && PerSlab(c, h, kind, elems, views) && x < |h| && kind[x].InPool()
    ensures kind[x] == Full <==> AllLive(c, Live(c, kind, views), x)
    ensures kind[x] == Empty <==> NoneLive(Live(c, kind, views), x)
  {
    assert AtSlab(c, h, kind, elems, views, x);
    KindTells(c, h[x], kind, views, x);
  }

  /** What an allocation does to the slab alone. */
  lemma AllocInOne(c: Config, hd: Header, kind: Kind, e: Elem, err: int, entry: nat, e': Elem) returns (b: nat)
    requires Ok(c) && !e.Stale? && SlabOk(c, hd, kind, e.list) && (kind == Empty || kind == Partial)
    requires Allocated(e, c.n, err, entry, e')
    ensures err == 0 && !e'.Stale? && b < c.k && entry == Join(b, 0, c.n) && entry in e.list.free && entry !in e'.list.free
    ensures e'.list.free == e.list.free - Run(Join(b, 0, c.n), c.n)
    ensures SlabOk(c, hd.(refcount := hd.refcount + c.n), Best(c, hd.refcount + c.n), e'.list)
  {
    b := AllocIsOk(c, hd, kind, e.list);
    MinUnique(e.list.free, entry, Join(b, 0, c.n));
    RunOfGroup(b, b, 0, c.n);
  }

  lemma StillNoLoose(kind: seq<Kind>, x: nat, k: Kind)
    requires NoLoose(kind) && x < |kind| && k != Loose
    ensures NoLoose(kind[x := k])
  {
  }

  /** A formatted slab on the empty list. */
  lemma EmptySlabIsOk(c: Config, h: seq<Header>, h': seq<Header>, kind: seq<Kind>, elems: seq<Elem>, views: seq<Bitmap>, x: nat)
    requires Ok(c) && PerSlab(c, h, kind, elems, views) && SameCounts(h, h') && x < |h|
    requires h[x].pool == 0 && h[x].refcount == 0 && Untouched(views[x], c.nobj)
    ensures PerSlab(c, h', kind[x := Empty], elems, views)
  {
    RelinkKeeps(c, h, h', kind, elems, views);
    FormattedIsOk(c, h'[x]);
    OneSlab(c, h', kind, elems, views, x, h'[x], Empty, elems[x], views[x]);
    assert h'[x := h'[x]] == h' && elems[x := elems[x]] == elems && views[x := views[x]] == views;
  }

  /** Taking a slab off its list claims nothing about it. */
  lemma TakeLoosens(c: Config, h: seq<Header>, h': seq<Header>, kind: seq<Kind>, elems: seq<Elem>, views: seq<Bitmap>, x: nat)
    requires PerSlab(c, h, kind, elems, views) && SameCounts(h, h') && x < |h|
    ensures PerSlab(c, h', kind[x := Loose], elems, views) && (kind[x].Free? ==> elems[x].Stale?)
  {
    assert AtSlab(c, h, kind, elems, views, x);
    RelinkKeeps(c, h, h', kind, elems, views);
    OneSlab(c, h', kind, elems, views, x, h'[x], Loose, elems[x], views[x]);
    assert h'[x := h'[x]] == h' && elems[x := elems[x]] == elems && views[x := views[x]] == views;
  }
}
