/**
 Object create and destroy over slabs, src/flexalloc_mm.c and fla_pool_release_all_slabs, for a system whose
 pool sits at entry 0.
 */
module Allocator {
  import opened SetFacts
  import opened FreeSets
  import opened Geometry
  import opened SlabLists
  import opened SlabBook
  import opened FlistImage
  import opened SlabCache
  import opened Occupancy
  import opened ObjectData
  import opened SlabSteps
  import BlockIo
  import Freelist
  import PoolFuncs

  lemma FirstEntry(free: set<nat>)
    requires 0 in free
    ensures Min(free) == 0 && 1 <= |free| && 0 !in free - Lowest(free, 1)
  {
    assert |free - {0}| == |free| - 1;
  }

  class Flexalloc {
    const c: Config
    const headers: array<Header>
    const cache: Cache
    var fhead: nat
    var ftail: nat
    var fnum: nat
    var pool: PoolHeads
    /** The freelist of the pool entries, and the entries whose functions are set in memory. */
    const pools: Freelist.Flist
    var funcs: set<nat>

    /** What the lists hold, and the list each slab is on. */
    ghost var lists: Lists
    ghost var kind: seq<Kind>

    ghost function Bk(): Book
      reads this, headers
    {
      Book(headers[..], fhead, ftail, pool)
    }

    ghost predicate Shape()
      reads this, headers, cache
    {
      && Ok(c) && cache.g == c.g && cache.Valid() && headers.Length == c.g.nslabs && HasRoom(c.g, c.nobj)
    }

    ghost function Lst(): (vs: seq<Bitmap>)
      requires Shape()
      reads this, headers, cache
      ensures |vs| == c.g.nslabs
    {
      Views(c.g, cache.disk, cache.elems, c.nobj)
    }

    /** The invariant while slabs may be between lists, for the list heads p. */
    ghost predicate MidAt(p: PoolHeads)
      reads this, headers, cache
    {
      && Shape() && Threaded(Book(headers[..], fhead, ftail, p), lists, kind)
      && PerSlab(c, headers[..], kind, cache.elems, Lst())
    }

    ghost predicate Mid()
      reads this, headers, cache
    {
      MidAt(pool)
    }

    ghost predicate Valid()
      reads this, headers, cache
    {
      Mid() && fnum == |lists.free| && NoLoose(kind)
    }

    ghost function LiveSet(): set<Object>
      requires Shape() && |kind| == c.g.nslabs
      reads this, headers, cache
    {
      Live(c, kind, Lst())
    }

    /** The functions of the pool's entry are set.  Otherwise calling one of them is a call through a wild pointer. */
    ghost predicate Ready()
      reads this
    {
      0 in funcs
    }

    /** The entry of the pool is reserved. */
    ghost predicate PoolHeld()
      reads pools, pools.words
    {
      pools.Valid() && pools.len == c.g.npools && 0 !in pools.FreeSet()
    }

    /** What the invariant says of one slab: it is on one list, and its refcount tells which. */
    lemma SlabIsAccountedFor(x: nat)
      requires Valid() && x < c.g.nslabs
      ensures Occurrences(lists, x) == 1
      ensures x in lists.free ==> headers[x].refcount == 0 && cache.elems[x].Stale?
      ensures x !in lists.free ==>
        && headers[x].refcount == |Upto(c.nobj) - Lst()[x].free|
        && (x in lists.empty <==> headers[x].refcount == 0)
        && (x in lists.full <==> headers[x].refcount + c.n > c.nobj)
        && (x in lists.partial <==> 0 < headers[x].refcount <= c.nobj - c.n)
    {
      OnOneList(Bk(), lists, kind, x);
      assert AtSlab(c, headers[..], kind, cache.elems, Lst(), x);
      if kind[x].InPool() {
        RefcountIsReserved(c, headers[x], kind[x], Lst()[x]);
      }
    }

    /** A formatted system whose pool was just created at entry 0: every slab is on the free queue, in order. */
    constructor (c: Config, disk: seq<Block>, pools: Freelist.Flist)
      requires Ok(c) && |disk| == c.g.nlb
      ensures Valid() && this.c == c && fresh(headers) && fresh(cache) && cache.disk == disk
      ensures this.pools == pools && Ready() && cache.elems == seq(c.g.nslabs, _ => Stale)
      ensures lists == Lists(InOrder(c.g.nslabs), [], [], []) && LiveSet() == {}
    {
      this.c, this.pools, funcs := c, pools, {0};
      headers := new Header[c.g.nslabs](_ => Header(0, 0, 0, 0));
      cache := new Cache(c.g, disk);
      pool := PoolHeads(NULL, NULL, NULL);
      lists := Lists(InOrder(c.g.nslabs), [], [], []);
      kind := seq(c.g.nslabs, _ => Free);
      new;
      OkHasRoom(c);
      fhead, ftail, fnum := MkfsSlabSgmtInit(headers);
      FreshlyThreaded(Bk(), lists, kind);
      assert PerSlab(c, headers[..], kind, cache.elems, Lst());
    }

    method FormatSlab(x: nat) returns (err: int)
      requires Mid() && x < c.g.nslabs && kind[x] == Loose && cache.elems[x].Stale?
      modifies headers, cache`elems
      ensures Mid() && err == 0
      ensures headers[..] == old(headers[..])[x := Header(0, NULL, NULL, 0)]
      ensures cache.elems == old(cache.elems)[x := cache.elems[x]] && cache.elems[x].Dirty? && Untouched(cache.elems[x].list, c.nobj)
    {
      ghost var h0, e0, v0 := headers[..], cache.elems, Lst();
      SlabFitsWord(c);
      var objNum := CalcObjsInSlab(c.g.slabNlb, c.g.lb, c.objNlb);
      UniqueCount(c.g, c.objNlb, c.nobj, objNum);
      headers[x] := headers[x].(next := NULL, prev := NULL, refcount := 0, pool := 0);
      RelabelKeeps(Book(h0, fhead, ftail, pool), headers[..], lists, kind);
      assert kind[x := Loose] == kind;
      err := cache.ElemInit(x, objNum);
      ghost var e := cache.elems[x];
      ViewsUpdate(c.g, cache.disk, e0, c.nobj, x, e);
      OneSlab(c, h0, kind, e0, v0, x, headers[x], Loose, e, e.list);
    }

    /** Takes the oldest slab off the free queue. */
    method TakeFree() returns (x: nat)
      requires Valid() && fnum != 0
      modifies this`fhead, this`ftail, this`lists, this`kind, headers
      ensures Mid() && x == old(lists.free[0]) && x < c.g.nslabs && cache.elems[x].Stale?
      ensures old(kind)[x] == Free && kind == old(kind)[x := Loose] && lists == old(lists).With(Free, old(lists.free)[1..])
    {
      ghost var b0, k0 := Bk(), kind;
      ghost var lists' := TakeKeeps(b0, lists, kind);
      x, fhead, ftail := EdllRemoveHead(headers, fhead, ftail);
      lists, kind := lists', kind[x := Loose];
      TakeLoosens(c, b0.h, headers[..], k0, cache.elems, Lst(), x);
    }

    /** Takes the oldest free slab and formats it; it is on no list yet. */
    method AcquireSlab() returns (err: int, x: nat)
      requires Valid()
      modifies this`fhead, this`ftail, this`fnum, this`pool, this`lists, this`kind, headers, cache`elems
      ensures Mid() && fnum == |lists.free| && pool == old(pool)
      ensures old(fnum) == 0 ==> err == ALL_SLABS_USED && unchanged(this, headers, cache)
      ensures old(fnum) != 0 ==>
        && err == 0 && x == old(lists.free[0]) && x < c.g.nslabs && old(kind)[x] == Free && kind == old(kind)[x := Loose]
        && lists == old(lists).With(Free, old(lists.free)[1..])
        && headers[x].pool == 0 && headers[x].refcount == 0
        && cache.elems == old(cache.elems)[x := cache.elems[x]] && cache.elems[x].Dirty? && Untouched(cache.elems[x].list, c.nobj)
    {
      if fnum == 0 {
        return ALL_SLABS_USED, 0;
      }
      x := TakeFree();
      err := FormatSlab(x);
      fnum := fnum - 1;
    }

    /** Takes a slab off the pool's list of its kind. */
    method TakeOff(x: nat, from: Kind)
      requires Threaded(Bk(), lists, kind) && x < headers.Length && kind[x] == from && from.InPool()
      modifies headers, this`pool, this`lists, this`kind
      ensures Threaded(Bk(), lists, kind) && kind == old(kind)[x := Loose]
      ensures lists == old(lists).Minus(x) && lists.free == old(lists.free) && SameCounts(old(headers[..]), headers[..])
    {
      ghost var lists' := RemoveKeeps(Bk(), lists, kind, x);
      var head := HdllRemove(headers, pool.Head(from), x);
      pool := pool.With(from, head);
      lists, kind := lists', kind[x := Loose];
    }

    /** Puts a loose slab first on one of the pool's lists. */
    method PutOn(x: nat, k: Kind)
      requires Threaded(Bk(), lists, kind) && x < headers.Length && kind[x].Loose? && k.InPool()
      modifies headers, this`pool, this`lists, this`kind
      ensures Threaded(Bk(), lists, kind) && kind == old(kind)[x := k]
      ensures lists == old(lists).With(k, [x] + old(lists.Of(k))) && pool.Head(k) == x
      ensures SameCounts(old(headers[..]), headers[..])
    {
      ghost var lists' := AddKeeps(Bk(), lists, kind, x, k);
      var head := HdllPrepend(headers, pool.Head(k), x);
      pool := pool.With(k, head);
      lists, kind := lists', kind[x := k];
    }

    /** Acquires a slab and puts it on the empty list. */
    method AcquireEmpty() returns (err: int, x: nat)
      requires Valid()
      modifies this`fhead, this`ftail, this`fnum, this`pool, this`lists, this`kind, headers, cache`elems
      ensures Valid() && LiveSet() == old(LiveSet())
      ensures old(fnum) == 0 ==> err == ALL_SLABS_USED && unchanged(this, headers, cache)
      ensures old(fnum) != 0 ==> err == 0 && x == old(lists.free[0]) && x < c.g.nslabs && kind[x] == Empty && x == pool.empty
      ensures err == 0 ==> OthersKept(old(cache.elems), cache.elems, x)
      ensures err == 0 ==> lists == old(lists).With(Free, old(lists.free)[1..]).With(Empty, [x] + old(lists.empty))
    {
      ghost var k0, e0, v0 := kind, cache.elems, Lst();
      err, x := AcquireSlab();
      if err != 0 {
        return;
      }
      ghost var list := cache.elems[x].list;
      ViewsUpdate(c.g, cache.disk, e0, c.nobj, x, cache.elems[x]);
      ghost var h1 := headers[..];
      PutOn(x, Empty);
      EmptySlabIsOk(c, h1, headers[..], k0[x := Loose], cache.elems, Lst(), x);
      LiveSame(c, k0, v0, x, Empty, list);
      assert kind == k0[x := Empty];
      StillNoLoose(k0, x, Empty);
    }

    /** Where the next object goes: a partial slab, else an empty one, else the oldest free one. */
    method NextAvailableSlab() returns (err: int, x: nat)
      requires Valid()
      modifies this`fhead, this`ftail, this`fnum, this`pool, this`lists, this`kind, headers, cache`elems
      ensures Valid() && LiveSet() == old(LiveSet())
      ensures old(lists.partial == [] && lists.empty == [] && lists.free == []) ==> err == ALL_SLABS_USED && unchanged(this, headers, cache)
      ensures !old(lists.partial == [] && lists.empty == [] && lists.free == []) ==>
        err == 0 && x < c.g.nslabs && (kind[x] == Empty || kind[x] == Partial) && x == pool.Head(kind[x])
      ensures err == 0 ==> x == Pick(old(lists)) && lists == Offered(old(lists)) && (kind[x] == Partial <==> old(lists.partial) != [])
      ensures old(lists.partial != [] || lists.empty != []) ==> unchanged(this, headers, cache)
      ensures err == 0 ==> OthersKept(old(cache.elems), cache.elems, x)
    {
      HeadOf(Bk(), lists, kind, Partial);
      HeadOf(Bk(), lists, kind, Empty);
      if pool.partial == NULL {
        if pool.empty == NULL {
          err, x := AcquireEmpty();
        } else {
          err, x := 0, pool.empty;
        }
      } else {
        err, x := 0, pool.partial;
      }
    }

    /**
     Brings a slab's freelist into the cache if it is not there.  For a slab that the pool does not own this goes
     wrong exactly if the device still has a freelist of the pool's length there.
     */
    method LoadSlab(x: nat) returns (err: int)
      requires Valid() && x < c.g.nslabs
      modifies cache`elems
      ensures kind[x].InPool() ==>
        && Valid() && err == 0 && Lst() == old(Lst())
        && !cache.elems[x].Stale? && OthersKept(old(cache.elems), cache.elems, x)
      ensures kind[x].Free? ==> (Valid() <==> err != 0) && (err == 0 <==> OnDisk(c.g, cache.disk, x, c.nobj).len == c.nobj)
    {
      ghost var e0, v0 := cache.elems, Lst();
      if kind[x].InPool() {
        LoadableSlab(c, headers[..], kind, e0, v0, x);
      } else {
        FreeIsStale(c, headers[..], kind, e0, v0, x);
      }
      err := cache.ElemLoad(x, c.nobj);
      if err == INVALID_STATE {
        // already loaded
        err := 0;
      }
      if kind[x].InPool() {
        ViewsUpdate(c.g, cache.disk, e0, c.nobj, x, cache.elems[x]);
        LoadedSlab(c, headers[..], kind, e0, v0, x, cache.elems[x]);
      } else if err != 0 {
        assert cache.elems == e0 && Lst() == v0;
      } else if Valid() {
        FreeIsStale(c, headers[..], kind, cache.elems, Lst(), x);
      }
    }

    method AddRefs(x: nat, ghost hd: Header)
      requires Threaded(Bk(), lists, kind) && x < headers.Length && hd == headers[x].(refcount := headers[x].refcount + c.n)
      modifies headers
      ensures headers[..] == old(headers[..])[x := hd] && Threaded(Bk(), lists, kind)
    {
      ghost var b := Bk();
      headers[x] := headers[x].(refcount := headers[x].refcount + c.n);
      RelabelKeeps(b, headers[..], lists, kind);
    }

    /** Reserves the entries of one more object in the freelist of a slab that is not full; hd is the header due. */
    method ReserveEntries(x: nat) returns (err: int, entry: nat, ghost hd: Header)
      requires Valid() && x < c.g.nslabs && (kind[x] == Empty || kind[x] == Partial) && !cache.elems[x].Stale?
      modifies cache`elems
      ensures Shape() && err == 0 && hd == headers[x].(refcount := headers[x].refcount + c.n)
      ensures PerSlab(c, headers[..][x := hd], kind[x := Best(c, hd.refcount)], cache.elems, Lst())
      ensures IsFirst(c, old(LiveSet()), Object(x, entry))
      ensures Live(c, kind[x := Best(c, hd.refcount)], Lst()) == old(LiveSet()) + {Object(x, entry)}
      ensures OthersKept(old(cache.elems), cache.elems, x) && !cache.elems[x].Stale?
    {
      ghost var h0, e0, v0 := headers[..], cache.elems, Lst();
      EnoughLeft(c, h0, kind, e0, v0, x);
      err, entry := cache.ObjAlloc(x, c.n);
      ghost var e := cache.elems[x];
      hd := AllocKeeps(c, h0, kind, e0, v0, x, err, entry, e);
      AllocMakesLive(c, h0, kind, e0, v0, x, err, entry, e, Best(c, hd.refcount));
      ViewsUpdate(c.g, cache.disk, e0, c.nobj, x, e);
    }

    /** Reserves one more object and counts it. */
    method SlabNextAvailableObj(x: nat) returns (err: int, obj: Object)
      requires Valid() && x < c.g.nslabs && (kind[x] == Empty || kind[x] == Partial) && !cache.elems[x].Stale?
      modifies headers, cache`elems
      ensures Shape() && err == 0 && obj.slab == x
      ensures headers[..] == old(headers[..])[x := old(headers[x]).(refcount := old(headers[x].refcount) + c.n)]
      ensures Threaded(Bk(), lists, kind)
      ensures PerSlab(c, headers[..], kind[x := Best(c, headers[x].refcount)], cache.elems, Lst())
      ensures IsFirst(c, old(LiveSet()), obj)
      ensures Live(c, kind[x := Best(c, headers[x].refcount)], Lst()) == old(LiveSet()) + {obj}
      ensures OthersKept(old(cache.elems), cache.elems, x) && !cache.elems[x].Stale?
    {
      var entry;
      ghost var hd;
      err, entry, hd := ReserveEntries(x);
      AddRefs(x, hd);
      assert headers[x] == headers[..][x] == hd;
      obj := Object(x, entry);
    }

    /** Moves a slab to the head of another of the pool's lists, or of its own. */
    method Relist(x: nat, from: Kind, to: Kind)
      requires Threaded(Bk(), lists, kind) && x < headers.Length && kind[x] == from && from.InPool() && to.InPool()
      modifies headers, this`pool, this`lists, this`kind
      ensures Threaded(Bk(), lists, kind) && kind == old(kind)[x := to] && lists.free == old(lists.free)
      ensures SameCounts(old(headers[..]), headers[..]) && lists == old(lists).MovedTo(x, to)
    {
      ghost var l0 := lists;
      TakeOff(x, from);
      ghost var l1 := lists;
      PutOn(x, to);
      OffThenOn(l0, l1, lists, x, to);
    }

    /**
     Creates the first object that is not live of the first partial slab, else of the first empty one, else of the
     oldest free one, unless every object the device can hold is live.  defined is false if the code calls a function
     of the pool's entry that is not set.
     */
    method ObjectCreate() returns (defined: bool, err: int, obj: Object)
      requires Valid()
      modifies this`fhead, this`ftail, this`fnum, this`pool, this`lists, this`kind, headers, cache`elems
      ensures Valid()
      ensures |old(LiveSet())| == c.g.nslabs * c.k ==> defined && err == ALL_SLABS_USED && unchanged(this, headers, cache)
      ensures |old(LiveSet())| != c.g.nslabs * c.k ==> (defined <==> Ready())
      ensures |old(LiveSet())| != c.g.nslabs * c.k && defined ==>
        && err == 0 && IsFirst(c, old(LiveSet()), obj) && LiveSet() == old(LiveSet()) + {obj}
        && old(lists.partial != [] || lists.empty != [] || lists.free != []) && obj.slab == Pick(old(lists))
        && lists == AfterCreate(old(lists), AllLive(c, LiveSet(), obj.slab))
        && OthersKept(old(cache.elems), cache.elems, obj.slab) && !cache.elems[obj.slab].Stale?
    {
      var x;
      ghost var l0 := lists;
      err, x := OfferSlab();
      if err != 0 {
        return true, err, Object(0, 0);
      }
      ghost var l1 := lists;
      defined, err, obj := CreateLoaded(x);
      if defined {
        CreateMoves(l0, l1, lists, AllLive(c, LiveSet(), x));
      }
    }

    /** A slab with room, unless every object the device can hold is live. */
    method OfferSlab() returns (err: int, x: nat)
      requires Valid()
      modifies this`fhead, this`ftail, this`fnum, this`pool, this`lists, this`kind, headers, cache`elems
      ensures Valid() && LiveSet() == old(LiveSet())
      ensures |old(LiveSet())| == c.g.nslabs * c.k ==> err == ALL_SLABS_USED && unchanged(this, headers, cache)
      ensures |old(LiveSet())| != c.g.nslabs * c.k ==>
        && err == 0 && x < c.g.nslabs && (kind[x] == Empty || kind[x] == Partial)
        && old(lists.partial != [] || lists.empty != [] || lists.free != [])
        && x == Pick(old(lists)) && lists == Offered(old(lists)) && (kind[x] == Partial <==> old(lists.partial) != [])
        && OthersKept(old(cache.elems), cache.elems, x)
    {
      Exhaustion(c, Bk(), lists, kind, cache.elems, Lst());
      err, x := NextAvailableSlab();
    }

    /** Loads a slab of the pool and creates an object in it. */
    method CreateLoaded(x: nat) returns (defined: bool, err: int, obj: Object)
      requires Valid() && x < c.g.nslabs && (kind[x] == Empty || kind[x] == Partial)
      modifies this`pool, this`lists, this`kind, headers, cache`elems
      ensures Valid() && (defined <==> Ready()) && OthersKept(old(cache.elems), cache.elems, x)
      ensures !defined ==> lists == old(lists) && LiveSet() == old(LiveSet())
      ensures defined ==> err == 0 && obj.slab == x && IsFirst(c, old(LiveSet()), obj) && LiveSet() == old(LiveSet()) + {obj}
      ensures defined && AllLive(c, LiveSet(), x) ==> lists == old(lists).MovedTo(x, Full)
      ensures defined && !AllLive(c, LiveSet(), x) ==> lists == if old(kind)[x] == Partial then old(lists) else old(lists).MovedTo(x, Partial)
      ensures !cache.elems[x].Stale?
    {
      err := LoadSlab(x);
      if 0 !in funcs {
        return false, err, Object(0, 0);
      }
      err, obj := CreateIn(x);
      return true, err, obj;
    }

    /** The rest of object create: reserves the object and moves its slab to the list it belongs on. */
    method CreateIn(x: nat) returns (err: int, obj: Object)
      requires Valid() && x < c.g.nslabs && (kind[x] == Empty || kind[x] == Partial) && !cache.elems[x].Stale?
      modifies this`pool, this`lists, this`kind, headers, cache`elems
      ensures Valid() && err == 0 && obj.slab == x
      ensures IsFirst(c, old(LiveSet()), obj) && LiveSet() == old(LiveSet()) + {obj}
      ensures AllLive(c, LiveSet(), x) ==> lists == old(lists).MovedTo(x, Full)
      ensures !AllLive(c, LiveSet(), x) ==> lists == if old(kind)[x] == Partial then old(lists) else old(lists).MovedTo(x, Partial)
      ensures OthersKept(old(cache.elems), cache.elems, x) && !cache.elems[x].Stale?
    {
      BestIsKind(c, headers[..], kind, cache.elems, Lst(), x);
      var from := Best(c, headers[x].refcount);
      ghost var k0 := kind;
      err, obj := SlabNextAvailableObj(x);
      var to := Best(c, headers[x].refcount);
      StillNoLoose(k0, x, to);
      if from != to {
        ghost var h1 := headers[..];
        Relist(x, from, to);
        RelinkKeeps(c, h1, headers[..], kind, cache.elems, Lst());
      }
      assert kind == k0[x := to];
      KindAt(c, headers[..], kind, cache.elems, Lst(), x);
    }

    method DropRefs(x: nat, ghost hd: Header)
      requires Threaded(Bk(), lists, kind) && x < headers.Length && c.n <= headers[x].refcount
      requires hd == headers[x].(refcount := headers[x].refcount - c.n)
      modifies headers
      ensures headers[..] == old(headers[..])[x := hd] && Threaded(Bk(), lists, kind)
    {
      ghost var b := Bk();
      headers[x] := headers[x].(refcount := headers[x].refcount - c.n);
      RelabelKeeps(b, headers[..], lists, kind);
    }

    /** Frees the entries of a live object whose slab is cached. */
    method SlabFreeObj(obj: Object)
      requires Valid() && obj in LiveSet() && !cache.elems[obj.slab].Stale?
      modifies headers, cache`elems
      ensures Shape()
      ensures headers[..] == old(headers[..])[obj.slab := old(headers[obj.slab]).(refcount := headers[obj.slab].refcount)]
      ensures Threaded(Bk(), lists, kind)
      ensures PerSlab(c, headers[..], kind[obj.slab := Best(c, headers[obj.slab].refcount)], cache.elems, Lst())
      ensures Live(c, kind[obj.slab := Best(c, headers[obj.slab].refcount)], Lst()) == old(LiveSet()) - {obj}
      ensures OthersKept(old(cache.elems), cache.elems, obj.slab) && !cache.elems[obj.slab].Stale?
    {
      var x := obj.slab;
      ghost var h0, e0, v0 := headers[..], cache.elems, Lst();
      ghost var hd, list := FreeKeeps(c, h0, kind, e0, v0, obj);
      FreeMakesDead(c, h0, kind, e0, v0, obj, Best(c, hd.refcount));
      var err := cache.ObjFree(x, obj.entry, c.n);
      ViewsUpdate(c.g, cache.disk, e0, c.nobj, x, cache.elems[x]);
      DropRefs(x, hd);
      assert headers[x] == headers[..][x] == hd && cache.elems[x] == Dirty(list);
    }

    /**
     Destroys a live object and puts its slab first on the empty or the partial list; its slab's freelist must have
     been loaded since the system was opened.
     */
    method ObjectDestroy(obj: Object) returns (defined: bool, err: int)
      requires Valid() && obj in LiveSet()
      modifies this`pool, this`lists, this`kind, headers, cache`elems
      ensures Valid() && (defined <==> Ready())
      ensures !defined || old(cache.elems[obj.slab]).Stale? ==> unchanged(this, headers, cache)
      ensures defined && old(cache.elems[obj.slab]).Stale? ==> err == INVALID_STATE
      ensures defined && !old(cache.elems[obj.slab]).Stale? ==>
        && err == 0 && LiveSet() == old(LiveSet()) - {obj}
        && lists == old(lists).MovedTo(obj.slab, if NoneLive(LiveSet(), obj.slab) then Empty else Partial)
        && OthersKept(old(cache.elems), cache.elems, obj.slab) && !cache.elems[obj.slab].Stale?
    {
      if 0 !in funcs {
        return false, 0;
      }
      var x := obj.slab;
      BestIsKind(c, headers[..], kind, cache.elems, Lst(), x);
      var from := Best(c, headers[x].refcount);
      if cache.elems[x].Stale? {
        return true, INVALID_STATE;
      }
      ghost var k0 := kind;
      SlabFreeObj(obj);
      var to := Best(c, headers[x].refcount);
      StillNoLoose(k0, x, to);
      ghost var h1 := headers[..];
      Relist(x, from, to);
      RelinkKeeps(c, h1, headers[..], kind, cache.elems, Lst());
      KindAt(c, headers[..], kind, cache.elems, Lst(), x);
      NotAllLive(c, LiveSet(), obj);
      return true, 0;
    }

    /** Opening an object loads the freelist of its slab. */
    method ObjectOpen(obj: Object) returns (err: int)
      requires Valid()
      modifies cache`elems
      ensures obj.slab >= c.g.nslabs ==> err == 1 && unchanged(cache)
      ensures obj.slab < c.g.nslabs && kind[obj.slab].InPool() ==>
        && Valid() && err == 0 && LiveSet() == old(LiveSet())
        && !cache.elems[obj.slab].Stale? && OthersKept(old(cache.elems), cache.elems, obj.slab)
      ensures obj.slab < c.g.nslabs && kind[obj.slab].Free? ==>
        (Valid() <==> err != 0) && (err == 0 <==> OnDisk(c.g, cache.disk, obj.slab, c.nobj).len == c.nobj)
    {
      if obj.slab > c.g.nslabs - 1 {
        return 1;
      }
      err := LoadSlab(obj.slab);
    }

    /** Gives a slab without live objects back: it becomes the youngest free one. */
    method ReleaseSlab(x: nat, ghost p: PoolHeads) returns (err: int)
      requires MidAt(p) && x < c.g.nslabs && kind[x] == Loose
      modifies this`fhead, this`ftail, this`fnum, this`lists, this`kind, headers, cache`elems
      ensures MidAt(p)
      ensures old(headers[x].refcount) != 0 ==> err == 1 && unchanged(this, headers, cache)
      ensures old(headers[x].refcount) == 0 ==>
        && err == 0 && kind == old(kind)[x := Free] && fnum == old(fnum) + 1
        && lists == old(lists).With(Free, old(lists.free) + [x])
        && (old(fhead == ftail == NULL || ftail < headers.Length))
        && headers[..] == Enqueued(old(headers[..]), old(fhead), old(ftail), x)
        && cache.elems == old(cache.elems)[x := Stale]
    {
      if headers[x].refcount != 0 {
        return 1;
      }
      ghost var b0, k0, e0, v0 := Book(headers[..], fhead, ftail, p), kind, cache.elems, Lst();
      ghost var lists' := ReturnKeeps(b0, lists, kind, x);
      cache.ElemDrop(x);
      ViewsUpdate(c.g, cache.disk, e0, c.nobj, x, Stale);
      fhead, ftail := EdllAddTail(headers, fhead, ftail, x);
      fnum := fnum + 1;
      lists, kind := lists', kind[x := Free];
      FreedSlab(c, b0.h, headers[..], k0, e0, v0, x, Lst()[x]);
      err := 0;
    }

    /** The pool's list of kind k has been given up; rest is still to be released. */
    ghost predicate Releasing(p: PoolHeads, k: Kind, rest: seq<nat>)
      reads this, headers, cache
    {
      && MidAt(p) && fnum == |lists.free|
      && k.InPool() && pool == p.With(k, First(rest))
      && Chained(headers[..], First(rest), rest) && AllLoose(kind, rest) && Unreferenced(headers[..], rest)
    }

    /** One round of fla_hdll_remove_all. */
    method ReleaseFirst(k: Kind, ghost p: PoolHeads, ghost rest: seq<nat>) returns (err: int)
      requires Releasing(p, k, rest) && rest != []
      modifies this`pool, this`fhead, this`ftail, this`fnum, this`lists, this`kind, headers, cache`elems
      ensures Releasing(p, k, rest[1..]) && err == 0
      ensures lists == old(lists).With(Free, old(lists.free) + [rest[0]]) && kind == old(kind)[rest[0] := Free]
    {
      ghost var h0, k0 := headers[..], kind;
      ChainAfterReturn(Book(h0, fhead, ftail, p), lists, kind, rest);
      FirstLoose(h0, kind, rest);
      var x := pool.Head(k);
      pool := pool.With(k, headers[x].next);
      err := ReleaseSlab(x, p);
      RestLoose(h0, headers[..], k0, rest);
    }

    ghost method GiveUp(k: Kind)
      requires Valid() && k.InPool() && (k == Empty || lists.Of(k) == [])
      modifies this`kind, this`lists
      ensures Releasing(pool.With(k, NULL), k, old(lists.Of(k))) && lists == old(lists).With(k, [])
      ensures |old(lists.Of(k))| <= c.g.nslabs
    {
      LoosenKeeps(Bk(), lists, kind, k);
      EmptyIsUnreferenced(c, headers[..], kind, cache.elems, Lst(), lists, k);
      DistinctBound(lists.Of(k), c.g.nslabs);
      kind, lists := Loosened(kind, k), lists.With(k, []);
    }

    /** Releases all slabs of one of the pool's lists, none of which has live objects. */
    method ReleaseList(k: Kind) returns (err: int)
      requires Valid() && k.InPool() && (k == Empty || lists.Of(k) == [])
      modifies this`fhead, this`ftail, this`fnum, this`pool, this`lists, this`kind, headers, cache`elems
      ensures Valid() && err == 0
      ensures pool == old(pool).With(k, NULL)
      ensures lists == old(lists).With(k, []).With(Free, old(lists.free) + old(lists.Of(k)))
    {
      ghost var p, all := pool.With(k, NULL), lists.Of(k);
      ghost var rest, free := all, lists.free;
      GiveUp(k);
      ghost var lists0 := lists;
      err := 0;
      var i := 0;
      while i < c.g.nslabs && pool.Head(k) != NULL
        invariant 0 <= i && Releasing(p, k, rest) && err == 0
        invariant i + |rest| <= c.g.nslabs && |rest| <= |all| && rest == all[|all| - |rest|..]
        invariant lists == lists0.With(Free, free + all[..|all| - |rest|])
      {
        EndOfChain(headers[..], rest);
        NextOfChain(lists0, free, all, |rest|);
        err := ReleaseFirst(k, p, rest);
        rest := rest[1..];
        i := i + 1;
      }
      EndOfChain(headers[..], rest);
      NoneLeft(kind);
      assert all[..|all|] == all;
      if pool.Head(k) != NULL {
        err := 1;
      }
    }

    /** The first round of fla_hdll_remove_all on a list of referenced slabs: the head moves on, and the slab stays. */
    method LoseFirst(k: Kind) returns (err: int)
      requires Valid() && (k == Partial || k == Full) && lists.Of(k) != []
      modifies this`pool
      ensures err == 1 && !Consistent(Bk())
      ensures pool == old(pool).With(k, Second(lists.Of(k)))
    {
      ghost var b := Bk();
      HeadOf(b, lists, kind, k);
      var x := pool.Head(k);
      BestIsKind(c, headers[..], kind, cache.elems, Lst(), x);
      PointsBack(headers[..], lists.Of(k));
      pool := pool.With(k, headers[x].next);
      FirstIsLost(b, Bk(), lists, kind, k);
      err := if headers[x].refcount != 0 then 1 else 0;
    }

    /** Releases the slabs of a list, or fails at its first slab if they are referenced. */
    method RemoveAll(k: Kind) returns (err: int)
      requires Valid() && k.InPool()
      modifies this`fhead, this`ftail, this`fnum, this`pool, this`lists, this`kind, headers, cache`elems
      ensures k == Empty || old(lists.Of(k)) == [] ==>
        && Valid() && err == 0 && pool == old(pool).With(k, NULL)
        && lists == old(lists).With(k, []).With(Free, old(lists.free) + old(lists.Of(k)))
      ensures k != Empty && old(lists.Of(k)) != [] ==>
        && err == 1 && !Consistent(Bk()) && pool == old(pool).With(k, Second(old(lists.Of(k))))
        && lists == old(lists) && MidAt(old(pool))
    {
      HeadOf(Bk(), lists, kind, k);
      if k == Empty || pool.Head(k) == NULL {
        err := ReleaseList(k);
      } else {
        err := LoseFirst(k);
      }
    }

    /**
     Destroying the pool when nothing is live returns every slab it held, in list order.  With live objects it
     fails after its empty slabs are returned: the first full slab, or else the first partial one, is then on no list.
     */
    method ReleaseAllSlabs() returns (err: int)
      requires Valid()
      modifies this`fhead, this`ftail, this`fnum, this`pool, this`lists, this`kind, headers, cache`elems
      ensures err == 0 <==> old(LiveSet()) == {}
      ensures err == 0 ==>
        && Valid() && pool == PoolHeads(NULL, NULL, NULL) && fnum == c.g.nslabs && LiveSet() == {}
        && lists == Lists(old(lists.free) + old(lists.empty), [], [], [])
      ensures err != 0 ==>
        && err == 1 && !Consistent(Bk()) && lists == old(lists).With(Empty, []).With(Free, old(lists.free) + old(lists.empty))
        && MidAt(PoolHeads(NULL, First(old(lists.partial)), First(old(lists.full)))) && pool == HeadsAfterLoss(old(lists))
    {
      UseIsListed(c, Bk(), lists, kind, cache.elems, Lst());
      HeadsAreFirst(Bk(), lists, kind);
      err := RemoveAll(Empty);
      err := RemoveAll(Full);
      if err != 0 {
        return;
      }
      err := RemoveAll(Partial);
      if err != 0 {
        return;
      }
      AllFree(c, Bk(), lists, kind, Lst());
    }

    /** Destroying the pool when nothing is live and creating it again: it gets entry 0 and its functions again. */
    method RenewPool() returns (err: int)
      requires Valid() && LiveSet() == {} && PoolHeld()
      modifies this`fhead, this`ftail, this`fnum, this`pool, this`lists, this`kind, this`funcs, headers, cache`elems, pools.words
      ensures Valid() && LiveSet() == {} && PoolHeld() && err == 0 && Ready() && pool == PoolHeads(NULL, NULL, NULL)
      ensures lists == Lists(old(lists.free) + old(lists.empty), [], [], [])
      ensures forall x :: 0 <= x < |cache.elems| ==> cache.elems[x].Stale?
    {
      err := ReleaseAllSlabs();
      NothingCached(c, Bk(), lists, kind, cache.elems, Lst());
      var ndx := ReenterPool();
      funcs := funcs + {ndx};
    }

    /** The entry of the pool is freed and taken again. */
    method ReenterPool() returns (ndx: nat)
      requires PoolHeld()
      modifies pools.words
      ensures PoolHeld() && ndx == 0
    {
      var err := pools.EntriesFree(0, 1);
      ghost var free := pools.FreeSet();
      var i := pools.EntriesAlloc(1);
      FirstEntry(free);
      ndx := i;
    }

    /** The object's data on the device. */
    ghost function Data(o: Object): seq<Block>
      requires Shape() && o in All(c)
      reads this, headers, cache
    {
      Content(c, cache.disk, o)
    }

    /** Writes whole blocks of an object from block off on; a write past its end is refused. */
    method ObjectWrite(o: Object, off: nat, data: seq<Block>) returns (defined: bool, err: int)
      requires Valid() && o in All(c)
      modifies cache`disk
      ensures Valid() && Lst() == old(Lst()) && LiveSet() == old(LiveSet()) && (defined <==> Ready())
      ensures !defined || c.objNlb * c.n < off + |data| ==> unchanged(cache)
      ensures defined ==> err == if off + |data| <= c.objNlb * c.n then 0 else 1
      ensures defined && off + |data| <= c.objNlb * c.n ==> Data(o) == BlockIo.Spliced(old(Data(o)), off, data)
      ensures forall p :: p in All(c) && p != o ==> Data(p) == old(Data(p))
      ensures forall i :: 0 <= i < c.g.nlb && !(ObjectRange(c, o).lo + off <= i < ObjectRange(c, o).lo + off + |data|) ==>
        cache.disk[i] == old(cache.disk)[i]
    {
      if 0 !in funcs {
        return false, 0;
      }
      ObjectPlace(c, o);
      SlbaBound(c.g, o.slab, c.nobj);
      var objElba := ObjectRange(c, o).hi;
      var start := ObjectRange(c, o).lo + off;
      var slabElba := SlabOff(c.g, o.slab) + c.g.slabNlb;
      if slabElba < objElba || objElba < start + |data| {
        return true, 1;
      }
      ghost var d0 := cache.disk;
      UniformLists(c, headers[..], kind, cache.elems, cache.disk);
      WriteKeepsViews(c, d0, cache.elems, o, off, data);
      WriteStores(c, d0, o, off, data);
      cache.disk := Written(c, cache.disk, o, off, data);
      forall p | p in All(c) && p != o
        ensures Data(p) == Content(c, d0, p)
      {
        WriteElsewhere(c, d0, o, off, data, p);
      }
      return true, 0;
    }

    /** Reads whole blocks of an object from block off on; a read past its end is refused. */
    method ObjectRead(o: Object, off: nat, len: nat) returns (defined: bool, err: int, data: seq<Block>)
      requires Valid() && o in All(c)
      ensures defined <==> Ready()
      ensures defined ==> err == if off + len <= c.objNlb * c.n then 0 else 1
      ensures defined && err == 0 ==> data == Data(o)[off..off + len]
    {
      if 0 !in funcs {
        return false, 0, [];
      }
      ObjectPlace(c, o);
      SlbaBound(c.g, o.slab, c.nobj);
      var objElba := ObjectRange(c, o).hi;
      var start := ObjectRange(c, o).lo + off;
      var slabElba := SlabOff(c.g, o.slab) + c.g.slabNlb;
      if slabElba < objElba || objElba < start + len {
        return true, 1, [];
      }
      SliceOfSlice(cache.disk, ObjectRange(c, o).lo, objElba, off, len);
      return true, 0, cache.disk[start..start + len];
    }

    /** Flushes every freelist; nothing else changes. */
    method Sync() returns (err: int)
      requires Valid()
      modifies cache
      ensures Valid() && err == 0 && Lst() == old(Lst()) && LiveSet() == old(LiveSet())
      ensures forall x :: 0 <= x < |cache.elems| ==> !cache.elems[x].Dirty? && cache.elems[x].Stale? == old(cache.elems[x].Stale?)
      ensures forall p :: p in All(c) ==> Data(p) == old(Data(p))
      ensures OthersSame(c.g, old(cache.elems), old(cache.disk), cache.disk)
    {
      ghost var d0, e0 := cache.disk, cache.elems;
      UniformLists(c, headers[..], kind, cache.elems, cache.disk);
      err := cache.Flush();
      SyncKeeps(c, headers[..], kind, d0, e0, cache.disk, cache.elems);
      forall p | p in All(c)
        ensures Data(p) == Content(c, d0, p)
      {
        FlushKeepsContent(c, e0, d0, cache.disk, p);
      }
    }

    /**
     Closing flushes and drops the cache; after opening again every freelist and every object is as before, and
     the free-queue cells and the pool entries are looked for where they are.  The functions of the pool's entry are
     set again exactly if the system does not have 32 pools.
     */
    method CloseAndOpen() returns (err: int)
      requires Valid() && PoolHeld()
      modifies cache, this`funcs
      ensures Valid() && err == 0 && Lst() == old(Lst()) && LiveSet() == old(LiveSet())
      ensures forall x :: 0 <= x < |cache.elems| ==> cache.elems[x].Stale?
      ensures forall p :: p in All(c) ==> Data(p) == old(Data(p))
      ensures OthersSame(c.g, old(cache.elems), old(cache.disk), cache.disk)
      ensures OpenCells(c.g) == MkfsCells(c.g) && OpenEntriesOffset(c.g) == PoolTablesNbytes(c.g)
      ensures Ready() <==> c.g.npools != 32
    {
      CellsAgree(c.g);
      EntriesAgree(c.g);
      err := Sync();
      DropCache();
      PoolFuncs.EntryZero(pools.len, pools.FreeSet());
      err, funcs := PoolFuncs.InitEntryFuncs(pools);
    }

    /** A new cache over a device that has every freelist. */
    method DropCache()
      requires Valid() && forall x :: 0 <= x < |cache.elems| ==> !cache.elems[x].Dirty?
      modifies cache`elems
      ensures Valid() && Lst() == old(Lst()) && LiveSet() == old(LiveSet())
      ensures forall x :: 0 <= x < |cache.elems| ==> cache.elems[x].Stale?
    {
      UniformLists(c, headers[..], kind, cache.elems, cache.disk);
      ReopenKeeps(c, headers[..], kind, cache.disk, cache.elems);
      cache.Reopen();
    }
  }
}
