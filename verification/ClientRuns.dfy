/** Whole runs of a client of the allocator. */
module ClientRuns {
  import opened Arith
  import opened SetFacts
  import opened FreeSets
  import opened Geometry
  import opened FlistImage
  import opened SlabCache
  import opened Occupancy
  import opened ObjectData
  import opened SlabLists
  import opened SlabBook
  import opened SlabSteps
  import opened Allocator
  import BlockIo
  import Freelist

  /**
   What a client does.  Destroy, Open and Write name one of the handles it holds; Renew destroys the pool and
   creates it again, if no handle is held.
   */
  datatype Op =
    | Create | Destroy(i: nat) | Open(i: nat) | Write(i: nat, off: nat, data: seq<Block>) | Flush | Reopen | Renew

  /**
   What a client can know: its handles, what each object holds, the slabs whose freelists are loaded, whether the
   functions of the pool's entry are set, and the slabs on each list.
   */
  datatype View = View(handles: seq<Object>, contents: seq<seq<Block>>, loaded: set<nat>, served: bool, lists: Lists)

  function Start(c: Config): View {
    View([], [], {}, true, Lists(InOrder(c.g.nslabs), [], [], []))
  }

  function Held(handles: seq<Object>): set<Object> {
    set o | o in handles
  }

  function Without<T>(s: seq<T>, i: nat): seq<T>
    requires i < |s|
  {
    s[..i] + s[i + 1..]
  }

  /** What an operation does to a client's view; a new object holds whatever its blocks held. */
  ghost predicate Next(c: Config, v: View, op: Op, v': View)
    requires |v.contents| == |v.handles| && 0 < c.n
  {
    match op
    case Create =>
      if |v.handles| == c.g.nslabs * c.k then v' == v
      else
        && (v.lists.partial != [] || v.lists.empty != [] || v.lists.free != [])
        && |v'.handles| == |v'.contents| == |v.handles| + 1 && |v'.contents[|v.handles|]| == c.objNlb * c.n
        && var o := v'.handles[|v.handles|];
           && o.slab == Pick(v.lists) && IsFirst(c, Held(v.handles), o)
           && v' == View(v.handles + [o], v.contents + [v'.contents[|v.handles|]], v.loaded + {o.slab}, v.served,
                         AfterCreate(v.lists, AllLive(c, Held(v.handles + [o]), o.slab)))
    case Destroy(i) =>
      v' == if i < |v.handles| && v.handles[i].slab in v.loaded
            then v.(handles := Without(v.handles, i), contents := Without(v.contents, i), lists := AfterDestroy(v, i)) else v
    case Open(i) => v' == if i < |v.handles| then v.(loaded := v.loaded + {v.handles[i].slab}) else v
    case Write(i, off, data) =>
      v' == if i < |v.handles| && off + |data| <= c.objNlb * c.n && off + |data| <= |v.contents[i]|
            then v.(contents := v.contents[i := BlockIo.Spliced(v.contents[i], off, data)]) else v
    case Flush => v' == v
    case Reopen => v' == v.(loaded := {}, served := c.g.npools != 32)
    case Renew => v' == if v.handles == [] then v.(loaded := {}, served := true, lists := AfterRenew(v.lists)) else v
  }

  /** A slab that had an object destroyed comes first on the list it belongs on. */
  ghost function AfterDestroy(v: View, i: nat): Lists
    requires i < |v.handles|
  {
    v.lists.MovedTo(v.handles[i].slab, if NoneLive(Held(Without(v.handles, i)), v.handles[i].slab) then Empty else Partial)
  }

  /** A pool without objects gives its empty slabs back. */
  function AfterRenew(l: Lists): Lists {
    Lists(l.free + l.empty, [], [], [])
  }

  /** The operation calls a function of the pool's entry. */
  predicate Uses(c: Config, v: View, op: Op) {
    match op
    case Create => |v.handles| != c.g.nslabs * c.k
    case Destroy(i) => i < |v.handles|
    case Write(i, _, _) => i < |v.handles|
    case _ => false
  }

  /** The operation calls a function that is not set. */
  predicate Wild(c: Config, v: View, op: Op) {
    !v.served && Uses(c, v, op)
  }

  // ----- the handles of the live objects

  /** The handles are those of the live objects, each held once. */
  ghost predicate Holds(handles: seq<Object>, live: set<Object>) {
    && |handles| == |live|
    && forall o {:trigger o in live} {:trigger o in handles} :: o in handles <==> o in live
  }

  lemma HoldsIs(handles: seq<Object>, live: set<Object>)
    requires Holds(handles, live)
    ensures Held(handles) == live
  {
  }

  lemma HoldsMore(handles: seq<Object>, live: set<Object>, o: Object)
    requires Holds(handles, live) && o !in live
    ensures Holds(handles + [o], live + {o})
  {
  }

  lemma {:induction false} HandleSet(handles: seq<Object>) returns (s: set<Object>)
    ensures |s| <= |handles| && forall o :: o in handles <==> o in s
  {
    if handles == [] {
      s := {};
    } else {
      var t := HandleSet(handles[1..]);
      s := t + {handles[0]};
      assert handles == [handles[0]] + handles[1..];
    }
  }

  lemma HoldsLess(handles: seq<Object>, live: set<Object>, i: nat)
    requires Holds(handles, live) && i < |handles|
    ensures handles[i] in live && Holds(Without(handles, i), live - {handles[i]})
    ensures handles[i] !in Without(handles, i)
  {
    var o, rest := handles[i], Without(handles, i);
    assert o in handles;
    assert forall p :: p in handles <==> p in rest || p == o by {
      assert handles == handles[..i] + [o] + handles[i + 1..];
    }
    var s := HandleSet(rest);
    if o in rest {
      SubsetSize(live, s);
    }
  }

  // ----- the view agrees with the system

  ghost predicate Loaded(elems: seq<Elem>, loaded: set<nat>) {
    forall x: nat {:trigger x in loaded} :: x in loaded <==> x < |elems| && !elems[x].Stale?
  }

  /** The device holds what the view says the objects hold. */
  ghost predicate Matches(c: Config, disk: seq<Block>, v: View)
    requires Ok(c) && |disk| == c.g.nlb
  {
    && |v.contents| == |v.handles|
    && forall i {:trigger HeldAt(c, disk, v, i)} :: 0 <= i < |v.handles| ==> HeldAt(c, disk, v, i)
  }

  ghost predicate HeldAt(c: Config, disk: seq<Block>, v: View, i: nat)
    requires Ok(c) && |disk| == c.g.nlb && i < |v.handles| == |v.contents|
  {
    v.handles[i] in All(c) && v.contents[i] == Content(c, disk, v.handles[i])
  }

  lemma MatchesMore(c: Config, disk: seq<Block>, v: View, o: Object, loaded: set<nat>, lists: Lists) returns (v': View)
    requires Ok(c) && |disk| == c.g.nlb && Matches(c, disk, v) && o in All(c)
    ensures v' == View(v.handles + [o], v.contents + [Content(c, disk, o)], loaded, v.served, lists) && Matches(c, disk, v')
  {
    v' := View(v.handles + [o], v.contents + [Content(c, disk, o)], loaded, v.served, lists);
    forall i | 0 <= i < |v'.handles|
      ensures HeldAt(c, disk, v', i)
    {
      assert i < |v.handles| ==> HeldAt(c, disk, v, i);
    }
  }

  lemma MatchesLess(c: Config, disk: seq<Block>, v: View, i: nat, lists: Lists) returns (v': View)
    requires Ok(c) && |disk| == c.g.nlb && Matches(c, disk, v) && i < |v.handles|
    ensures v' == v.(handles := Without(v.handles, i), contents := Without(v.contents, i), lists := lists) && Matches(c, disk, v')
  {
    v' := v.(handles := Without(v.handles, i), contents := Without(v.contents, i), lists := lists);
    forall j | 0 <= j < |v'.handles|
      ensures HeldAt(c, disk, v', j)
    {
      assert HeldAt(c, disk, v, if j < i then j else j + 1);
    }
  }

  lemma MatchesWritten(c: Config, disk: seq<Block>, disk': seq<Block>, v: View, i: nat, d: seq<Block>)
    requires Ok(c) && |disk| == |disk'| == c.g.nlb && Matches(c, disk, v) && i < |v.handles|
    requires v.handles[i] in All(c) && v.handles[i] !in Without(v.handles, i) && d == Content(c, disk', v.handles[i])
    requires forall p :: p in All(c) && p != v.handles[i] ==> Content(c, disk', p) == Content(c, disk, p)
    ensures Matches(c, disk', v.(contents := v.contents[i := d]))
  {
    Elsewhere(v.handles, i);
    var v' := v.(contents := v.contents[i := d]);
    forall j | 0 <= j < |v'.handles|
      ensures HeldAt(c, disk', v', j)
    {
      assert HeldAt(c, disk, v, j);
    }
  }

  lemma MatchesSame(c: Config, disk: seq<Block>, disk': seq<Block>, v: View, v': View)
    requires Ok(c) && |disk| == |disk'| == c.g.nlb && Matches(c, disk, v)
    requires v'.handles == v.handles && v'.contents == v.contents
    requires forall p :: p in All(c) ==> Content(c, disk', p) == Content(c, disk, p)
    ensures Matches(c, disk', v')
  {
    forall j | 0 <= j < |v'.handles|
      ensures HeldAt(c, disk', v', j)
    {
      assert HeldAt(c, disk, v, j);
    }
  }

  ghost predicate Agrees(fs: Flexalloc, v: View)
    reads fs, fs.headers, fs.cache
  {
    && fs.Valid() && Holds(v.handles, fs.LiveSet())
    && Loaded(fs.cache.elems, v.loaded) && Matches(fs.c, fs.cache.disk, v) && (fs.Ready() <==> v.served) && fs.lists == v.lists
  }

  lemma LoadedOne(elems: seq<Elem>, elems': seq<Elem>, x: nat, loaded: set<nat>)
    requires Loaded(elems, loaded) && OthersKept(elems, elems', x) && x < |elems| && !elems'[x].Stale?
    ensures Loaded(elems', loaded + {x})
  {
  }

  lemma LoadedStill(elems: seq<Elem>, elems': seq<Elem>, x: nat, loaded: set<nat>)
    requires Loaded(elems, loaded) && OthersKept(elems, elems', x) && x < |elems| && !elems[x].Stale? && !elems'[x].Stale?
    ensures Loaded(elems', loaded) && x in loaded
  {
  }

  method DoCreate(fs: Flexalloc, handles: seq<Object>, ghost v: View) returns (defined: bool, handles': seq<Object>, ghost v': View)
    requires Agrees(fs, v) && v.handles == handles
    modifies fs`fhead, fs`ftail, fs`fnum, fs`pool, fs`lists, fs`kind, fs.headers, fs.cache`elems
    ensures defined <==> !Wild(fs.c, v, Create)
    ensures defined ==> Agrees(fs, v') && v'.handles == handles' && Next(fs.c, v, Create, v')
    ensures !defined ==> fs.Valid()
  {
    ghost var live, elems := fs.LiveSet(), fs.cache.elems;
    var err, o;
    defined, err, o := fs.ObjectCreate();
    handles', v' := handles, v;
    if defined && err == 0 {
      HoldsMore(handles, live, o);
      handles' := handles + [o];
      HoldsIs(handles, live);
      HoldsIs(handles', fs.LiveSet());
      v' := MatchesMore(fs.c, fs.cache.disk, v, o, v.loaded + {o.slab}, fs.lists);
      LoadedOne(elems, fs.cache.elems, o.slab, v.loaded);
    }
  }

  method DoDestroy(fs: Flexalloc, handles: seq<Object>, ghost v: View, i: nat) returns (defined: bool, handles': seq<Object>, ghost v': View)
    requires Agrees(fs, v) && v.handles == handles && i < |handles|
    modifies fs`pool, fs`lists, fs`kind, fs.headers, fs.cache`elems
    ensures defined <==> v.served
    ensures defined ==> Agrees(fs, v') && v'.handles == handles' && Next(fs.c, v, Destroy(i), v')
    ensures !defined ==> fs.Valid()
  {
    ghost var elems := fs.cache.elems;
    HoldsLess(handles, fs.LiveSet(), i);
    var err;
    defined, err := fs.ObjectDestroy(handles[i]);
    handles', v' := handles, v;
    if defined && err == 0 {
      handles' := Without(handles, i);
      HoldsIs(handles', fs.LiveSet());
      v' := MatchesLess(fs.c, fs.cache.disk, v, i, fs.lists);
      LoadedStill(elems, fs.cache.elems, v.handles[i].slab, v.loaded);
    }
  }

  method DoOpen(fs: Flexalloc, handles: seq<Object>, ghost v: View, i: nat) returns (ghost v': View)
    requires Agrees(fs, v) && v.handles == handles && i < |handles|
    modifies fs.cache`elems
    ensures Agrees(fs, v') && v'.handles == handles && Next(fs.c, v, Open(i), v')
  {
    ghost var elems := fs.cache.elems;
    assert v.handles[i] in handles;
    var err := fs.ObjectOpen(handles[i]);
    v' := v.(loaded := v.loaded + {v.handles[i].slab});
    LoadedOne(elems, fs.cache.elems, v.handles[i].slab, v.loaded);
    MatchesSame(fs.c, fs.cache.disk, fs.cache.disk, v, v');
  }

  method DoWrite(fs: Flexalloc, handles: seq<Object>, ghost v: View, i: nat, off: nat, data: seq<Block>)
    returns (defined: bool, ghost v': View)
    requires Agrees(fs, v) && v.handles == handles && i < |handles|
    modifies fs.cache`disk
    ensures defined <==> v.served
    ensures defined ==> Agrees(fs, v') && v'.handles == handles && Next(fs.c, v, Write(i, off, data), v')
    ensures !defined ==> fs.Valid()
  {
    ghost var disk := fs.cache.disk;
    HoldsLess(handles, fs.LiveSet(), i);
    assert HeldAt(fs.c, disk, v, i);
    var err;
    defined, err := fs.ObjectWrite(handles[i], off, data);
    v' := v;
    if defined && err == 0 {
      ghost var d := BlockIo.Spliced(v.contents[i], off, data);
      v' := v.(contents := v.contents[i := d]);
      MatchesWritten(fs.c, disk, fs.cache.disk, v, i, d);
    }
  }

  lemma Elsewhere(handles: seq<Object>, i: nat)
    requires i < |handles| && handles[i] !in Without(handles, i)
    ensures forall j {:trigger handles[j]} :: 0 <= j < |handles| && j != i ==> handles[j] != handles[i]
  {
    forall j | 0 <= j < |handles| && j != i
      ensures handles[j] != handles[i]
    {
      assert handles[j] == Without(handles, i)[if j < i then j else j - 1];
    }
  }

  method DoReopen(fs: Flexalloc, ghost v: View) returns (ghost v': View)
    requires Agrees(fs, v) && fs.PoolHeld()
    modifies fs.cache, fs`funcs
    ensures Agrees(fs, v') && v'.handles == v.handles && Next(fs.c, v, Reopen, v')
  {
    ghost var disk := fs.cache.disk;
    var err := fs.CloseAndOpen();
    v' := v.(loaded := {}, served := fs.c.g.npools != 32);
    MatchesSame(fs.c, disk, fs.cache.disk, v, v');
  }

  method DoFlush(fs: Flexalloc, ghost v: View)
    requires Agrees(fs, v)
    modifies fs.cache
    ensures Agrees(fs, v)
  {
    ghost var disk := fs.cache.disk;
    var err := fs.Sync();
    MatchesSame(fs.c, disk, fs.cache.disk, v, v);
  }

  method DoRenew(fs: Flexalloc, handles: seq<Object>, ghost v: View) returns (ghost v': View)
    requires Agrees(fs, v) && v.handles == handles == [] && fs.PoolHeld()
    modifies fs`fhead, fs`ftail, fs`fnum, fs`pool, fs`lists, fs`kind, fs`funcs, fs.headers, fs.cache`elems, fs.pools.words
    ensures Agrees(fs, v') && v'.handles == handles && Next(fs.c, v, Renew, v') && fs.PoolHeld()
  {
    assert fs.LiveSet() == {};
    var err := fs.RenewPool();
    v' := v.(loaded := {}, served := true, lists := AfterRenew(v.lists));
  }

  method Perform(fs: Flexalloc, handles: seq<Object>, op: Op, ghost v: View) returns (defined: bool, handles': seq<Object>, ghost v': View)
    requires Agrees(fs, v) && v.handles == handles && fs.PoolHeld()
    modifies fs, fs.headers, fs.cache, fs.pools.words
    ensures fs.PoolHeld() && (defined <==> !Wild(fs.c, v, op))
    ensures defined ==> Agrees(fs, v') && v'.handles == handles' && Next(fs.c, v, op, v')
    ensures !defined ==> fs.Valid()
  {
    defined, handles', v' := true, handles, v;
    if op.Flush? || op.Reopen? || op.Renew? {
      v' := PerformOnSystem(fs, handles, op, v);
    } else {
      defined, handles', v' := PerformOnObjects(fs, handles, op, v);
    }
  }

  method PerformOnObjects(fs: Flexalloc, handles: seq<Object>, op: Op, ghost v: View)
    returns (defined: bool, handles': seq<Object>, ghost v': View)
    requires Agrees(fs, v) && v.handles == handles && !op.Flush? && !op.Reopen? && !op.Renew?
    modifies fs`fhead, fs`ftail, fs`fnum, fs`pool, fs`lists, fs`kind, fs.headers, fs.cache
    ensures defined <==> !Wild(fs.c, v, op)
    ensures defined ==> Agrees(fs, v') && v'.handles == handles' && Next(fs.c, v, op, v')
    ensures !defined ==> fs.Valid()
  {
    defined, handles', v' := true, handles, v;
    match op {
      case Create =>
        defined, handles', v' := DoCreate(fs, handles, v);
      case Destroy(i) =>
        if i < |handles| {
          defined, handles', v' := DoDestroy(fs, handles, v, i);
        }
      case Open(i) =>
        if i < |handles| {
          v' := DoOpen(fs, handles, v, i);
        }
      case Write(i, off, data) =>
        if i < |handles| {
          defined, v' := DoWrite(fs, handles, v, i, off, data);
        }
    }
  }

  method PerformOnSystem(fs: Flexalloc, handles: seq<Object>, op: Op, ghost v: View) returns (ghost v': View)
    requires Agrees(fs, v) && v.handles == handles && fs.PoolHeld() && (op.Flush? || op.Reopen? || op.Renew?)
    modifies fs, fs.headers, fs.cache, fs.pools.words
    ensures fs.PoolHeld() && Agrees(fs, v') && v'.handles == handles && Next(fs.c, v, op, v')
  {
    v' := v;
    match op {
      case Flush =>
        DoFlush(fs, v);
      case Reopen =>
        v' := DoReopen(fs, v);
      case Renew =>
        if handles == [] {
          v' := DoRenew(fs, handles, v);
        }
    }
  }

  // ----- whole runs

  /** The views of a client that went through the first operations. */
  ghost predicate Story(c: Config, ops: seq<Op>, views: seq<View>)
    requires 0 < c.n
  {
    && 0 < |views| <= |ops| + 1 && views[0] == Start(c)
    && forall j {:trigger Went(c, ops, views, j)} :: 0 <= j < |views| - 1 ==> Went(c, ops, views, j)
  }

  /** Operation j did what it should. */
  ghost predicate Went(c: Config, ops: seq<Op>, views: seq<View>, j: nat)
    requires 0 < c.n && j + 1 < |views| <= |ops| + 1
  {
    |views[j].contents| == |views[j].handles| && Next(c, views[j], ops[j], views[j + 1]) && !Wild(c, views[j], ops[j])
  }

  lemma StoryGoesOn(c: Config, ops: seq<Op>, views: seq<View>, v0: View, op: Op, v: View)
    requires 0 < c.n && Story(c, ops, views) && |views| <= |ops| && v0 == views[|views| - 1] && op == ops[|views| - 1]
    requires |v0.contents| == |v0.handles| && Next(c, v0, op, v) && !Wild(c, v0, op)
    ensures Story(c, ops, views + [v])
    ensures c.g.npools != 32 && v0.served ==> v.served
  {
    var views' := views + [v];
    forall j | 0 <= j < |views'| - 1
      ensures Went(c, ops, views', j)
    {
      assert j < |views| - 1 ==> Went(c, ops, views, j);
    }
  }

  /** The pool's entry: the first one allocated in the freelist of the pools. */
  method ReservePool(npools: nat) returns (pools: Freelist.Flist)
    requires Freelist.HasLen(npools)
    ensures fresh(pools) && fresh(pools.words) && pools.Valid() && pools.len == npools && 0 !in pools.FreeSet()
  {
    pools := new Freelist.Flist(npools);
    ghost var all := pools.FreeSet();
    var ndx := pools.EntriesAlloc(1);
    FirstEntry(all);
  }

  lemma FewPools(c: Config)
    requires Ok(c)
    ensures Freelist.HasLen(c.g.npools)
  {
  }

  /** A formatted system whose pool was just created. */
  method NewSystem(c: Config, disk: seq<Block>) returns (fs: Flexalloc)
    requires Ok(c) && |disk| == c.g.nlb
    ensures fresh(fs) && fresh(fs.headers) && fresh(fs.cache) && fresh(fs.pools.words) && fs.c == c && fs.PoolHeld()
    ensures Agrees(fs, Start(c)) && fs.LiveSet() == {}
  {
    FewPools(c);
    var pools := ReservePool(c.g.npools);
    fs := new Flexalloc(c, disk, pools);
  }

  /**
   Every run of a client, whatever it does with the handles it holds, goes as its views say and keeps the system
   consistent.  It stops before the end exactly at an operation that calls a function of the pool's entry which the
   last reopen has not set, and only with 32 pools is there such a reopen.
   */
  method Run(c: Config, disk: seq<Block>, ops: seq<Op>) returns (fs: Flexalloc, handles: seq<Object>, done: nat, ghost views: seq<View>)
    requires Ok(c) && |disk| == c.g.nlb
    ensures fresh(fs) && fs.Valid() && fs.c == c
    ensures done <= |ops| && |views| == done + 1 && Story(c, ops, views)
    ensures if done == |ops| then Agrees(fs, views[done]) && handles == views[done].handles else Wild(c, views[done], ops[done])
    ensures c.g.npools != 32 ==> done == |ops|
  {
    fs := NewSystem(c, disk);
    handles, done := [], 0;
    views := [Start(c)];
    while done < |ops|
      invariant fresh(fs) && fresh(fs.headers) && fresh(fs.cache) && fresh(fs.pools.words) && fs.c == c && fs.PoolHeld()
      invariant done <= |ops| && |views| == done + 1 && Story(c, ops, views)
      invariant Agrees(fs, views[done]) && handles == views[done].handles
      invariant c.g.npools != 32 ==> views[done].served
    {
      var defined, op := true, ops[done];
      ghost var v0, v := views[done], views[done];
      defined, handles, v := Perform(fs, handles, op, v0);
      if !defined {
        return;
      }
      StoryGoesOn(c, ops, views, v0, op, v);
      views := views + [v];
      done := done + 1;
    }
  }

  method FlushedObject(c: Config, disk: seq<Block>) returns (fs: Flexalloc, o: Object)
    requires Ok(c) && |disk| == c.g.nlb
    ensures fresh(fs) && fresh(fs.headers) && fresh(fs.cache) && fs.c == c && fs.Valid() && fs.Ready()
    ensures fs.LiveSet() == {o} && o in All(c) && !fs.cache.elems[o.slab].Stale?
    ensures OnDisk(c.g, fs.cache.disk, o.slab, c.nobj).len == c.nobj
  {
    fs := NewSystem(c, disk);
    RoomAtStart(c);
    var defined, err;
    defined, err, o := fs.ObjectCreate();
    err := fs.Sync();
    FlushedLength(fs, o);
  }

  method DropPool(fs: Flexalloc, o: Object)
    requires fs.Valid() && fs.Ready() && fs.LiveSet() == {o} && o in All(fs.c) && !fs.cache.elems[o.slab].Stale?
    modifies fs`fhead, fs`ftail, fs`fnum, fs`pool, fs`lists, fs`kind, fs.headers, fs.cache`elems
    ensures fs.Valid() && fs.kind[o.slab].Free?
  {
    var defined, err := fs.ObjectDestroy(o);
    assert fs.LiveSet() == {};
    err := fs.ReleaseAllSlabs();
    AllFree(fs.c, fs.Bk(), fs.lists, fs.kind, fs.Lst());
  }

  /**
   On every system: an object is created, flushed and destroyed and its pool destroyed.  Opening the object by the
   old handle still succeeds, and leaves the freelist of a free slab in the cache.
   */
  method StaleHandleOpens(c: Config, disk: seq<Block>) returns (fs: Flexalloc, err: int)
    requires Ok(c) && |disk| == c.g.nlb
    ensures fresh(fs) && err == 0 && !fs.Valid()
  {
    var o;
    fs, o := FlushedObject(c, disk);
    DropPool(fs, o);
    err := fs.ObjectOpen(o);
  }

  lemma RoomAtStart(c: Config)
    requires Ok(c)
    ensures 0 < c.g.nslabs * c.k
  {
    MulMonotone(1, c.g.nslabs, c.k);
  }

  /** The freelist of a slab with a live object has its length on the device once it is flushed. */
  lemma FlushedLength(fs: Flexalloc, o: Object)
    requires fs.Valid() && o in fs.LiveSet() && fs.cache.elems[o.slab].Clean?
    ensures OnDisk(fs.c.g, fs.cache.disk, o.slab, fs.c.nobj).len == fs.c.nobj
  {
    LoadableSlab(fs.c, fs.headers[..], fs.kind, fs.cache.elems, fs.Lst(), o.slab);
    assert Coherent(fs.c.g, fs.cache.disk, o.slab, fs.cache.elems[o.slab]);
  }

  // ----- systems there are

  /**
   Formatting a device for single-entry objects: when mkfs and pool create accept the sizes, the layout they
   compute is one that the allocator can work on exactly if mkfs works, open finds what mkfs wrote, and entry
   numbers fit into an int.
   */
  method Format(nlb: nat, lb: nat, npools: nat, slabNlb: nat, objNlb: nat) returns (err: int, c: Config)
    requires 512 <= lb && 0 < slabNlb < TWO_32 && 0 < objNlb && nlb < TWO_32 && npools < TWO_32
    ensures err == 0 ==> c.n == 1 && c.k == c.nobj && c.objNlb == objNlb && c.g.nlb == nlb && c.g.lb == lb
    ensures err == 0 ==> c.g.slabNlb == slabNlb && IsMaxObjs(slabNlb, lb, objNlb, c.nobj) && (npools != 0 ==> c.g.npools == npools)
    ensures err != 0 ==> err == 1 || err == -1
    ensures err == 1 ==> forall m: nat :: m > 0 ==> !Fits(slabNlb, objNlb, m, FlistNlb(m, lb))
    ensures err == -1 && npools != 0 ==> NoBetter(nlb, lb, npools, slabNlb, npools)
    ensures err == 0 ==> (Ok(c) <==> MkfsWorks(nlb, lb, npools, slabNlb) && OffsetsFit(c.g) && c.nobj <= TWO_31)
  {
    var g, nobj;
    err, g := MkfsGeoCalc(nlb, lb, npools, slabNlb);
    c := Config(g, objNlb, 0, 1, 0);
    if err != 0 {
      return;
    }
    nobj := CalcObjsInSlab(slabNlb, lb, objNlb);
    if nobj < 1 {
      return 1, c;
    }
    c := c.(nobj := nobj, k := nobj);
    assert Groups(nobj, 1, nobj);
    if OffsetsFit(g) {
      FewSlabs(g);
    }
  }

  /** The small device with three objects of one block in each slab. */
  function SmallConfig(): Config {
    Config(SmallGeo(), 1, 3, 1, 3)
  }

  lemma SmallSystem()
    ensures Ok(SmallConfig())
  {
    SmallGeoIsSound();
    ThreeObjects(512);
  }

  lemma ThreeObjects(lb: nat)
    requires 512 <= lb
    ensures IsMaxObjs(4, lb, 1, 3) && Groups(3, 1, 3)
  {
    CeilDivBound(FlistNbytes(3), lb);
    forall m: nat | m > 3
      ensures !Fits(4, 1, m, FlistNlb(m, lb))
    {
      CeilDivBound(FlistNbytes(m), lb);
    }
  }

  /** A device with one slab of 2,200,067,139 blocks of 4096 bytes, which has 2,200,000,000 objects of one block. */
  function WideSlab(): Config {
    Config(FromSuper(2_200_100_000, 4096, Super(1, 2_200_067_139, 1, 1)), 1, 2_200_000_000, 1, 2_200_000_000)
  }

  /** All of Ok holds there but that entries stay below 2^31, and so LastObjectFails applies. */
  lemma WideSlabIs()
    ensures var c := WideSlab();
      && Sound(c.g) && OffsetsFit(c.g) && IsMaxObjs(c.g.slabNlb, c.g.lb, 1, c.nobj) && Groups(c.nobj, 1, c.k)
      && TWO_31 <= Join(c.k - 1, 0, c.n) && !Ok(c)
  {
    var n := 2_200_000_000;
    assert FlistNlb(n, 4096) == 67_139;
    forall m: nat | m > n
      ensures !Fits(2_200_067_139, 1, m, FlistNlb(m, 4096))
    {
      CeilDivMonotone(FlistNbytes(n), FlistNbytes(m), 4096);
    }
  }

  /** A device of 200 blocks of 4096 bytes with 32 pools and 32 slabs of four blocks. */
  function Config32(): Config {
    Config(FromSuper(200, 4096, Super(32, 4, 32, 1)), 1, 3, 1, 3)
  }

  lemma System32()
    ensures Ok(Config32()) && Config32().g.npools == 32
  {
    ThreeObjects(4096);
  }

  /** With 32 pools the second create of [Create, Reopen, Create] calls a function that is not set. */
  method ReopenFailsAt32(disk: seq<Block>) returns (done: nat)
    requires |disk| == 200
    ensures done == 2
  {
    System32();
    var ops := [Create, Reopen, Create];
    var fs, handles;
    ghost var views;
    fs, handles, done, views := Run(Config32(), disk, ops);
    StoryAt32(Config32(), ops, views, done);
  }

  lemma StoryAt32(c: Config, ops: seq<Op>, views: seq<View>, done: nat)
    requires 0 < c.n && c.g.npools == 32 && c.g.nslabs * c.k == 96 && ops == [Create, Reopen, Create]
    requires Story(c, ops, views) && |views| == done + 1 && (done < 3 ==> Wild(c, views[done], ops[done]))
    ensures done == 2
  {
    if done == 3 {
      assert Went(c, ops, views, 2);
      WildAfterReopen(c, ops, views);
    }
  }

  lemma WildAfterReopen(c: Config, ops: seq<Op>, views: seq<View>)
    requires 0 < c.n && c.g.npools == 32 && c.g.nslabs * c.k == 96 && ops == [Create, Reopen, Create]
    requires Story(c, ops, views) && 3 <= |views|
    ensures Wild(c, views[2], ops[2])
  {
    assert Went(c, ops, views, 0);
    assert Went(c, ops, views, 1);
  }
}
