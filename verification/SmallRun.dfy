/** A run of a client, step by step, on a system of two slabs with three objects each. */
module SmallRun {
  import opened Arith
  import opened SetFacts
  import opened SlabLists
  import opened SlabBook
  import opened FlistImage
  import opened Occupancy
  import opened ClientRuns

  ghost predicate TwoByThree(c: Config) {
    c.n == 1 && c.k == 3 && c.g.nslabs == 2
  }

  /** With one entry for each object, group b starts at entry b. */
  lemma GroupIs(n: nat, b: nat)
    requires n == 1
    ensures Join(b, 0, n) == b
  {
  }

  lemma ObjectsAre(c: Config, x: nat, e: nat)
    requires TwoByThree(c)
    ensures Object(x, e) in All(c) <==> x < 2 && e < 3
  {
    GroupIs(c.n, e);
    if x < 2 && e < 3 {
      ObjectOfGroup(c, x, e);
    }
    if Object(x, e) in All(c) {
      var b := GroupOfObject(c, Object(x, e));
      GroupIs(c.n, b);
    }
  }

  predicate HasAll(held: set<Object>, x: nat) {
    Object(x, 0) in held && Object(x, 1) in held && Object(x, 2) in held
  }

  lemma FullIs(c: Config, held: set<Object>, x: nat)
    requires TwoByThree(c)
    ensures AllLive(c, held, x) <==> HasAll(held, x)
  {
    GroupAt(c, held, x, 0);
    GroupAt(c, held, x, 1);
    GroupAt(c, held, x, 2);
    ThreeGroups(c, held, x);
  }

  lemma GroupAt(c: Config, held: set<Object>, x: nat, b: nat)
    requires TwoByThree(c)
    ensures GroupLive(c, held, x, b) <==> Object(x, b) in held
  {
    GroupIs(c.n, b);
  }

  lemma ThreeGroups(c: Config, held: set<Object>, x: nat)
    requires c.k == 3
    ensures AllLive(c, held, x) <==> GroupLive(c, held, x, 0) && GroupLive(c, held, x, 1) && GroupLive(c, held, x, 2)
  {
  }

  /** Handles and lists of a view whose slabs below n are loaded. */
  ghost predicate Shows(v: View, handles: seq<Object>, lists: Lists, n: nat) {
    v.handles == handles && |v.contents| == |handles| && v.lists == lists && v.loaded == Upto(n)
  }

  ghost predicate Holes(handles: seq<Object>, x: nat, e: nat) {
    && Object(x, e) !in handles && (e > 0 ==> Object(x, 0) in handles) && (e > 1 ==> Object(x, 1) in handles)
  }

  /** The first hole of a slab is its first object that is not live. */
  lemma HoleIsFirst(c: Config, handles: seq<Object>, o: Object, e: nat)
    requires TwoByThree(c) && e < 3 && Holes(handles, o.slab, e) && IsFirst(c, Held(handles), o)
    ensures o.entry == e
  {
    ObjectsAre(c, o.slab, o.entry);
    ObjectsAre(c, o.slab, e);
    assert Object(o.slab, e) in Held(handles) <==> Object(o.slab, e) in handles;
  }

  lemma CreateStep(c: Config, v: View, v': View, lists: Lists, n: nat, x: nat, e: nat, full: bool, n': nat)
    requires TwoByThree(c) && Shows(v, v.handles, lists, n) && Next(c, v, Create, v') && |v.handles| < 6 && e < 3
    requires (lists.partial != [] || lists.empty != [] || lists.free != []) && Pick(lists) == x
    requires Holes(v.handles, x, e) && full == HasAll(Held(v.handles + [Object(x, e)]), x) && Upto(n') == Upto(n) + {x}
    ensures Shows(v', v.handles + [Object(x, e)], AfterCreate(lists, full), n')
  {
    var o := v'.handles[|v.handles|];
    HoleIsFirst(c, v.handles, o, e);
    FullIs(c, Held(v.handles + [o]), x);
  }

  lemma DestroyStep(c: Config, v: View, v': View, lists: Lists, i: nat, o: Object)
    requires TwoByThree(c) && Shows(v, v.handles, lists, 2) && i < |v.handles| && v.handles[i].slab < 2
    requires Next(c, v, Destroy(i), v') && o in ClientRuns.Without(v.handles, i) && o.slab == v.handles[i].slab
    ensures Shows(v', ClientRuns.Without(v.handles, i), lists.MovedTo(v.handles[i].slab, Partial), 2)
  {
    assert o in Held(ClientRuns.Without(v.handles, i));
  }

  lemma ListsAre()
    ensures AfterCreate(Lists([0, 1], [], [], []), false) == Lists([1], [], [0], [])
    ensures AfterCreate(Lists([1], [], [0], []), false) == Lists([1], [], [0], [])
    ensures AfterCreate(Lists([1], [], [0], []), true) == Lists([1], [], [], [0])
    ensures AfterCreate(Lists([1], [], [], [0]), false) == Lists([], [], [1], [0])
    ensures AfterCreate(Lists([], [], [1], [0]), false) == Lists([], [], [1], [0])
  {
  }

  lemma ListsAreThen()
    ensures Lists([], [], [1], [0]).MovedTo(0, Partial) == Lists([], [], [0, 1], [])
    ensures Lists([], [], [0, 1], []).MovedTo(1, Partial) == Lists([], [], [1, 0], [])
    ensures AfterCreate(Lists([], [], [1, 0], []), false) == Lists([], [], [1, 0], [])
  {
    assert Less([0, 1], 1) == [0] + Less([1], 1);
  }

  /** Five creates, two destroys and a create. */
  function EightOps(): seq<Op> {
    [Create, Create, Create, Create, Create, Destroy(0), Destroy(2), Create]
  }

  /** Objects fill a slab in order; the slab whose object went last comes first, and its first hole is filled first. */
  method EightSteps(disk: seq<Block>) returns (handles: seq<Object>)
    requires |disk| == 16
    ensures handles == [Object(0, 1), Object(0, 2), Object(1, 1), Object(1, 0)]
  {
    SmallSystem();
    var fs, done;
    ghost var views;
    fs, handles, done, views := Run(SmallConfig(), disk, EightOps());
    FiveCreates(SmallConfig(), views);
    ThenThree(SmallConfig(), views);
  }

  lemma StepOf(c: Config, ops: seq<Op>, views: seq<View>, j: nat)
    requires 0 < c.n && Story(c, ops, views) && j + 1 < |views|
    ensures |views[j].contents| == |views[j].handles| && Next(c, views[j], ops[j], views[j + 1])
  {
    assert Went(c, ops, views, j);
  }

  lemma CreateAt(c: Config, views: seq<View>, j: nat, handles: seq<Object>, lists: Lists, n: nat, x: nat, e: nat, full: bool, n': nat,
                 handles': seq<Object>)
    requires TwoByThree(c) && Story(c, EightOps(), views) && j + 1 < |views| && EightOps()[j] == Create
    requires Shows(views[j], handles, lists, n) && |handles| < 6 && e < 3
    requires (lists.partial != [] || lists.empty != [] || lists.free != []) && Pick(lists) == x
    requires Fills(handles, x, e, full, handles') && Upto(n') == Upto(n) + {x}
    ensures Shows(views[j + 1], handles', AfterCreate(lists, full), n')
  {
    StepOf(c, EightOps(), views, j);
    CreateStep(c, views[j], views[j + 1], lists, n, x, e, full, n');
  }

  /** Destroying the object of handle i leaves o in the same slab. */
  ghost predicate Drops(handles: seq<Object>, i: nat, o: Object, handles': seq<Object>) {
    i < |handles| && handles' == ClientRuns.Without(handles, i) && o in handles' && o.slab == handles[i].slab
  }

  lemma DestroyAt(c: Config, views: seq<View>, j: nat, handles: seq<Object>, lists: Lists, i: nat, o: Object, handles': seq<Object>)
    requires TwoByThree(c) && Story(c, EightOps(), views) && j + 1 < |views| && EightOps()[j] == Destroy(i)
    requires Shows(views[j], handles, lists, 2) && i < |handles| && handles[i].slab < 2
    requires Drops(handles, i, o, handles')
    ensures Shows(views[j + 1], handles', lists.MovedTo(handles[i].slab, Partial), 2)
  {
    StepOf(c, EightOps(), views, j);
    DestroyStep(c, views[j], views[j + 1], lists, i, o);
  }

  // the handles after each step
  const H1: seq<Object> := [Object(0, 0)]
  const H2: seq<Object> := [Object(0, 0), Object(0, 1)]
  const H3: seq<Object> := [Object(0, 0), Object(0, 1), Object(0, 2)]
  const H4: seq<Object> := [Object(0, 0), Object(0, 1), Object(0, 2), Object(1, 0)]
  const H5: seq<Object> := [Object(0, 0), Object(0, 1), Object(0, 2), Object(1, 0), Object(1, 1)]
  const H6: seq<Object> := [Object(0, 1), Object(0, 2), Object(1, 0), Object(1, 1)]
  const H7: seq<Object> := [Object(0, 1), Object(0, 2), Object(1, 1)]
  const H8: seq<Object> := [Object(0, 1), Object(0, 2), Object(1, 1), Object(1, 0)]

  /** The hole that a create fills, and whether that fills the slab. */
  ghost predicate Fills(handles: seq<Object>, x: nat, e: nat, full: bool, handles': seq<Object>) {
    Holes(handles, x, e) && handles' == handles + [Object(x, e)] && full == HasAll(Held(handles'), x)
  }

  lemma FirstSlab()
    ensures Fills([], 0, 0, false, H1) && Fills(H1, 0, 1, false, H2) && Fills(H2, 0, 2, true, H3)
  {
    assert Object(0, 0) == H3[0] && Object(0, 1) == H3[1] && Object(0, 2) == H3[2] && Object(0, 0) == H2[0] && Object(0, 1) == H2[1];
  }

  lemma SecondSlab()
    ensures Fills(H3, 1, 0, false, H4) && Fills(H4, 1, 1, false, H5)
  {
    assert Object(1, 0) == H4[3];
  }

  lemma Refill()
    ensures Fills(H7, 1, 0, false, H8) && Drops(H5, 0, Object(0, 1), H6) && Drops(H6, 2, Object(1, 1), H7)
  {
    assert H6[0] == Object(0, 1) && H7[2] == Object(1, 1);
  }

  lemma Begins(c: Config, v: View)
    requires TwoByThree(c) && v == Start(c)
    ensures Shows(v, [], Lists([0, 1], [], [], []), 0)
  {
    assert InOrder(2) == [0, 1] && Upto(0) == {};
  }

  lemma OneCreate(c: Config, views: seq<View>)
    requires TwoByThree(c) && Story(c, EightOps(), views) && |views| == 9
    ensures Shows(views[1], H1, Lists([1], [], [0], []), 1)
  {
    FirstSlab();
    ListsAre();
    Begins(c, views[0]);
    CreateAt(c, views, 0, [], Lists([0, 1], [], [], []), 0, 0, 0, false, 1, H1);
  }

  lemma ThreeCreates(c: Config, views: seq<View>)
    requires TwoByThree(c) && Story(c, EightOps(), views) && |views| == 9
    ensures Shows(views[3], H3, Lists([1], [], [], [0]), 1)
  {
    OneCreate(c, views);
    FirstSlab();
    ListsAre();
    CreateAt(c, views, 1, H1, Lists([1], [], [0], []), 1, 0, 1, false, 1, H2);
    CreateAt(c, views, 2, H2, Lists([1], [], [0], []), 1, 0, 2, true, 1, H3);
  }

  lemma FiveCreates(c: Config, views: seq<View>)
    requires TwoByThree(c) && Story(c, EightOps(), views) && |views| == 9
    ensures Shows(views[5], H5, Lists([], [], [1], [0]), 2)
  {
    ThreeCreates(c, views);
    SecondSlab();
    ListsAre();
    CreateAt(c, views, 3, H3, Lists([1], [], [], [0]), 1, 1, 0, false, 2, H4);
    CreateAt(c, views, 4, H4, Lists([], [], [1], [0]), 2, 1, 1, false, 2, H5);
  }

  lemma OneDestroy(c: Config, views: seq<View>)
    requires TwoByThree(c) && Story(c, EightOps(), views) && |views| == 9 && Shows(views[5], H5, Lists([], [], [1], [0]), 2)
    ensures Shows(views[6], H6, Lists([], [], [0, 1], []), 2)
  {
    Refill();
    ListsAreThen();
    DestroyAt(c, views, 5, H5, Lists([], [], [1], [0]), 0, Object(0, 1), H6);
  }

  lemma TwoDestroys(c: Config, views: seq<View>)
    requires TwoByThree(c) && Story(c, EightOps(), views) && |views| == 9 && Shows(views[6], H6, Lists([], [], [0, 1], []), 2)
    ensures Shows(views[7], H7, Lists([], [], [1, 0], []), 2)
  {
    Refill();
    ListsAreThen();
    DestroyAt(c, views, 6, H6, Lists([], [], [0, 1], []), 2, Object(1, 1), H7);
  }

  lemma ThenThree(c: Config, views: seq<View>)
    requires TwoByThree(c) && Story(c, EightOps(), views) && |views| == 9 && Shows(views[5], H5, Lists([], [], [1], [0]), 2)
    ensures views[8].handles == H8 && views[8].lists == Lists([], [], [1, 0], [])
  {
    OneDestroy(c, views);
    TwoDestroys(c, views);
    Refill();
    ListsAreThen();
    CreateAt(c, views, 7, H7, Lists([], [], [1, 0], []), 2, 1, 0, false, 2, H8);
  }
}
