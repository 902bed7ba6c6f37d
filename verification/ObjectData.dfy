/** The blocks of an object, and why writing them disturbs no freelist and no other object. */
module ObjectData {
  import opened Arith
  import opened Geometry
  import opened BlockIo
  import opened FlistImage
  import opened SlabCache
  import opened Occupancy

  /** fla_object_slba and fla_object_elba. */
  function ObjectRange(c: Config, o: Object): Range {
    Range(SlabOff(c.g, o.slab) + c.objNlb * o.entry, SlabOff(c.g, o.slab) + c.objNlb * (o.entry + c.n))
  }

  /** The first object of a slab starts where the slab does, each one where the one before ends. */
  lemma ObjectsTile(c: Config, x: nat, e: nat)
    ensures ObjectRange(c, Object(x, 0)).lo == SlabRange(c.g, x).lo
    ensures ObjectRange(c, Object(x, e + c.n)).lo == ObjectRange(c, Object(x, e)).hi
    ensures ObjectRange(c, Object(x, e)).hi == ObjectRange(c, Object(x, e)).lo + c.objNlb * c.n
  {
    Distribute(e, c.n, c.objNlb);
  }

  /** Object b of a slab starts after b objects. */
  lemma {:induction false} ObjectAt(c: Config, x: nat, b: nat)
    ensures ObjectRange(c, Object(x, Join(b, 0, c.n))).lo == SlabRange(c.g, x).lo + Join(b, 0, c.objNlb * c.n)
  {
    if b == 0 {
      ObjectsTile(c, x, 0);
    } else {
      ObjectAt(c, x, b - 1);
      ObjectsTile(c, x, Join(b - 1, 0, c.n));
      Distribute(b - 1, 1, c.n);
      Distribute(b - 1, 1, c.objNlb * c.n);
    }
  }

  /** The second object of the first slab of the small device has block 6 only. */
  lemma SecondObject()
    ensures ObjectRange(Config(SmallGeo(), 1, 3, 1, 3), Object(0, 1)) == Range(6, 7)
  {
    SmallGeoIsSound();
  }

  /** Positions inside a slab, on plain numbers. */
  lemma Positions(size: nat, entry: nat, n: nat, nobj: nat)
    requires entry + n <= nobj
    ensures size * entry <= size * (entry + n) == size * entry + size * n <= nobj * size
  {
    MulMonotone(entry, entry + n, size);
    MulMonotone(entry + n, nobj, size);
    Distribute(entry, n, size);
  }

  lemma EntriesFit(c: Config, o: Object)
    requires Ok(c) && o in All(c)
    ensures o.slab < c.g.nslabs && o.entry + c.n <= c.nobj
  {
    var b := GroupOfObject(c, o);
    JoinBound(b, c.n - 1, c.n, c.k);
  }

  /** An object lies in its slab, before the slab's freelist. */
  lemma ObjectPlace(c: Config, o: Object)
    requires Ok(c) && o in All(c)
    ensures HasRoom(c.g, c.nobj) && o.slab < c.g.nslabs
    ensures var r := ObjectRange(c, o);
      SlabOff(c.g, o.slab) <= r.lo <= r.hi <= FlistRange(c.g, o.slab, c.nobj).lo && r.hi <= c.g.nlb && r.hi == r.lo + c.objNlb * c.n
  {
    OkHasRoom(c);
    EntriesFit(c, o);
    InsideSlab(SlabOff(c.g, o.slab), c.objNlb, o.entry, c.n, c.nobj, FlistNlb(c.nobj, c.g.lb), c.g.slabNlb);
    SlbaBound(c.g, o.slab, c.nobj);
  }

  lemma InsideSlab(off: nat, size: nat, entry: nat, n: nat, nobj: nat, flist: nat, slab: nat)
    requires nobj * size + flist <= slab && entry + n <= nobj
    ensures off <= off + size * entry <= off + size * (entry + n) <= off + slab - flist
    ensures off + size * (entry + n) == off + size * entry + size * n
  {
    Positions(size, entry, n, nobj);
  }

  /** Different objects have different blocks. */
  lemma ObjectsDisjoint(c: Config, o: Object, p: Object)
    requires Ok(c) && o in All(c) && p in All(c) && o != p
    ensures Disjoint(ObjectRange(c, o), ObjectRange(c, p))
  {
    ObjectPlace(c, o);
    ObjectPlace(c, p);
    if o.slab != p.slab {
      SlabsApart(c.g, o.slab, p.slab);
    } else {
      var a := GroupOfObject(c, o);
      var b := GroupOfObject(c, p);
      GroupsApart(a, b, c.n);
      if o.entry + c.n <= p.entry {
        Positions(c.objNlb, o.entry + c.n, p.entry - (o.entry + c.n), p.entry);
      } else {
        Positions(c.objNlb, p.entry + c.n, o.entry - (p.entry + c.n), o.entry);
      }
    }
  }

  lemma GroupsApart(a: nat, b: nat, n: nat)
    ensures a == b || Join(a, 0, n) + n <= Join(b, 0, n) || Join(b, 0, n) + n <= Join(a, 0, n)
  {
    if a < b {
      MulMonotone(a + 1, b, n);
      Distribute(a, 1, n);
    } else if b < a {
      MulMonotone(b + 1, a, n);
      Distribute(b, 1, n);
    }
  }

  /** No object has a block of a freelist. */
  lemma ObjectsAvoidLists(c: Config, o: Object, x: nat)
    requires Ok(c) && o in All(c) && x < c.g.nslabs
    ensures HasRoom(c.g, c.nobj) && Disjoint(ObjectRange(c, o), FlistRange(c.g, x, c.nobj))
  {
    ObjectPlace(c, o);
    SlbaBound(c.g, x, c.nobj);
    SlbaBound(c.g, o.slab, c.nobj);
    if x != o.slab {
      SlabsApart(c.g, o.slab, x);
    }
  }

  /** What occupies blocks of the device. */
  datatype Item = Meta | Obj(o: Object) | Flist(slab: nat)

  ghost predicate Exists(c: Config, x: Item)
    requires 0 < c.n
  {
    match x
    case Meta => true
    case Obj(o) => o in All(c)
    case Flist(s) => s < c.g.nslabs
  }

  function Place(c: Config, x: Item): Range
    requires 0 < c.g.lb && FlistNlb(c.nobj, c.g.lb) <= c.g.slabNlb
  {
    match x
    case Meta => MetaRange(c.g)
    case Obj(o) => ObjectRange(c, o)
    case Flist(s) => FlistRange(c.g, s, c.nobj)
  }

  lemma ItemPlace(c: Config, x: Item)
    requires Ok(c) && Exists(c, x)
    ensures HasRoom(c.g, c.nobj) && Within(Place(c, x), Range(0, c.g.nlb))
    ensures !x.Meta? ==> c.g.SlabsBase() <= Place(c, x).lo
  {
    OkHasRoom(c);
    SlabsApart(c.g, 0, 0);
    match x {
      case Meta =>
      case Obj(o) =>
        ObjectPlace(c, o);
        SlabsApart(c.g, o.slab, o.slab);
      case Flist(s) =>
        SlabsApart(c.g, s, s);
    }
  }

  /** The super block, pools and slab headers, every object and every freelist have blocks of their own. */
  lemma LayoutIsDisjoint(c: Config, x: Item, y: Item)
    requires Ok(c) && Exists(c, x) && Exists(c, y)
    ensures HasRoom(c.g, c.nobj) && Within(Place(c, x), Range(0, c.g.nlb))
    ensures x != y ==> Disjoint(Place(c, x), Place(c, y))
  {
    ItemPlace(c, x);
    ItemPlace(c, y);
    if x.Obj? && y.Obj? && x != y {
      ObjectsDisjoint(c, x.o, y.o);
    } else if x.Obj? && y.Flist? {
      ObjectsAvoidLists(c, x.o, y.slab);
    } else if x.Flist? && y.Obj? {
      ObjectsAvoidLists(c, y.o, x.slab);
    } else if x.Flist? && y.Flist? {
      SlabsApart(c.g, x.slab, y.slab);
    }
  }

  /** What is stored in an object. */
  function Content(c: Config, disk: seq<Block>, o: Object): (data: seq<Block>)
    requires Ok(c) && o in All(c) && |disk| == c.g.nlb
    ensures |data| == c.objNlb * c.n
  {
    ObjectPlace(c, o);
    disk[ObjectRange(c, o).lo..ObjectRange(c, o).hi]
  }

  lemma ContentFrame(c: Config, disk: seq<Block>, disk': seq<Block>, o: Object)
    requires Ok(c) && o in All(c) && |disk| == |disk'| == c.g.nlb
    requires forall i {:trigger disk'[i]} :: 0 <= i < |disk| && ObjectRange(c, o).lo <= i < ObjectRange(c, o).hi ==> disk'[i] == disk[i]
    ensures Content(c, disk', o) == Content(c, disk, o)
  {
    ObjectPlace(c, o);
  }

  /** The device after data was written into an object from block off on. */
  function Written(c: Config, disk: seq<Block>, o: Object, off: nat, data: seq<Block>): (disk': seq<Block>)
    requires Ok(c) && o in All(c) && |disk| == c.g.nlb && off + |data| <= c.objNlb * c.n
    ensures |disk'| == |disk|
  {
    ObjectPlace(c, o);
    Spliced(disk, ObjectRange(c, o).lo + off, data)
  }

  lemma WriteStores(c: Config, disk: seq<Block>, o: Object, off: nat, data: seq<Block>)
    requires Ok(c) && o in All(c) && |disk| == c.g.nlb && off + |data| <= c.objNlb * c.n
    ensures Content(c, Written(c, disk, o, off, data), o) == Spliced(Content(c, disk, o), off, data)
  {
    ObjectPlace(c, o);
    SliceSplice(disk, ObjectRange(c, o).lo, ObjectRange(c, o).hi, off, data);
  }

  lemma SliceSplice<T>(s: seq<T>, lo: nat, hi: nat, off: nat, data: seq<T>)
    requires lo <= hi <= |s| && lo + off + |data| <= hi
    ensures Spliced(s, lo + off, data)[lo..hi] == Spliced(s[lo..hi], off, data)
  {
  }

  lemma SliceOfSlice<T>(s: seq<T>, lo: nat, hi: nat, off: nat, len: nat)
    requires lo <= hi <= |s| && lo + off + len <= hi
    ensures s[lo..hi][off..off + len] == s[lo + off..lo + off + len]
  {
    var t := s[lo..hi];
    assert forall i {:trigger t[off..off + len][i]} :: 0 <= i < len ==> t[off..off + len][i] == t[off + i];
  }

  lemma WriteElsewhere(c: Config, disk: seq<Block>, o: Object, off: nat, data: seq<Block>, p: Object)
    requires Ok(c) && o in All(c) && p in All(c) && o != p && |disk| == c.g.nlb && off + |data| <= c.objNlb * c.n
    ensures Content(c, Written(c, disk, o, off, data), p) == Content(c, disk, p)
  {
    ObjectPlace(c, o);
    ObjectsDisjoint(c, o, p);
    ContentFrame(c, disk, Written(c, disk, o, off, data), p);
  }

  /** Freelists on the device read as before. */
  lemma WriteKeepsLists(c: Config, disk: seq<Block>, o: Object, off: nat, data: seq<Block>, x: nat)
    requires Ok(c) && o in All(c) && |disk| == c.g.nlb && off + |data| <= c.objNlb * c.n && x < c.g.nslabs
    ensures HasRoom(c.g, c.nobj) && OnDisk(c.g, Written(c, disk, o, off, data), x, c.nobj) == OnDisk(c.g, disk, x, c.nobj)
  {
    ObjectPlace(c, o);
    ObjectsAvoidLists(c, o, x);
    OnDiskFrame(c.g, disk, Written(c, disk, o, off, data), x, c.nobj);
  }

  /** Cached lists have the length of the pool. */
  ghost predicate Uniform(c: Config, elems: seq<Elem>) {
    forall x {:trigger elems[x]} :: 0 <= x < |elems| && !elems[x].Stale? ==> elems[x].list.len == c.nobj
  }

  lemma WriteKeepsViews(c: Config, disk: seq<Block>, elems: seq<Elem>, o: Object, off: nat, data: seq<Block>)
    requires Ok(c) && o in All(c) && |disk| == c.g.nlb && off + |data| <= c.objNlb * c.n && HasRoom(c.g, c.nobj)
    requires |elems| == c.g.nslabs && Uniform(c, elems) && forall x :: 0 <= x < |elems| ==> Coherent(c.g, disk, x, elems[x])
    ensures forall x :: 0 <= x < |elems| ==> Coherent(c.g, Written(c, disk, o, off, data), x, elems[x])
    ensures Views(c.g, Written(c, disk, o, off, data), elems, c.nobj) == Views(c.g, disk, elems, c.nobj)
  {
    var disk' := Written(c, disk, o, off, data);
    forall x | 0 <= x < |elems|
      ensures Coherent(c.g, disk', x, elems[x]) && Logical(c.g, disk', x, elems[x], c.nobj) == Logical(c.g, disk, x, elems[x], c.nobj)
    {
      WriteKeepsLists(c, disk, o, off, data, x);
    }
    ViewsSame(c.g, disk, disk', elems, elems, c.nobj);
  }

  /** Flushing freelists changes no object. */
  lemma FlushKeepsContent(c: Config, elems: seq<Elem>, disk: seq<Block>, disk': seq<Block>, o: Object)
    requires Ok(c) && |elems| == c.g.nslabs && |disk| == c.g.nlb && Uniform(c, elems)
    requires OthersSame(c.g, elems, disk, disk') && o in All(c)
    ensures Content(c, disk', o) == Content(c, disk, o)
  {
    forall i | 0 <= i < |disk| && ObjectRange(c, o).lo <= i < ObjectRange(c, o).hi
      ensures disk'[i] == disk[i]
    {
      forall x | 0 <= x < |elems|
        ensures Apart(c.g, x, elems[x], i)
      {
        ObjectsAvoidLists(c, o, x);
      }
    }
    ContentFrame(c, disk, disk', o);
  }
}
