/**
 The slab freelist cache of src/flexalloc_slabcache.c: a write-back cache of one freelist per slab over
 the device, without a separate metadata device.
 */
module SlabCache {
  import opened SetFacts
  import opened FreeSets
  import opened Geometry
  import opened BlockIo
  import opened FlistImage
  import Freelist

  const INVALID_STATE: int := 5001

  datatype Elem = Stale | Dirty(list: Bitmap) | Clean(list: Bitmap)

  // ----- the freelist of a slab on the device

  /** A list of this length has room in a slab. */
  ghost predicate HasRoom(g: Geo, len: nat) {
    Sound(g) && Freelist.HasLen(len) && FlistNlb(len, g.lb) <= g.slabNlb
  }

  /** cache_entry_lb_slba: the list lies at the end of its slab. */
  function Slba(g: Geo, slab: nat, len: nat): nat
    requires 0 < g.lb && FlistNlb(len, g.lb) <= g.slabNlb
  {
    FlistRange(g, slab, len).lo
  }

  lemma SlbaBound(g: Geo, slab: nat, len: nat)
    requires HasRoom(g, len) && slab < g.nslabs
    ensures Slba(g, slab, len) + FlistNlb(len, g.lb) == SlabRange(g, slab).hi <= g.nlb
    ensures SlabRange(g, slab).lo <= Slba(g, slab, len)
  {
    SlabsApart(g, slab, slab);
  }

  /** What a list of length len reads as on the device. */
  function OnDisk(g: Geo, disk: seq<Block>, slab: nat, len: nat): (l: Bitmap)
    requires HasRoom(g, len) && slab < g.nslabs && |disk| == g.nlb
  {
    SlbaBound(g, slab, len);
    Parse(disk[Slba(g, slab, len)..Slba(g, slab, len) + FlistNlb(len, g.lb)], g.lb)
  }

  /** Blocks outside the list do not matter. */
  lemma OnDiskFrame(g: Geo, disk: seq<Block>, disk': seq<Block>, slab: nat, len: nat)
    requires HasRoom(g, len) && slab < g.nslabs && |disk| == |disk'| == g.nlb
    requires forall i :: FlistRange(g, slab, len).lo <= i < FlistRange(g, slab, len).hi && i < g.nlb ==> disk'[i] == disk[i]
    ensures OnDisk(g, disk', slab, len) == OnDisk(g, disk, slab, len)
  {
    SlbaBound(g, slab, len);
    var lo, hi := Slba(g, slab, len), Slba(g, slab, len) + FlistNlb(len, g.lb);
    assert disk'[lo..hi] == disk[lo..hi];
  }

  function Flushed(g: Geo, disk: seq<Block>, slab: nat, l: Bitmap): (d: seq<Block>)
    requires HasRoom(g, l.len) && slab < g.nslabs && |disk| == g.nlb
    ensures |d| == |disk|
  {
    SlbaBound(g, slab, l.len);
    Spliced(disk, Slba(g, slab, l.len), Image(l, g.lb))
  }

  /** A flushed list reads back. */
  lemma FlushedReads(g: Geo, disk: seq<Block>, slab: nat, l: Bitmap)
    requires HasRoom(g, l.len) && slab < g.nslabs && |disk| == g.nlb && Fitting(l, g.lb)
    ensures OnDisk(g, Flushed(g, disk, slab, l), slab, l.len) == l
  {
    SlbaBound(g, slab, l.len);
    SplicedIs(disk, Slba(g, slab, l.len), Image(l, g.lb));
    ParseImage(l, g.lb);
  }

  lemma SplicedIs<T>(s: seq<T>, at: nat, data: seq<T>)
    requires at + |data| <= |s|
    ensures Spliced(s, at, data)[at..at + |data|] == data
  {
  }

  /** Every other slab's list reads as before. */
  lemma FlushedElsewhere(g: Geo, disk: seq<Block>, slab: nat, l: Bitmap, x: nat, len: nat)
    requires HasRoom(g, l.len) && slab < g.nslabs && |disk| == g.nlb
    requires HasRoom(g, len) && x < g.nslabs && x != slab
    ensures OnDisk(g, Flushed(g, disk, slab, l), x, len) == OnDisk(g, disk, x, len)
  {
    SlbaBound(g, slab, l.len);
    SlbaBound(g, x, len);
    SlabsApart(g, x, slab);
    OnDiskFrame(g, disk, Flushed(g, disk, slab, l), x, len);
  }

  /** Lists of every length read the same for the slab. */
  ghost predicate SameList(g: Geo, disk: seq<Block>, disk': seq<Block>, slab: nat)
    requires Sound(g) && slab < g.nslabs && |disk| == |disk'| == g.nlb
  {
    forall len :: HasRoom(g, len) ==> OnDisk(g, disk', slab, len) == OnDisk(g, disk, slab, len)
  }

  lemma FlushedOthers(g: Geo, disk: seq<Block>, slab: nat, l: Bitmap, x: nat)
    requires HasRoom(g, l.len) && slab < g.nslabs && |disk| == g.nlb && x < g.nslabs && x != slab
    ensures SameList(g, disk, Flushed(g, disk, slab, l), x)
  {
    forall len | HasRoom(g, len)
      ensures OnDisk(g, Flushed(g, disk, slab, l), x, len) == OnDisk(g, disk, x, len)
    {
      FlushedElsewhere(g, disk, slab, l, x, len);
    }
  }

  // ----- coherence

  /** A cached list has its place on the device, and a clean one is what the device holds. */
  ghost predicate Coherent(g: Geo, disk: seq<Block>, slab: nat, e: Elem)
    requires Sound(g) && slab < g.nslabs && |disk| == g.nlb
  {
    e.Stale? || (HasRoom(g, e.list.len) && Fitting(e.list, g.lb) && (e.Clean? ==> OnDisk(g, disk, slab, e.list.len) == e.list))
  }

  /** The list a slab has: the cached one, or else the one on the device. */
  function Logical(g: Geo, disk: seq<Block>, slab: nat, e: Elem, len: nat): Bitmap
    requires HasRoom(g, len) && slab < g.nslabs && |disk| == g.nlb
  {
    if e.Stale? then OnDisk(g, disk, slab, len) else e.list
  }

  /** The lists of all slabs, if they have length len. */
  ghost function Views(g: Geo, disk: seq<Block>, elems: seq<Elem>, len: nat): (vs: seq<Bitmap>)
    requires HasRoom(g, len) && |elems| == g.nslabs && |disk| == g.nlb
    ensures |vs| == g.nslabs && forall x {:trigger vs[x]} :: 0 <= x < |vs| ==> vs[x] == Logical(g, disk, x, elems[x], len)
  {
    seq(g.nslabs, x requires 0 <= x < g.nslabs => Logical(g, disk, x, elems[x], len))
  }

  lemma ViewsUpdate(g: Geo, disk: seq<Block>, elems: seq<Elem>, len: nat, x: nat, e: Elem)
    requires HasRoom(g, len) && |elems| == g.nslabs && |disk| == g.nlb && x < g.nslabs
    ensures Views(g, disk, elems[x := e], len) == Views(g, disk, elems, len)[x := Logical(g, disk, x, e, len)]
  {
  }

  lemma ViewsSame(g: Geo, disk: seq<Block>, disk': seq<Block>, elems: seq<Elem>, elems': seq<Elem>, len: nat)
    requires HasRoom(g, len) && |elems| == |elems'| == g.nslabs && |disk| == |disk'| == g.nlb
    requires forall x :: 0 <= x < |elems| ==> Logical(g, disk', x, elems'[x], len) == Logical(g, disk, x, elems[x], len)
    ensures Views(g, disk', elems', len) == Views(g, disk, elems, len)
  {
  }

  /** Only element x may differ. */
  ghost predicate OthersKept(elems: seq<Elem>, elems': seq<Elem>, x: nat) {
    |elems'| == |elems| && forall y {:trigger elems'[y]} :: 0 <= y < |elems| && y != x ==> elems'[y] == elems[y]
  }

  lemma TakingFits(l: Bitmap, lb: nat, some: set<nat>)
    requires 0 < lb && Fitting(l, lb)
    ensures Fitting(l.(free := l.free - some), lb)
  {
  }

  /** The bit of the entry len lies in the last word, if that word has padding. */
  lemma FreeingFits(l: Bitmap, lb: nat, ndx: nat, num: nat)
    requires 0 < lb && Fitting(l, lb) && (ndx <= l.len < ndx + num ==> l.len % 32 != 0)
    ensures Fitting(l.(free := l.free + Run(ndx, Accepted(l.len, ndx, num))), lb)
  {
    var n := Accepted(l.len, ndx, num);
    forall i | i in Run(ndx, n)
      ensures i < Cap(l.len)
    {
      InLastWord(l.len, i);
    }
  }

  lemma InLastWord(len: nat, i: nat)
    requires i < len || (i == len && len % 32 != 0)
    ensures i < Cap(len)
  {
  }

  /** What freeing num entries from ndx on does to an element; an index above the length ends it with an error. */
  ghost predicate Freed(e: Elem, ndx: nat, num: nat, err: int, e': Elem)
    requires !e.Stale?
  {
    var free := e.list.free + Run(ndx, Accepted(e.list.len, ndx, num));
    if Accepted(e.list.len, ndx, num) == num then err == 0 && e' == Dirty(e.list.(free := free))
    else err == -1 && e' == WithFree(e, free)
  }

  /** A failing call that frees entries of a clean element. */
  ghost predicate SpoilsByFree(e: Elem, ndx: nat, num: nat) {
    e.Clean? && Accepted(e.list.len, ndx, num) != num && !(Run(ndx, Accepted(e.list.len, ndx, num)) <= e.list.free)
  }

  lemma FreeCoherent(g: Geo, disk: seq<Block>, slab: nat, e: Elem, ndx: nat, num: nat, err: int, e': Elem)
    requires Sound(g) && slab < g.nslabs && |disk| == g.nlb && Coherent(g, disk, slab, e) && !e.Stale?
    requires (ndx <= e.list.len < ndx + num ==> e.list.len % 32 != 0) && Freed(e, ndx, num, err, e')
    ensures Coherent(g, disk, slab, e') <==> !SpoilsByFree(e, ndx, num)
  {
    FreeingFits(e.list, g.lb, ndx, num);
    var run := Run(ndx, Accepted(e.list.len, ndx, num));
    if run <= e.list.free {
      assert e.list.free + run == e.list.free;
    }
  }

  function WithFree(e: Elem, s: set<nat>): (e': Elem)
    requires !e.Stale?
    ensures !e'.Stale? && e'.list == e.list.(free := s) && e'.Clean? == e.Clean?
  {
    if e.Clean? then Clean(e.list.(free := s)) else Dirty(e.list.(free := s))
  }

  /** The freelist functions find num entries and return the first as a number that is not negative. */
  predicate CanAlloc(free: set<nat>, num: nat) {
    free != {} && num <= |free| && 0 <= Int32(Min(free))
  }

  /** What allocating num entries does to an element; a failing call takes as many as it can get, too. */
  ghost predicate Allocated(e: Elem, num: nat, err: int, entry: nat, e': Elem)
    requires !e.Stale?
  {
    var free := e.list.free - Lowest(e.list.free, num);
    if CanAlloc(e.list.free, num) then err == 0 && IsMin(e.list.free, entry) && e' == Dirty(e.list.(free := free))
    else err == 1 && e' == WithFree(e, free)
  }

  /** A failing allocation that takes entries of a clean element. */
  predicate Spoils(e: Elem, num: nat) {
    e.Clean? && e.list.free != {} && !CanAlloc(e.list.free, num)
  }

  /** The allocation on a single element, by the freelist in memory. */
  method AllocIn(e: Elem, num: nat) returns (err: int, entry: nat, e': Elem)
    requires !e.Stale? && 0 < num && InWords(e.list)
    ensures Allocated(e, num, err, entry, e')
  {
    var flist := InMemory(e.list);
    var ndx := flist.EntriesAlloc(num);
    e' := WithFree(e, Freelist.Free(flist.words[..]));
    if ndx < 0 {
      return 1, 0, e';
    }
    return 0, ndx, Dirty(e'.list);
  }

  lemma AllocCoherent(g: Geo, disk: seq<Block>, slab: nat, e: Elem, num: nat, err: int, entry: nat, e': Elem)
    requires Sound(g) && slab < g.nslabs && |disk| == g.nlb && Coherent(g, disk, slab, e) && !e.Stale?
    requires 0 < num && Allocated(e, num, err, entry, e')
    ensures Coherent(g, disk, slab, e') <==> !Spoils(e, num)
  {
    TakingFits(e.list, g.lb, Lowest(e.list.free, num));
    if e.list.free == {} {
      assert e.list.free - Lowest(e.list.free, num) == e.list.free;
    } else {
      assert Min(e.list.free) in Lowest(e.list.free, num);
    }
  }

  /** Freeing on a single element, by the freelist in memory. */
  method FreeIn(e: Elem, ndx: nat, num: nat) returns (err: int, e': Elem)
    requires !e.Stale? && InWords(e.list) && (ndx <= e.list.len < ndx + num ==> e.list.len % 32 != 0)
    ensures Freed(e, ndx, num, err, e')
  {
    var flist := InMemory(e.list);
    err := flist.EntriesFree(ndx, num);
    e' := WithFree(e, Freelist.Free(flist.words[..]));
    if err == 0 {
      e' := Dirty(e'.list);
    }
  }

  /** A cached list is one that the freelist functions can work on. */
  ghost predicate InWords(l: Bitmap) {
    Freelist.HasLen(l.len) && forall i :: i in l.free ==> i < Cap(l.len)
  }

  /** A clean element of the small device whose list has two entries, free among them. */
  lemma CleanPair(free: set<nat>) returns (g: Geo, disk: seq<Block>, e: Elem)
    requires free <= {0, 1}
    ensures Sound(g) && |disk| == g.nlb && Coherent(g, disk, 0, e) && e == Clean(Bitmap(2, free, {}))
  {
    SmallGeoIsSound();
    g := SmallGeo();
    var l := Bitmap(2, free, {});
    assert FlistNlb(2, 512) == 1;
    var empty := seq(16, _ => Block({}));
    disk := Flushed(g, empty, 0, l);
    FlushedReads(g, empty, 0, l);
    e := Clean(l);
  }

  /** One free entry of two: a failing call for two entries spoils the element. */
  lemma SpoilingExists() returns (g: Geo, disk: seq<Block>, e: Elem)
    ensures Sound(g) && |disk| == g.nlb && Coherent(g, disk, 0, e) && Spoils(e, 2)
    ensures forall err, entry, e' :: Allocated(e, 2, err, entry, e') ==> err == 1 && !Coherent(g, disk, 0, e')
  {
    g, disk, e := CleanPair({1});
    forall err, entry, e' | Allocated(e, 2, err, entry, e')
      ensures err == 1 && !Coherent(g, disk, 0, e')
    {
      AllocCoherent(g, disk, 0, e, 2, err, entry, e');
    }
  }

  /** No free entry of two: freeing four from the first on fails and spoils the element. */
  lemma SpoilingByFreeExists() returns (g: Geo, disk: seq<Block>, e: Elem)
    ensures Sound(g) && |disk| == g.nlb && Coherent(g, disk, 0, e) && SpoilsByFree(e, 0, 4)
    ensures forall err, e' :: Freed(e, 0, 4, err, e') ==> err == -1 && !Coherent(g, disk, 0, e')
  {
    g, disk, e := CleanPair({});
    assert 0 in Run(0, 3);
    forall err, e' | Freed(e, 0, 4, err, e')
      ensures err == -1 && !Coherent(g, disk, 0, e')
    {
      FreeCoherent(g, disk, 0, e, 0, 4, err, e');
    }
  }

  /** Entry 2^31 is free and no lower one is: asking for one entry fails, and takes it. */
  lemma WideEntryFails(e: Elem, err: int, entry: nat, e': Elem)
    requires !e.Stale? && IsMin(e.list.free, TWO_31) && Allocated(e, 1, err, entry, e')
    ensures err == 1 && e'.list.free == e.list.free - {TWO_31}
  {
    MinUnique(e.list.free, TWO_31, Min(e.list.free));
    assert Lowest(e.list.free - {TWO_31}, 0) == {};
  }

  lemma SameListTransitive(g: Geo, a: seq<Block>, b: seq<Block>, c: seq<Block>, slab: nat)
    requires Sound(g) && slab < g.nslabs && |a| == |b| == |c| == g.nlb
    requires SameList(g, a, b, slab) && SameList(g, b, c, slab)
    ensures SameList(g, a, c, slab)
  {
    forall len | HasRoom(g, len)
      ensures OnDisk(g, c, slab, len) == OnDisk(g, a, slab, len)
    {
      assert OnDisk(g, b, slab, len) == OnDisk(g, a, slab, len);
    }
  }

  lemma CoherentFrame(g: Geo, disk: seq<Block>, disk': seq<Block>, slab: nat, e: Elem)
    requires Sound(g) && slab < g.nslabs && |disk| == |disk'| == g.nlb
    requires Coherent(g, disk, slab, e) && SameList(g, disk, disk', slab)
    ensures Coherent(g, disk', slab, e)
  {
  }

  /** Block i holds no part of the list that flushing slab x writes. */
  ghost predicate Apart(g: Geo, x: nat, e: Elem, i: nat) {
    e.Dirty? && HasRoom(g, e.list.len) ==> !(FlistRange(g, x, e.list.len).lo <= i < FlistRange(g, x, e.list.len).hi)
  }

  ghost predicate ApartFromAll(g: Geo, elems: seq<Elem>, i: nat) {
    forall x {:trigger Apart(g, x, elems[x], i)} :: 0 <= x < |elems| ==> Apart(g, x, elems[x], i)
  }

  /** Blocks that hold no dirty list are as before. */
  ghost predicate OthersSame(g: Geo, elems: seq<Elem>, disk: seq<Block>, disk': seq<Block>) {
    |disk'| == |disk| && forall i {:trigger disk'[i]} :: 0 <= i < |disk| && ApartFromAll(g, elems, i) ==> disk'[i] == disk[i]
  }

  lemma FlushOthersSame(g: Geo, elems: seq<Elem>, start: seq<Block>, disk: seq<Block>, slab: nat)
    requires Sound(g) && slab < g.nslabs == |elems| && |start| == |disk| == g.nlb
    requires elems[slab].Dirty? && HasRoom(g, elems[slab].list.len) && OthersSame(g, elems, start, disk)
    ensures OthersSame(g, elems, start, Flushed(g, disk, slab, elems[slab].list))
  {
    var l := elems[slab].list;
    SlbaBound(g, slab, l.len);
    var disk' := Flushed(g, disk, slab, l);
    forall i | 0 <= i < |disk'| && ApartFromAll(g, elems, i)
      ensures disk'[i] == start[i]
    {
      assert Apart(g, slab, elems[slab], i);
      assert disk[i] == start[i];
    }
  }

  /** A list of len entries, all of them free. */
  ghost predicate Untouched(l: Bitmap, len: nat) {
    l.len == len && l.free == Upto(len)
  }

  /** What a buffer for a list of len entries holds after its words. */
  function Leftover(memory: seq<Block>, lb: nat, len: nat): (s: set<nat>)
    requires 0 < lb
    ensures forall i :: i in s ==> Cap(len) <= i && BlockOf(32 + i, lb) < FlistNlb(len, lb)
  {
    set i | i in Ones(memory, lb, Cap(len), |memory| * (8 * lb)) && BlockOf(32 + i, lb) < FlistNlb(len, lb)
  }

  class Cache {
    const g: Geo
    var elems: seq<Elem>
    var disk: seq<Block>

    ghost predicate Sized()
      reads this
    {
      Sound(g) && |elems| == g.nslabs && |disk| == g.nlb
    }

    ghost predicate Valid()
      reads this
    {
      Sized() && forall x :: 0 <= x < |elems| ==> Coherent(g, disk, x, elems[x])
    }

    /** fla_slab_cache_init over a device. */
    constructor (g: Geo, disk: seq<Block>)
      requires Sound(g) && |disk| == g.nlb
      ensures Valid() && this.g == g && this.disk == disk && elems == seq(g.nslabs, _ => Stale)
    {
      this.g, this.disk := g, disk;
      elems := seq(g.nslabs, _ => Stale);
    }

    /** A slab taken by a pool starts with everything free, in memory only. */
    method ElemInit(slab: nat, len: nat) returns (err: int)
      requires Valid() && slab < g.nslabs && HasRoom(g, len)
      modifies this`elems
      ensures Valid()
      ensures !old(elems[slab]).Stale? ==> err == INVALID_STATE && elems == old(elems)
      ensures old(elems[slab]).Stale? ==>
        err == 0 && elems[slab].Dirty? && Untouched(elems[slab].list, len) && elems == old(elems)[slab := elems[slab]]
    {
      if !elems[slab].Stale? {
        return INVALID_STATE;
      }
      // the buffer is not cleared
      var memory: seq<Block> := *;
      elems := elems[slab := Dirty(Bitmap(len, Upto(len), Leftover(memory, g.lb, len)))];
      return 0;
    }

    /** Loading succeeds exactly for a stale element whose list on the device has the length expected. */
    method ElemLoad(slab: nat, len: nat) returns (err: int)
      requires Valid() && slab < g.nslabs && HasRoom(g, len)
      modifies this`elems
      ensures Valid()
      ensures !old(elems[slab]).Stale? ==> err == INVALID_STATE
      ensures old(elems[slab]).Stale? ==> err == if OnDisk(g, disk, slab, len).len == len then 0 else 1
      ensures err != 0 ==> elems == old(elems)
      ensures err == 0 ==> elems == old(elems)[slab := Clean(OnDisk(g, disk, slab, len))]
    {
      if !elems[slab].Stale? {
        return INVALID_STATE;
      }
      SlbaBound(g, slab, len);
      var slba := Slba(g, slab, len);
      var buf := disk[slba..slba + FlistNlb(len, g.lb)];
      var list := Parse(buf, g.lb);
      if list.len != len {
        return 1;
      }
      ParseFits(buf, g.lb);
      elems := elems[slab := Clean(list)];
      return 0;
    }

    /** After the flush a dirty element is clean; only its own blocks are written. */
    method ElemFlush(slab: nat) returns (err: int)
      requires Valid() && slab < g.nslabs
      modifies this
      ensures Valid() && err == 0
      ensures !old(elems[slab]).Dirty? ==> elems == old(elems) && disk == old(disk)
      ensures old(elems[slab]).Dirty? ==>
        var l := old(elems[slab]).list;
        elems == old(elems)[slab := Clean(l)] && disk == Flushed(g, old(disk), slab, l)
      ensures forall x :: 0 <= x < |elems| && x != slab ==> SameList(g, old(disk), disk, x)
    {
      if !elems[slab].Dirty? {
        return 0;
      }
      var l := elems[slab].list;
      FlushedReads(g, disk, slab, l);
      forall x | 0 <= x < g.nslabs && x != slab
        ensures SameList(g, disk, Flushed(g, disk, slab, l), x) && Coherent(g, Flushed(g, disk, slab, l), x, elems[x])
      {
        FlushedOthers(g, disk, slab, l, x);
        CoherentFrame(g, disk, Flushed(g, disk, slab, l), x, elems[x]);
      }
      disk := Flushed(g, disk, slab, l);
      elems := elems[slab := Clean(l)];
      return 0;
    }

    method ElemDrop(slab: nat)
      requires Valid() && slab < g.nslabs
      modifies this`elems
      ensures Valid() && elems == old(elems)[slab := Stale]
    {
      elems := elems[slab := Stale];
    }

    /**
     Reserves the num lowest free entries.  With fewer than num left the call fails, keeps those it took
     and leaves the state of the element alone: a clean element then no longer is what the device holds.
     */
    method ObjAlloc(slab: nat, num: nat) returns (err: int, entry: nat)
      requires Valid() && slab < g.nslabs && 0 < num
      modifies this`elems
      ensures Sized()
      ensures old(elems[slab]).Stale? ==> err == INVALID_STATE && elems == old(elems)
      ensures !old(elems[slab]).Stale? ==> Allocated(old(elems[slab]), num, err, entry, elems[slab])
      ensures elems == old(elems)[slab := elems[slab]]
      ensures !Spoils(old(elems[slab]), num) ==> Valid()
      ensures Spoils(old(elems[slab]), num) ==> !Coherent(g, disk, slab, elems[slab])
    {
      var e := elems[slab];
      if e.Stale? {
        return INVALID_STATE, 0;
      }
      err, entry, e := AllocIn(e, num);
      AllocCoherent(g, disk, slab, elems[slab], num, err, entry, e);
      elems := elems[slab := e];
    }

    /**
     Frees num entries of a slab from ndx on.  A run past the length fails, keeps what it freed and leaves the
     state of the element alone.
     */
    method ObjFree(slab: nat, ndx: nat, num: nat) returns (err: int)
      requires Valid() && slab < g.nslabs
      requires !elems[slab].Stale? && ndx <= elems[slab].list.len < ndx + num ==> elems[slab].list.len % 32 != 0
      modifies this`elems
      ensures Sized()
      ensures old(elems[slab]).Stale? ==> err == INVALID_STATE && elems == old(elems)
      ensures !old(elems[slab]).Stale? ==> Freed(old(elems[slab]), ndx, num, err, elems[slab])
      ensures elems == old(elems)[slab := elems[slab]]
      ensures !SpoilsByFree(old(elems[slab]), ndx, num) ==> Valid()
      ensures SpoilsByFree(old(elems[slab]), ndx, num) ==> !Coherent(g, disk, slab, elems[slab])
    {
      var e := elems[slab];
      if e.Stale? {
        return INVALID_STATE;
      }
      err, e := FreeIn(e, ndx, num);
      FreeCoherent(g, disk, slab, elems[slab], ndx, num, err, e);
      elems := elems[slab := e];
    }

    /** Flushing everything leaves no element dirty, and every cached list on the device. */
    method Flush() returns (err: int)
      requires Valid()
      modifies this
      ensures Valid() && err == 0
      ensures forall x :: 0 <= x < |elems| ==> elems[x] == if old(elems[x]).Dirty? then Clean(old(elems[x]).list) else old(elems[x])
      ensures forall x :: 0 <= x < |elems| && old(elems[x]).Stale? ==> SameList(g, old(disk), disk, x)
      ensures OthersSame(g, old(elems), old(disk), disk)
    {
      err := 0;
      for slab := 0 to g.nslabs
        invariant Valid() && err == 0
        invariant forall x :: 0 <= x < slab ==> elems[x] == if old(elems[x]).Dirty? then Clean(old(elems[x]).list) else old(elems[x])
        invariant forall x :: slab <= x < |elems| ==> elems[x] == old(elems[x])
        invariant forall x :: 0 <= x < |elems| && old(elems[x]).Stale? ==> SameList(g, old(disk), disk, x)
        invariant OthersSame(g, old(elems), old(disk), disk)
      {
        if elems[slab].Dirty? {
          FlushOthersSame(g, old(elems), old(disk), disk, slab);
        }
        ghost var before := disk;
        var e := ElemFlush(slab);
        if e != 0 {
          err := err + 1;
        }
        forall x | 0 <= x < |elems| && old(elems[x]).Stale?
          ensures SameList(g, old(disk), disk, x)
        {
          if x != slab || before != disk {
            SameListTransitive(g, old(disk), before, disk, x);
          }
        }
      }
    }

    /** Closing frees the cache and opening makes a new one: everything is stale again. */
    method Reopen()
      requires Sized()
      modifies this`elems
      ensures Valid() && elems == seq(g.nslabs, _ => Stale)
    {
      elems := seq(g.nslabs, _ => Stale);
    }

    /** Flush, reopen and load bring every list back. */
    method FlushReopenLoad(slab: nat, len: nat) returns (err: int)
      requires Valid() && slab < g.nslabs && !elems[slab].Stale? && elems[slab].list.len == len
      modifies this
      ensures Valid() && err == 0 && elems[slab] == Clean(old(elems[slab]).list)
    {
      err := Flush();
      assert Coherent(g, disk, slab, elems[slab]);
      Reopen();
      err := ElemLoad(slab, len);
    }
  }
}
