/**
 The pool directory of src/flexalloc_pool.c: a freelist of pool entries and a hash table from pool names to
 entries.  Names are abstract.
 */
module PoolDir {
  import opened SetFacts
  import opened FreeSets
  import opened HashTable
  import opened Geometry
  import opened Freelist
  import PoolFuncs

  const EINVAL: int := -22
  const NAME_SIZE: nat := 112

  datatype PoolEntry<K> = PoolEntry(name: K, objNlb: nat, slabNobj: nat)

  datatype Handle = Handle(h2: nat, ndx: nat)

  /** What a client asks for. */
  datatype CreateArg<K> = CreateArg(name: K, nameLen: nat, objNlb: nat)

  // ----- the directory as a map from names to entries

  /** The entries no pool has. */
  function Unused<K>(npools: nat, m: map<K, nat>): set<nat> {
    Upto(npools) - m.Values
  }

  /** Every pool's entry carries its name, so that no two pools share one. */
  ghost predicate Corresponds<K>(npools: nat, m: map<K, nat>, entries: seq<PoolEntry<K>>) {
    |entries| == npools && forall k {:trigger m[k]} :: k in m ==> m[k] < npools && entries[m[k]].name == k
  }

  /** As many entries are reserved as there are pools. */
  lemma {:induction false} ValueCount<K>(npools: nat, m: map<K, nat>, entries: seq<PoolEntry<K>>)
    requires Corresponds(npools, m, entries)
    ensures |m.Values| == |m| && m.Values <= Upto(npools)
    decreases |m|
  {
    if m.Keys != {} {
      var k :| k in m.Keys;
      var rest := m - {k};
      assert forall j :: j in rest ==> rest[j] == m[j];
      ValueCount(npools, rest, entries);
      assert m.Values == rest.Values + {m[k]};
      assert m[k] !in rest.Values;
      assert m.Keys == rest.Keys + {k};
    } else {
      assert m.Values == {};
    }
  }

  lemma UnusedCount<K>(npools: nat, m: map<K, nat>, entries: seq<PoolEntry<K>>)
    requires Corresponds(npools, m, entries)
    ensures |Unused(npools, m)| + |m| == npools
  {
    ValueCount(npools, m, entries);
    DifferenceSize(Upto(npools), m.Values);
  }

  lemma AddKeeps<K>(npools: nat, m: map<K, nat>, entries: seq<PoolEntry<K>>, e: PoolEntry<K>, ndx: nat)
    requires Corresponds(npools, m, entries) && ndx in Unused(npools, m) && e.name !in m
    ensures Corresponds(npools, m[e.name := ndx], entries[ndx := e])
    ensures Unused(npools, m[e.name := ndx]) == Unused(npools, m) - {ndx}
  {
    EntryIsNew(m, ndx);
    AddCorresponds(npools, m, entries, e, ndx);
    AddValue(m, e.name, ndx);
  }

  lemma EntryIsNew<K>(m: map<K, nat>, ndx: nat)
    requires ndx !in m.Values
    ensures forall k {:trigger m[k]} :: k in m ==> m[k] != ndx
  {
    forall k | k in m
      ensures m[k] != ndx
    {
      assert m[k] in m.Values;
    }
  }

  lemma AddCorresponds<K>(npools: nat, m: map<K, nat>, entries: seq<PoolEntry<K>>, e: PoolEntry<K>, ndx: nat)
    requires Corresponds(npools, m, entries) && ndx < npools && forall k {:trigger m[k]} :: k in m ==> m[k] != ndx
    ensures Corresponds(npools, m[e.name := ndx], entries[ndx := e])
  {
  }

  lemma AddValue<K>(m: map<K, nat>, k: K, v: nat)
    requires k !in m
    ensures m[k := v].Values == m.Values + {v}
  {
    var m' := m[k := v];
    assert m'[k] == v;
    forall x | x in m.Values
      ensures x in m'.Values
    {
      var j :| j in m && m[j] == x;
      assert m'[j] == x;
    }
    forall x | x in m'.Values
      ensures x in m.Values + {v}
    {
      var j :| j in m' && m'[j] == x;
      assert j != k ==> m[j] == x;
    }
  }

  lemma RemoveKeeps<K>(npools: nat, m: map<K, nat>, entries: seq<PoolEntry<K>>, name: K)
    requires Corresponds(npools, m, entries) && name in m
    ensures Corresponds(npools, m - {name}, entries)
    ensures Unused(npools, m - {name}) == Unused(npools, m) + {m[name]}
  {
    var m' := m - {name};
    assert forall k :: k in m' ==> m'[k] == m[k];
    assert m.Values == m'.Values + {m[name]};
    assert m[name] !in m'.Values;
  }

  /** The freelist and the entries agree with the map. */
  ghost predicate Directory<K(!new)>(npools: nat, names: set<K>, m: map<K, nat>, entries: seq<PoolEntry<K>>, free: set<nat>) {
    && Corresponds(npools, m, entries) && free == Unused(npools, m)
    && m.Keys <= names && (forall i {:trigger entries[i]} :: 0 <= i < |entries| ==> entries[i].name in names)
  }

  lemma EmptyDirectory<K(!new)>(npools: nat, names: set<K>, entries: seq<PoolEntry<K>>)
    requires |entries| == npools && forall i :: 0 <= i < |entries| ==> entries[i].name in names
    ensures Directory(npools, names, map[], entries, Upto(npools))
  {
    var none: map<K, nat> := map[];
    assert none.Values == {};
  }

  lemma EnterKeeps<K(!new)>(npools: nat, names: set<K>, m: map<K, nat>, entries: seq<PoolEntry<K>>, free: set<nat>,
                            e: PoolEntry<K>, ndx: nat)
    requires Directory(npools, names, m, entries, free) && IsMin(free, ndx) && e.name in names && e.name !in m
    ensures ndx < npools && Directory(npools, names, m[e.name := ndx], entries[ndx := e], free - Lowest(free, 1))
  {
    LowestOne(free, ndx);
    AddKeeps(npools, m, entries, e, ndx);
  }

  lemma LeaveKeeps<K(!new)>(npools: nat, names: set<K>, m: map<K, nat>, entries: seq<PoolEntry<K>>, free: set<nat>, name: K)
    requires Directory(npools, names, m, entries, free) && name in m
    ensures m[name] < npools && Directory(npools, names, m - {name}, entries, free + FreeSets.Run(m[name], 1))
  {
    RemoveKeeps(npools, m, entries, name);
    assert FreeSets.Run(m[name], 1) == {m[name]};
  }

  lemma FreeLeft<K(!new)>(npools: nat, names: set<K>, m: map<K, nat>, entries: seq<PoolEntry<K>>, free: set<nat>)
    requires Directory(npools, names, m, entries, free)
    ensures |free| + |m| == npools && |Upto(npools) - free| == |m|
    ensures free == {} ==> free - Lowest(free, 1) == free
  {
    UnusedCount(npools, m, entries);
    DifferenceSize(Upto(npools), free);
  }

  lemma LowestOne(s: set<nat>, ndx: nat)
    requires IsMin(s, ndx)
    ensures Lowest(s, 1) == {ndx}
  {
    assert s - Lowest(s, 0) == s;
    LowestStep(s, 0, ndx);
  }

  /** At least one object fits into a slab. */
  ghost predicate SomeObjectFits(slabNlb: nat, lb: nat, objNlb: nat)
    requires 0 < lb
  {
    exists m: nat :: 0 < m && Fits(slabNlb, objNlb, m, FlistNlb(m, lb))
  }

  lemma CountTells(slabNlb: nat, lb: nat, objNlb: nat, n: nat)
    requires 0 < lb && (n > 0 ==> Fits(slabNlb, objNlb, n, FlistNlb(n, lb)))
    requires forall m: nat :: m > n ==> !Fits(slabNlb, objNlb, m, FlistNlb(m, lb))
    ensures 0 < n <==> SomeObjectFits(slabNlb, lb, objNlb)
    ensures 0 < n ==> IsMaxObjs(slabNlb, lb, objNlb, n)
  {
  }

  /** Create makes a new pool. */
  ghost predicate MayCreate<K>(npools: nat, m: map<K, nat>, slabNlb: nat, lb: nat, arg: CreateArg<K>)
    requires 0 < lb
  {
    arg.name !in m && arg.nameLen < NAME_SIZE && SomeObjectFits(slabNlb, lb, arg.objNlb) && |m| < npools
  }

  class Pools<K(!new, ==)> {
    const npools: nat
    const slabNlb: nat
    const lb: nat
    const freelist: Flist
    const htbl: Htbl<K>
    const entries: array<PoolEntry<K>>
    /** The entries whose functions are set in memory. */
    var funcs: set<nat>
    /** The names in use, which the second hash tells apart. */
    ghost const names: set<K>

    ghost predicate Parts()
      reads this, freelist, freelist.words, htbl, htbl.tbl
    {
      && 0 < npools && 0 < lb && slabNlb < TWO_32 && entries.Length == npools
      && freelist.Valid() && freelist.len == npools
      && htbl.Valid() && htbl.size == 2 * npools
      && NoCollision(htbl.h2, names) && (forall k :: k in names ==> htbl.h2(k) != UNSET)
    }

    ghost predicate Valid()
      reads this, freelist, freelist.words, htbl, htbl.tbl, entries
    {
      Parts() && Directory(npools, names, htbl.model, entries[..], freelist.FreeSet())
    }

    /** fla_pool_init: a directory over a freelist, a table and entries that agree. */
    constructor (freelist: Flist, htbl: Htbl<K>, entries: array<PoolEntry<K>>, slabNlb: nat, lb: nat, ghost names: set<K>)
      requires freelist.Valid() && htbl.Valid() && htbl.size == 2 * freelist.len && 0 < lb && slabNlb < TWO_32
      requires NoCollision(htbl.h2, names) && forall k :: k in names ==> htbl.h2(k) != UNSET
      requires Directory(freelist.len, names, htbl.model, entries[..], freelist.FreeSet())
      ensures Valid() && this.freelist == freelist && this.htbl == htbl && this.entries == entries
      ensures npools == freelist.len && this.slabNlb == slabNlb && this.lb == lb && this.names == names
      ensures forall e: nat {:trigger e in funcs} :: e in funcs <==> PoolFuncs.Served(npools, freelist.FreeSet(), e)
    {
      this.freelist, this.htbl, this.entries := freelist, htbl, entries;
      this.npools, this.slabNlb, this.lb, this.names := freelist.len, slabNlb, lb, names;
      new;
      var err;
      err, funcs := PoolFuncs.InitEntryFuncs(freelist);
    }

    /** Every pool has the functions of its entry. */
    ghost predicate AllServed()
      reads this, htbl
    {
      forall k {:trigger htbl.model[k]} :: k in htbl.model ==> htbl.model[k] in funcs
    }

    lemma NameUsable(name: K)
      requires Valid() && name in names
      ensures htbl.Usable(name)
    {
      CollisionFreeSubset(htbl.h2, names, htbl.model.Keys + {name});
    }

    /** Both counts of the consistency check agree, and the table is never more than half full. */
    lemma CountsAgree()
      requires Valid()
      ensures htbl.len == |Upto(npools) - freelist.FreeSet()| <= npools < htbl.size
    {
      FreeLeft(npools, names, htbl.model, entries[..], freelist.FreeSet());
    }

    method Open(name: K) returns (err: int, handle: Handle)
      requires Valid() && name in names
      ensures err == if name in htbl.model then 0 else -1
      ensures err == 0 ==> handle == Handle(htbl.h2(name), htbl.model[name])
    {
      NameUsable(name);
      var found, _ := htbl.Lookup(name);
      if found.None? {
        return -1, Handle(0, 0);
      }
      var e := htbl.tbl[found.value];
      return 0, Handle(e.h2, e.val);
    }

    // One step on the freelist or the table, which leaves the other alone.

    method TakeEntry() returns (ndx: int)
      requires Parts()
      modifies freelist.words
      ensures Parts() && freelist.FreeSet() == old(freelist.FreeSet()) - Lowest(old(freelist.FreeSet()), 1)
      ensures ndx < 0 <==> old(freelist.FreeSet()) == {}
      ensures ndx >= 0 ==> IsMin(old(freelist.FreeSet()), ndx)
    {
      ndx := freelist.EntriesAlloc(1);
    }

    method FreeEntry(ndx: nat) returns (err: int)
      requires Parts() && ndx < npools
      modifies freelist.words
      ensures Parts() && err == 0 && freelist.FreeSet() == old(freelist.FreeSet()) + FreeSets.Run(ndx, 1)
    {
      err := freelist.EntriesFree(ndx, 1);
    }

    method AddName(name: K, ndx: nat) returns (err: int)
      requires Parts() && htbl.Usable(name) && |htbl.model| < htbl.size
      modifies htbl, htbl.tbl
      ensures Parts() && err == 0 && htbl.model == old(htbl.model)[name := ndx]
      ensures freelist.FreeSet() == old(freelist.FreeSet())
    {
      err := htbl.Insert(name, ndx);
    }

    method DropName(name: K)
      requires Parts() && htbl.Usable(name)
      modifies htbl, htbl.tbl
      ensures Parts() && htbl.model == old(htbl.model) - {name}
      ensures freelist.FreeSet() == old(freelist.FreeSet())
    {
      htbl.Remove(name);
    }

    /** Reserves the lowest unused entry for a new name. */
    method Enter(name: K, objNlb: nat, slabNobj: nat) returns (err: int, handle: Handle)
      requires Valid() && name in names && name !in htbl.model
      modifies freelist.words, htbl, htbl.tbl, entries
      ensures Valid()
      ensures old(|htbl.model|) == npools ==> err == 1 && htbl.model == old(htbl.model) && entries[..] == old(entries[..])
      ensures old(|htbl.model|) < npools ==>
        && err == 0 && handle.h2 == htbl.h2(name) && IsMin(Unused(npools, old(htbl.model)), handle.ndx)
        && handle.ndx < npools && htbl.model == old(htbl.model)[name := handle.ndx]
        && entries[..] == old(entries[..])[handle.ndx := PoolEntry(name, objNlb, slabNobj)]
    {
      var e := PoolEntry(name, objNlb, slabNobj);
      ghost var free := freelist.FreeSet();
      FreeLeft(npools, names, htbl.model, entries[..], free);
      NameUsable(name);
      var ndx := TakeEntry();
      if ndx < 0 {
        return 1, Handle(0, 0);
      }
      EnterKeeps(npools, names, htbl.model, entries[..], free, e, ndx);
      err := Install(e, ndx);
      handle := Handle(htbl.h2(name), ndx);
    }

    /** Enters a pool whose entry has just been reserved. */
    method Install(e: PoolEntry<K>, ndx: nat) returns (err: int)
      requires Parts() && ndx < npools && htbl.Usable(e.name) && |htbl.model| < htbl.size
      requires Directory(npools, names, htbl.model[e.name := ndx], entries[..][ndx := e], freelist.FreeSet())
      modifies htbl, htbl.tbl, entries
      ensures Valid() && err == 0
      ensures htbl.model == old(htbl.model)[e.name := ndx] && entries[..] == old(entries[..])[ndx := e]
    {
      err := AddName(e.name, ndx);
      PutEntry(ndx, e);
    }

    method PutEntry(ndx: nat, e: PoolEntry<K>)
      requires ndx < entries.Length
      modifies entries
      ensures entries[..] == old(entries[..])[ndx := e]
    {
      entries[ndx] := e;
    }

    /** Makes a pool of a name there is no pool of. */
    method CreateNew(arg: CreateArg<K>) returns (err: int, handle: Handle)
      requires Valid() && arg.name in names && 0 < arg.objNlb && arg.name !in htbl.model
      modifies freelist.words, htbl, htbl.tbl, entries
      ensures Valid()
      ensures !MayCreate(npools, old(htbl.model), slabNlb, lb, arg) ==>
        err == 1 && htbl.model == old(htbl.model) && entries[..] == old(entries[..])
      ensures MayCreate(npools, old(htbl.model), slabNlb, lb, arg) ==>
        && err == 0 && handle.h2 == htbl.h2(arg.name)
        && IsMin(Unused(npools, old(htbl.model)), handle.ndx) && handle.ndx < npools
        && htbl.model == old(htbl.model)[arg.name := handle.ndx] && IsMaxObjs(slabNlb, lb, arg.objNlb, entries[handle.ndx].slabNobj)
        && entries[..] == old(entries[..])[handle.ndx := PoolEntry(arg.name, arg.objNlb, entries[handle.ndx].slabNobj)]
    {
      if arg.nameLen >= NAME_SIZE {
        return 1, Handle(0, 0);
      }
      var slabNobj := CalcObjsInSlab(slabNlb, lb, arg.objNlb);
      CountTells(slabNlb, lb, arg.objNlb, slabNobj);
      if slabNobj < 1 {
        return 1, Handle(0, 0);
      }
      CountsAgree();
      err, handle := Enter(arg.name, arg.objNlb, slabNobj);
    }

    method SetFuncs(ndx: nat)
      requires Valid()
      modifies this`funcs
      ensures Valid() && funcs == old(funcs) + {ndx}
    {
      funcs := funcs + {ndx};
    }

    /** Returns the pool of that name, or makes one. */
    method Create(arg: CreateArg<K>) returns (err: int, handle: Handle)
      requires Valid() && arg.name in names && 0 < arg.objNlb
      modifies freelist.words, htbl, htbl.tbl, entries, this`funcs
      ensures Valid()
      ensures arg.name in old(htbl.model) ==>
        var ndx := old(htbl.model)[arg.name];
        err == if old(entries[..])[ndx].objNlb == arg.objNlb then 0 else EINVAL
      ensures arg.name !in old(htbl.model) ==> err == if MayCreate(npools, old(htbl.model), slabNlb, lb, arg) then 0 else 1
      ensures !MayCreate(npools, old(htbl.model), slabNlb, lb, arg) ==>
        htbl.model == old(htbl.model) && entries[..] == old(entries[..]) && funcs == old(funcs)
      ensures MayCreate(npools, old(htbl.model), slabNlb, lb, arg) ==>
        && IsMin(Unused(npools, old(htbl.model)), handle.ndx) && handle.ndx < npools
        && htbl.model == old(htbl.model)[arg.name := handle.ndx] && IsMaxObjs(slabNlb, lb, arg.objNlb, entries[handle.ndx].slabNobj)
        && entries[..] == old(entries[..])[handle.ndx := PoolEntry(arg.name, arg.objNlb, entries[handle.ndx].slabNobj)]
        && funcs == old(funcs) + {handle.ndx}
      ensures err == 0 ==> arg.name in htbl.model && handle == Handle(htbl.h2(arg.name), htbl.model[arg.name])
      ensures old(AllServed()) ==> AllServed()
    {
      err, handle := Open(arg.name);
      if err == 0 {
        if entries[handle.ndx].objNlb != arg.objNlb {
          err := EINVAL;
        }
        return;
      }
      err, handle := CreateNew(arg);
      if err == 0 {
        SetFuncs(handle.ndx);
      }
    }

    lemma HandleInRange(name: K)
      requires Valid() && name in htbl.model
      ensures htbl.model[name] < npools && Names(Handle(htbl.h2(name), htbl.model[name]), name)
      ensures forall k :: Names(Handle(htbl.h2(name), htbl.model[name]), k) ==> k == name
    {
    }

    /** Frees the entry of a pool and takes its name off the table. */
    method Leave(name: K, ndx: nat) returns (err: int)
      requires Valid() && name in htbl.model && htbl.model[name] == ndx
      modifies freelist.words, htbl, htbl.tbl
      ensures Valid() && err == 0 && htbl.model == old(htbl.model) - {name}
    {
      LeaveKeeps(npools, names, htbl.model, entries[..], freelist.FreeSet(), name);
      NameUsable(name);
      err := Strike(name, ndx);
    }

    method Strike(name: K, ndx: nat) returns (err: int)
      requires Parts() && ndx < npools && htbl.Usable(name)
      requires Directory(npools, names, htbl.model - {name}, entries[..], freelist.FreeSet() + FreeSets.Run(ndx, 1))
      modifies freelist.words, htbl, htbl.tbl
      ensures Valid() && err == 0 && htbl.model == old(htbl.model) - {name}
    {
      err := FreeEntry(ndx);
      DropName(name);
    }

    /** The handle of a pool there is. */
    ghost predicate Names(handle: Handle, name: K)
      reads htbl
    {
      name in htbl.model && handle == Handle(htbl.h2(name), htbl.model[name])
    }

    /**
     Destroys the pool of a handle.  released is what releasing its slabs returned; unless that is 0 the pool stays
     and the call returns it.  A handle that no pool has, such as one left over from a destroyed pool, is refused.
     */
    method Destroy(handle: Handle, released: int) returns (err: int, ghost name: K)
      requires Valid() && handle.ndx != npools
      modifies freelist.words, htbl, htbl.tbl
      ensures Valid()
      ensures err == 0 ==> old(Names(handle, name)) && htbl.model == old(htbl.model) - {name}
      ensures err != 0 ==> htbl.model == old(htbl.model) && freelist.FreeSet() == old(freelist.FreeSet())
      ensures (exists k :: old(Names(handle, k))) ==> err == released
      ensures (forall k :: !old(Names(handle, k))) ==> err == 1
    {
      name := entries[0].name;
      if handle.ndx > npools {
        return 1, name;
      }
      var entryName := entries[handle.ndx].name;
      name := entryName;
      NameUsable(entryName);
      ghost var m := htbl.model;
      assert forall k :: Names(handle, k) ==> k == entryName;
      var found, _ := htbl.Lookup(entryName);
      if found.None? {
        return 1, name;
      }
      var e := htbl.tbl[found.value];
      if e.h2 != handle.h2 {
        return 1, name;
      }
      if e.val != handle.ndx {
        return 1, name;
      }
      assert Names(handle, entryName);
      if released != 0 {
        return released, name;
      }
      err := Leave(entryName, handle.ndx);
    }
  }

  // ----- whole runs

  /** Make creates a pool or opens it, Drop opens the pool of a name and destroys it. */
  datatype PoolOp<K> = Make(arg: CreateArg<K>) | Drop(name: K)

  /** What an operation does to the map. */
  ghost function Effect<K>(npools: nat, slabNlb: nat, lb: nat, m: map<K, nat>, op: PoolOp<K>): map<K, nat>
    requires 0 < lb
  {
    match op
    case Make(arg) =>
      if MayCreate(npools, m, slabNlb, lb, arg) && Unused(npools, m) != {} then m[arg.name := Min(Unused(npools, m))] else m
    case Drop(name) => m - {name}
  }

  ghost function Effects<K>(npools: nat, slabNlb: nat, lb: nat, ops: seq<PoolOp<K>>): map<K, nat>
    requires 0 < lb
  {
    if ops == [] then map[] else Effect(npools, slabNlb, lb, Effects(npools, slabNlb, lb, ops[..|ops| - 1]), ops[|ops| - 1])
  }

  ghost predicate Proper<K>(names: set<K>, op: PoolOp<K>) {
    match op
    case Make(arg) => arg.name in names && 0 < arg.objNlb
    case Drop(name) => name in names
  }

  /** fla_mkfs_pool_sgmt_init: an empty directory; blank is the name a zeroed entry shows. */
  method MkfsPools<K(!new, ==)>(h1: K -> nat, h2: K -> nat, npools: nat, slabNlb: nat, lb: nat, blank: K, ghost names: set<K>)
    returns (p: Pools<K>)
    requires 0 < npools && 2 * npools <= TWO_16 && 0 < lb && slabNlb < TWO_32
    requires blank in names && NoCollision(h2, names) && forall k :: k in names ==> h2(k) != UNSET
    ensures fresh(p) && fresh(p.freelist) && fresh(p.freelist.words) && fresh(p.htbl) && fresh(p.htbl.tbl) && fresh(p.entries)
    ensures p.Valid() && p.htbl.model == map[] && p.htbl.h2 == h2 && p.names == names
    ensures p.npools == npools && p.slabNlb == slabNlb && p.lb == lb
    ensures p.entries[..] == seq(npools, _ => PoolEntry(blank, 0, 0))
  {
    var htbl := new Htbl(h1, h2, 2 * npools);
    var entries := new PoolEntry<K>[npools](_ => PoolEntry(blank, 0, 0));
    ghost var zeroed := seq(npools, _ => PoolEntry(blank, 0, 0));
    assert entries[..] == zeroed;
    EmptyDirectory(npools, names, zeroed);
    var freelist := new Flist(npools);
    assert freelist.FreeSet() == Upto(npools);
    p := new Pools(freelist, htbl, entries, slabNlb, lb, names);
  }

  method Perform<K(!new, ==)>(p: Pools<K>, op: PoolOp<K>)
    requires p.Valid() && Proper(p.names, op)
    modifies p.freelist.words, p.htbl, p.htbl.tbl, p.entries, p`funcs
    ensures p.Valid() && p.htbl.model == Effect(p.npools, p.slabNlb, p.lb, old(p.htbl.model), op)
    ensures old(p.AllServed()) ==> p.AllServed()
  {
    ghost var m := p.htbl.model;
    match op {
      case Make(arg) =>
        var err, handle := p.Create(arg);
        if MayCreate(p.npools, m, p.slabNlb, p.lb, arg) {
          MinUnique(Unused(p.npools, m), handle.ndx, Min(Unused(p.npools, m)));
        }
      case Drop(name) =>
        DropPool(p, name);
    }
  }

  /** Opens the pool of a name and destroys it. */
  method DropPool<K(!new, ==)>(p: Pools<K>, name: K)
    requires p.Valid() && name in p.names
    modifies p.freelist.words, p.htbl, p.htbl.tbl
    ensures p.Valid() && p.htbl.model == old(p.htbl.model) - {name}
    ensures old(p.AllServed()) ==> p.AllServed()
  {
    var err, handle := p.Open(name);
    if err == 0 {
      p.HandleInRange(name);
      ghost var k;
      err, k := p.Destroy(handle, 0);
    } else {
      assert p.htbl.model - {name} == p.htbl.model;
    }
  }

  /** Any run leaves a directory that stands for the map its operations build. */
  method Run<K(!new, ==)>(h1: K -> nat, h2: K -> nat, npools: nat, slabNlb: nat, lb: nat, blank: K, ghost names: set<K>,
                          ops: seq<PoolOp<K>>) returns (p: Pools<K>)
    requires 0 < npools && 2 * npools <= TWO_16 && 0 < lb && slabNlb < TWO_32
    requires blank in names && NoCollision(h2, names) && forall k :: k in names ==> h2(k) != UNSET
    requires forall i :: 0 <= i < |ops| ==> Proper(names, ops[i])
    ensures fresh(p) && p.Valid() && p.npools == npools
    ensures p.htbl.model == Effects(npools, slabNlb, lb, ops) && p.AllServed()
  {
    p := MkfsPools(h1, h2, npools, slabNlb, lb, blank, names);
    for i := 0 to |ops|
      invariant fresh(p) && fresh(p.freelist.words) && fresh(p.htbl) && fresh(p.htbl.tbl) && fresh(p.entries)
      invariant p.Valid() && p.npools == npools && p.slabNlb == slabNlb && p.lb == lb && p.names == names
      invariant p.htbl.model == Effects(npools, slabNlb, lb, ops[..i]) && p.AllServed()
    {
      EffectsNext(npools, slabNlb, lb, ops, i);
      Perform(p, ops[i]);
    }
    assert ops[..|ops|] == ops;
  }

  lemma EffectsNext<K>(npools: nat, slabNlb: nat, lb: nat, ops: seq<PoolOp<K>>, i: nat)
    requires 0 < lb && i < |ops|
    ensures Effects(npools, slabNlb, lb, ops[..i + 1]) == Effect(npools, slabNlb, lb, Effects(npools, slabNlb, lb, ops[..i]), ops[i])
  {
    assert ops[..i + 1][..i] == ops[..i];
  }

  /** Opening a system again keeps its pools; all have their functions exactly if none lies in a full last word. */
  method Reopen<K(!new, ==)>(p: Pools<K>) returns (p': Pools<K>)
    requires p.Valid()
    ensures fresh(p') && p'.Valid() && p'.htbl == p.htbl && p'.npools == p.npools && p'.names == p.names
    ensures p'.freelist == p.freelist && p'.entries == p.entries && p'.slabNlb == p.slabNlb && p'.lb == p.lb
    ensures forall e: nat {:trigger e in p'.funcs} :: e in p'.funcs <==> PoolFuncs.Served(p.npools, p.freelist.FreeSet(), e)
    ensures p'.AllServed() <==> p.npools % 32 != 0 || forall k :: k in p.htbl.model ==> p.htbl.model[k] < p.npools - 32
  {
    p' := new Pools(p.freelist, p.htbl, p.entries, p.slabNlb, p.lb, p.names);
    ServedPools(p.npools, p.htbl.model, p.entries[..], p.freelist.FreeSet(), p'.funcs);
  }

  lemma ServedPools<K>(npools: nat, m: map<K, nat>, entries: seq<PoolEntry<K>>, free: set<nat>, funcs: set<nat>)
    requires 0 < npools && Corresponds(npools, m, entries) && free == Unused(npools, m)
    requires forall e: nat {:trigger e in funcs} :: e in funcs <==> PoolFuncs.Served(npools, free, e)
    ensures (forall k {:trigger m[k]} :: k in m ==> m[k] in funcs) <==> npools % 32 != 0 || forall k :: k in m ==> m[k] < npools - 32
  {
    forall k | k in m
      ensures m[k] in funcs <==> npools % 32 != 0 || m[k] < npools - 32
    {
      assert m[k] in m.Values;
    }
  }

  /** A pool keeps its entry, and so its handle, until it is destroyed. */
  lemma {:induction false} HandleStays<K>(npools: nat, slabNlb: nat, lb: nat, ops: seq<PoolOp<K>>, more: seq<PoolOp<K>>, name: K)
    requires 0 < lb && name in Effects(npools, slabNlb, lb, ops) && PoolOp.Drop(name) !in more
    ensures name in Effects(npools, slabNlb, lb, ops + more)
    ensures Effects(npools, slabNlb, lb, ops + more)[name] == Effects(npools, slabNlb, lb, ops)[name]
    decreases |more|
  {
    if more == [] {
      assert ops + more == ops;
    } else {
      var front, op := more[..|more| - 1], more[|more| - 1];
      HandleStays(npools, slabNlb, lb, ops, front, name);
      assert (ops + more)[..|ops + more| - 1] == ops + front;
      assert op in more;
    }
  }
}
