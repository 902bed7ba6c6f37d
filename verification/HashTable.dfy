/**
 The Robin Hood hash table of src/flexalloc_hash.c: entries hold a second hash, a value and a
 16-bit probe sequence length.  The hash functions are parameters of the table.
 */
module HashTable {
  import opened RobinHood

  datatype Option<+T> = None | Some(value: T)

  const TWO_64: nat := 0x1_0000_0000_0000_0000
  const TWO_16: nat := 0x1_0000

  /** The marker of an unset entry, all 64 bits set. */
  const UNSET: nat := TWO_64 - 1

  datatype Entry = Entry(h2: nat, val: nat, psl: nat)

  /** Increment of a 16-bit field. */
  function Inc16(p: nat): (r: nat)
    ensures p + 1 < TWO_16 ==> r == p + 1
  {
    (p + 1) % TWO_16
  }

  /** Multiply-add-divide compression of a hash to a table index. */
  function Compress(hash: nat, a: nat, b: nat, n: nat): (r: nat)
    requires n > 0
    ensures r < n
  {
    (a * hash + b) % TWO_64 % n
  }

  /** The naive search of the unit tests: the first index from i on whose second hash is h. */
  function Scan(t: seq<Entry>, h: nat, i: nat): (r: Option<nat>)
    requires i <= |t|
    ensures r.Some? ==> i <= r.value < |t| && t[r.value].h2 == h
    ensures r.Some? ==> forall j :: i <= j < r.value ==> t[j].h2 != h
    ensures r.None? ==> forall j :: i <= j < |t| ==> t[j].h2 != h
    decreases |t| - i
  {
    if i == |t| then None else if t[i].h2 == h then Some(i) else Scan(t, h, i + 1)
  }

  // ----- entries against slots

  /** Entry e is slot s with the key replaced by its second hash. */
  ghost predicate Mirrors<K>(h2: K -> nat, e: Entry, s: Slot<K>) {
    match s
    case Free => e.h2 == UNSET && e.psl == 0
    case Used(k, v, p) => e.h2 == h2(k) && h2(k) != UNSET && e.val == v && e.psl == p
  }

  ghost predicate Mirrored<K>(h2: K -> nat, t: seq<Entry>, g: seq<Slot<K>>) {
    |t| == |g| && forall i {:trigger Mirrors(h2, t[i], g[i])} :: 0 <= i < |t| ==> Mirrors(h2, t[i], g[i])
  }

  ghost predicate Collide<K>(h2: K -> nat, a: K, b: K) {
    h2(a) == h2(b) && a != b
  }

  /** The second hash tells the keys of the set apart. */
  ghost predicate NoCollision<K>(h2: K -> nat, keys: set<K>) {
    forall a, b {:trigger Collide(h2, a, b)} :: a in keys && b in keys ==> !Collide(h2, a, b)
  }

  /** The invariant of a table with entries t that stands for the map m. */
  ghost predicate Consistent<K(!new)>(home: K -> nat, h2: K -> nat, t: seq<Entry>, g: seq<Slot<K>>, m: map<K, nat>) {
    Mirrored(h2, t, g) && Sound(g, home, m) && Anchored(g) && NoCollision(h2, m.Keys)
  }

  /** Equal second hashes mean equal keys. */
  lemma HashTellsKey<K(!new)>(home: K -> nat, h2: K -> nat, t: seq<Entry>, g: seq<Slot<K>>, m: map<K, nat>, key: K,
                              i: nat)
    requires Mirrored(h2, t, g) && Represents(g, m) && NoCollision(h2, m.Keys + {key}) && h2(key) != UNSET && i < |t|
    ensures t[i].h2 == h2(key) <==> Holds(g[i], key)
  {
    assert Mirrors(h2, t[i], g[i]);
    assert g[i].Used? ==> !Collide(h2, g[i].key, key);
  }

  lemma FoundByScan<K(!new)>(home: K -> nat, h2: K -> nat, t: seq<Entry>, g: seq<Slot<K>>, m: map<K, nat>, key: K,
                             i: nat)
    requires Mirrored(h2, t, g) && Represents(g, m) && NoCollision(h2, m.Keys + {key}) && h2(key) != UNSET && i < |t|
    requires Holds(g[i], key)
    ensures Scan(t, h2(key), 0) == Some(i)
  {
    HashTellsKey(home, h2, t, g, m, key, i);
    var r := Scan(t, h2(key), 0);
    HashTellsKey(home, h2, t, g, m, key, r.value);
  }

  lemma AbsentFromScan<K(!new)>(home: K -> nat, h2: K -> nat, t: seq<Entry>, g: seq<Slot<K>>, m: map<K, nat>, key: K)
    requires Mirrored(h2, t, g) && Represents(g, m) && NoCollision(h2, m.Keys + {key}) && h2(key) != UNSET
    requires forall i :: 0 <= i < |t| ==> !Holds(g[i], key)
    ensures Scan(t, h2(key), 0) == None && key !in m
  {
    var r := Scan(t, h2(key), 0);
    if r.Some? {
      HashTellsKey(home, h2, t, g, m, key, r.value);
    }
    if key in m {
      var i := SlotOf(g, m, key);
    }
  }

  // ----- one round of the insertion loop, on values

  /** The loop invariant of an insertion of key and val with the free slot e still ahead. */
  ghost predicate Inserting<K(!new)>(home: K -> nat, h2: K -> nat, t: seq<Entry>, current: Entry, w: Walk<K>,
                                     before: map<K, nat>, key: K, val: nat, e: nat) {
    && Mirrored(h2, t, w.slots) && Mirrors(h2, current, w.cur) && |t| <= TWO_16
    && Carrying(w, home, before, key, val)
    && e < |w.slots| && w.slots[e].Free? && |w.rest| == |before|
    && (!w.swapped ==> Anchored(w.slots))
    && NoCollision(h2, before.Keys + {key})
  }

  lemma MirrorUpdate<K>(h2: K -> nat, t: seq<Entry>, g: seq<Slot<K>>, i: nat, e: Entry, s: Slot<K>)
    requires Mirrored(h2, t, g) && i < |t| && Mirrors(h2, e, s)
    ensures Mirrored(h2, t[i := e], g[i := s])
  {
  }

  /** The keys in play during an insertion are the old ones and the new one. */
  lemma KeysInPlay<K>(w: Walk<K>, h: nat, before: map<K, nat>, key: K, val: nat)
    requires h < |w.slots| && Owes(w, h, before, key, val)
    ensures w.rest.Keys + {w.cur.key} == before.Keys + {key}
  {
    assert before[key := val].Keys == before.Keys + {key};
    assert w.rest[w.cur.key := w.cur.val].Keys == w.rest.Keys + {w.cur.key};
  }

  lemma InsertSwaps<K(!new)>(home: K -> nat, h2: K -> nat, t: seq<Entry>, current: Entry, w: Walk<K>,
                             before: map<K, nat>, key: K, val: nat, e: nat)
    requires Inserting(home, h2, t, current, w, before, key, val, e)
    requires t[w.i].h2 != UNSET && t[w.i].psl < current.psl
    ensures w.slots[w.i].Used? && w.i != e
    ensures Inserting(home, h2, t[w.i := current], t[w.i].(psl := Inc16(t[w.i].psl)), Swapped(w), before, key, val, e)
  {
    assert Mirrors(h2, t[w.i], w.slots[w.i]);
    SwapStep(w, home, before, key, val, e);
    MirrorUpdate(h2, t, w.slots, w.i, current, w.cur);
  }

  lemma InsertSkips<K(!new)>(home: K -> nat, h2: K -> nat, t: seq<Entry>, current: Entry, w: Walk<K>,
                             before: map<K, nat>, key: K, val: nat, e: nat)
    requires Inserting(home, h2, t, current, w, before, key, val, e)
    requires t[w.i].h2 != UNSET && t[w.i].psl >= current.psl && t[w.i].h2 != current.h2
    ensures w.cur.Used? && w.i != e
    ensures Inserting(home, h2, t, current.(psl := Inc16(current.psl)), Skipped(w), before, key, val, e)
  {
    assert Mirrors(h2, t[w.i], w.slots[w.i]);
    SkipStep(w, home, before, key, val, e);
  }

  lemma InsertFills<K(!new)>(home: K -> nat, h2: K -> nat, t: seq<Entry>, current: Entry, w: Walk<K>,
                             before: map<K, nat>, key: K, val: nat, e: nat) returns (f: seq<Slot<K>>)
    requires Inserting(home, h2, t, current, w, before, key, val, e)
    requires t[w.i].h2 == UNSET
    ensures Consistent(home, h2, t[w.i := current], f, before[key := val])
    ensures |before[key := val]| == |before| + 1
  {
    assert Mirrors(h2, t[w.i], w.slots[w.i]);
    FillStep(w, home, before, key, val);
    MirrorUpdate(h2, t, w.slots, w.i, current, w.cur);
    assert before[key := val].Keys == before.Keys + {key};
    f := w.slots[w.i := w.cur];
  }

  lemma InsertUpdates<K(!new)>(home: K -> nat, h2: K -> nat, t: seq<Entry>, current: Entry, w: Walk<K>,
                               before: map<K, nat>, key: K, val: nat, e: nat) returns (f: seq<Slot<K>>)
    requires Inserting(home, h2, t, current, w, before, key, val, e)
    requires t[w.i].h2 != UNSET && t[w.i].psl >= current.psl && t[w.i].h2 == current.h2
    ensures Consistent(home, h2, t[w.i := t[w.i].(val := current.val)], f, before[key := val])
    ensures |before[key := val]| == |before|
  {
    assert Mirrors(h2, t[w.i], w.slots[w.i]);
    assert w.slots[w.i].key in w.rest;
    KeysInPlay(w, home(key), before, key, val);
    assert !Collide(h2, w.slots[w.i].key, w.cur.key);
    MirrorUpdate(h2, t, w.slots, w.i, t[w.i].(val := current.val), w.slots[w.i].(val := val));
    UpdateStep(w, home, before, key, val);
    assert before[key := val].Keys == before.Keys + {key};
    f := w.slots[w.i := w.slots[w.i].(val := val)];
  }

  // ----- one round of the removal loop, on values

  /** The loop invariant of a removal that started at slot r of g and has shifted k entries. */
  ghost predicate Shifting<K(!new)>(h2: K -> nat, t: seq<Entry>, g: seq<Slot<K>>, r: nat, k: nat) {
    && r < |g| && k < |g|
    && Mirrored(h2, t, Shifted(g, r, k))
    && AllPoor(g, r, k)
  }

  lemma ShiftStart<K(!new)>(h2: K -> nat, t: seq<Entry>, g: seq<Slot<K>>, r: nat)
    requires Mirrored(h2, t, g) && r < |g|
    ensures Shifting(h2, t, g, r, 0) && r == At(r, 0, |g|)
  {
    assert Shifted(g, r, 0) == g;
  }

  lemma NextAt(r: nat, k: nat, n: nat)
    requires r < n && k + 1 < n
    ensures Next(At(r, k, n), n) == At(r, k + 1, n)
  {
  }

  /** The slot after the last one shifted; at the end of a whole turn its psl is 0. */
  lemma ShiftMayStop<K(!new)>(h2: K -> nat, t: seq<Entry>, g: seq<Slot<K>>, r: nat, k: nat)
    requires Shifting(h2, t, g, r, k) && Probing(g) && Anchored(g)
    ensures k + 1 == |g| ==> t[Next(At(r, k, |g|), |g|)].psl == 0
    ensures t[Next(At(r, k, |g|), |g|)].psl == 0 ==> ShiftRun(g, r, k)
  {
    var next := Next(At(r, k, |g|), |g|);
    assert Mirrors(h2, t[next], Shifted(g, r, k)[next]);
    if k + 1 == |g| {
      ShiftStops(g, r);
    } else {
      assert next == At(r, k + 1, |g|);
      ShiftOnce(g, r, k);
    }
  }

  lemma ShiftGoesOn<K(!new)>(h2: K -> nat, t: seq<Entry>, g: seq<Slot<K>>, r: nat, k: nat)
    requires Shifting(h2, t, g, r, k) && k + 1 < |g| && t[At(r, k + 1, |g|)].psl != 0
    ensures var next := At(r, k + 1, |g|);
      Shifting(h2, t[At(r, k, |g|) := t[next].(psl := t[next].psl - 1)], g, r, k + 1)
  {
    var next := At(r, k + 1, |g|);
    assert Mirrors(h2, t[next], Shifted(g, r, k)[next]);
    ShiftOnce(g, r, k);
    MirrorUpdate(h2, t, Shifted(g, r, k), At(r, k, |g|), t[next].(psl := t[next].psl - 1), Richer(g[next]));
  }

  lemma RemovalEnds<K(!new)>(home: K -> nat, h2: K -> nat, t: seq<Entry>, g: seq<Slot<K>>, m: map<K, nat>, r: nat, k: nat)
    returns (f: seq<Slot<K>>)
    requires Shifting(h2, t, g, r, k) && ShiftRun(g, r, k)
    requires Sound(g, home, m) && NoCollision(h2, m.Keys) && g[r].Used?
    ensures var e := At(r, k, |g|);
      Consistent(home, h2, t[e := t[e].(h2 := UNSET, psl := 0)], f, m - {g[r].key})
    ensures |m - {g[r].key}| == |m| - 1
  {
    RemovalSound(g, home, m, r, k);
    assert (m - {g[r].key}).Keys == m.Keys - {g[r].key};
    f := Removed(g, r, k);
  }

  class Htbl<K(!new, ==)> {
    /** The slot a key hashes to, and the second hash that stands for the key in an entry. */
    const home: K -> nat
    const h2: K -> nat
    const size: nat
    const tbl: array<Entry>
    var len: nat

    ghost var slots: seq<Slot<K>>
    ghost var model: map<K, nat>

    /** What the code relies on for a key it is handed. */
    ghost predicate Usable(key: K)
      reads this
    {
      h2(key) != UNSET && NoCollision(h2, model.Keys + {key})
    }

    ghost predicate Valid()
      reads this, tbl
    {
      && 0 < size <= TWO_16 && tbl.Length == size
      && (forall k :: home(k) < size)
      && Consistent(home, h2, tbl[..], slots, model)
      && len == |model|
    }

    constructor (h1: K -> nat, h2: K -> nat, size: nat)
      requires 0 < size <= TWO_16
      ensures Valid() && fresh(tbl)
      ensures this.h2 == h2 && this.size == size
      ensures forall k :: home(k) == Compress(h1(k), 31, 5745, size)
      ensures model == map[] && len == 0
    {
      home, this.h2, this.size := (k: K) => Compress(h1(k), 31, 5745, size), h2, size;
      tbl := new Entry[size](_ => Entry(0, 0, 0));
      len := 0;
      slots, model := seq(size, _ => Free), map[];
      new;
      for i := 0 to size
        invariant forall j :: 0 <= j < i ==> tbl[j].h2 == UNSET && tbl[j].psl == 0
        modifies tbl
      {
        tbl[i] := tbl[i].(h2 := UNSET, psl := 0);
      }
      assert Psl(slots[0]) == 0;
    }

    /** The number of entries that are set. */
    lemma LenCountsSetEntries()
      requires Valid()
      ensures |set i: nat | i < size && tbl[i].h2 != UNSET| == len <= size
    {
      assert forall i :: 0 <= i < size ==> Mirrors(h2, tbl[..][i], slots[i]);
      assert (set i: nat | i < size && tbl[i].h2 != UNSET) == UsedSlots(slots);
      UsedCount(slots, model);
      FreeSlotExists(slots, model);
    }

    method Lookup(key: K) returns (r: Option<nat>, ghost probes: nat)
      requires Valid() && Usable(key)
      ensures r.Some? <==> key in model
      ensures r.Some? ==> r.value < size && tbl[r.value].h2 == h2(key) && tbl[r.value].val == model[key]
      ensures r.Some? ==> Holds(slots[r.value], key)
      ensures r == Scan(tbl[..], h2(key), 0)
      ensures probes <= size + 1
    {
      var ndx, psl := home(key), 0;
      var h := h2(key);
      probes := 0;
      while true
        invariant 0 <= psl <= size && probes == psl
        invariant ndx == if psl < size then At(home(key), psl, size) else home(key)
        invariant Passed(slots, home(key), psl, key)
        decreases size + 1 - psl
      {
        probes := probes + 1;
        var entry := tbl[ndx];
        HashTellsKey(home, h2, tbl[..], slots, model, key, ndx);
        assert Mirrors(h2, tbl[..][ndx], slots[ndx]);
        if entry.h2 == h {
          FoundByScan(home, h2, tbl[..], slots, model, key, ndx);
          return Some(ndx), probes;
        } else if entry.h2 == UNSET || entry.psl < psl {
          Absent(slots, home, key, psl);
          AbsentFromScan(home, h2, tbl[..], slots, model, key);
          return None, probes;
        }
        ndx := ndx + 1;
        if ndx == size {
          ndx := 0;
        }
        psl := psl + 1;
      }
    }

    method Put(i: nat, e: Entry)
      requires i < tbl.Length
      modifies tbl
      ensures tbl[..] == old(tbl[..])[i := e]
    {
      tbl[i] := e;
    }

    /** Walks from the home slot, displacing richer entries, to the slot where the insertion ends. */
    method Displace(key: K, val: nat, ghost e: nat) returns (ndx: nat, current: Entry, ghost w: Walk<K>)
      requires Valid() && Usable(key) && e < size && slots[e].Free?
      modifies tbl
      ensures w.i == ndx < size && Inserting(home, h2, tbl[..], current, w, model, key, val, e)
      ensures tbl[ndx].h2 == UNSET || (tbl[ndx].psl >= current.psl && tbl[ndx].h2 == current.h2)
    {
      ndx, current := home(key), Entry(h2(key), val, 0);
      w := Walk(slots, model, Used(key, val, 0), ndx, false);
      while true
        invariant w.i == ndx < size && Inserting(home, h2, tbl[..], current, w, model, key, val, e)
        decreases Off(ndx, e, size)
      {
        ghost var t := tbl[..];
        var entry := tbl[ndx];
        if entry.h2 == UNSET {
          return;
        } else if entry.psl < current.psl {
          InsertSwaps(home, h2, t, current, w, model, key, val, e);
          var tmp := entry;
          Put(ndx, current);
          current := tmp;
          current := current.(psl := Inc16(current.psl));
          w := Swapped(w);
        } else if entry.h2 == current.h2 {
          return;
        } else {
          InsertSkips(home, h2, t, current, w, model, key, val, e);
          current := current.(psl := Inc16(current.psl));
          w := Skipped(w);
        }
        ndx := ndx + 1;
        if ndx == size {
          ndx := 0;
        }
      }
    }

    method Insert(key: K, val: nat) returns (err: nat)
      requires Valid() && Usable(key)
      modifies this, tbl
      ensures Valid()
      ensures old(len) == size ==> err == 2 && model == old(model) && tbl[..] == old(tbl[..])
      ensures old(len) != size ==> err == 0 && model == old(model)[key := val]
    {
      if len == size {
        return 2;
      }
      FreeSlotExists(slots, model);
      ghost var e :| 0 <= e < size && slots[e].Free?;
      var ndx, current;
      ghost var w;
      ndx, current, w := Displace(key, val, e);
      if tbl[ndx].h2 == UNSET {
        Fill(key, val, ndx, current, w, e);
      } else {
        Update(key, val, ndx, current, w, e);
      }
      return 0;
    }

    /** The walk ended at an unset entry. */
    method Fill(ghost key: K, ghost val: nat, ndx: nat, current: Entry, ghost w: Walk<K>, ghost e: nat)
      requires 0 < size <= TWO_16 && tbl.Length == size && (forall k :: home(k) < size) && len == |model|
      requires w.i == ndx < size && Inserting(home, h2, tbl[..], current, w, model, key, val, e) && tbl[ndx].h2 == UNSET
      modifies this, tbl
      ensures Valid() && model == old(model)[key := val]
    {
      slots := InsertFills(home, h2, tbl[..], current, w, model, key, val, e);
      Put(ndx, current);
      len, model := len + 1, model[key := val];
    }

    /** The walk ended at the key's own entry. */
    method Update(ghost key: K, ghost val: nat, ndx: nat, current: Entry, ghost w: Walk<K>, ghost e: nat)
      requires 0 < size <= TWO_16 && tbl.Length == size && (forall k :: home(k) < size) && len == |model|
      requires w.i == ndx < size && Inserting(home, h2, tbl[..], current, w, model, key, val, e)
      requires tbl[ndx].h2 != UNSET && tbl[ndx].psl >= current.psl && tbl[ndx].h2 == current.h2
      modifies this, tbl
      ensures Valid() && model == old(model)[key := val]
    {
      slots := InsertUpdates(home, h2, tbl[..], current, w, model, key, val, e);
      Put(ndx, tbl[ndx].(val := current.val));
      model := model[key := val];
    }

    /** One round of the removal loop: the next entry is at home or unset, or moves back. */
    method ShiftOne(entry: nat, ghost r: nat, ghost k: nat) returns (next: nat, stop: bool)
      requires tbl.Length == size && Probing(slots) && Anchored(slots)
      requires Shifting(h2, tbl[..], slots, r, k) && |slots| == size && entry == At(r, k, size)
      modifies tbl
      ensures stop ==> tbl[..] == old(tbl[..]) && ShiftRun(slots, r, k)
      ensures !stop ==> k + 1 < size && next == At(r, k + 1, size) && Shifting(h2, tbl[..], slots, r, k + 1)
    {
      ghost var t := tbl[..];
      next := entry + 1;
      if next == size {
        next := 0;
      }
      ShiftMayStop(h2, t, slots, r, k);
      if tbl[next].psl == 0 {
        return next, true;
      }
      NextAt(r, k, size);
      ShiftGoesOn(h2, t, slots, r, k);
      Put(entry, tbl[next].(psl := tbl[next].psl - 1));
      stop := false;
    }

    /** Shifts entries back over slot r until the next entry is at home or its slot is free. */
    method ShiftBack(r: nat) returns (entry: nat, ghost k: nat)
      requires tbl.Length == size && r < size
      requires Mirrored(h2, tbl[..], slots) && Probing(slots) && Anchored(slots)
      modifies tbl
      ensures Shifting(h2, tbl[..], slots, r, k) && ShiftRun(slots, r, k) && entry == At(r, k, size)
    {
      entry, k := r, 0;
      ShiftStart(h2, tbl[..], slots, r);
      while true
        invariant Shifting(h2, tbl[..], slots, r, k) && entry == At(r, k, size)
        decreases size - k
      {
        var next, stop := ShiftOne(entry, r, k);
        if stop {
          return;
        }
        entry, k := next, k + 1;
      }
    }

    method Remove(key: K)
      requires Valid() && Usable(key)
      modifies this, tbl
      ensures Valid()
      ensures model == old(model) - {key}
      ensures key !in old(model) ==> tbl[..] == old(tbl[..])
    {
      var found, _ := Lookup(key);
      if found.None? {
        assert model - {key} == model;
        return;
      }
      var entry;
      ghost var k;
      entry, k := ShiftBack(found.value);
      ghost var t := tbl[..];
      slots := RemovalEnds(home, h2, t, slots, model, found.value, k);
      Put(entry, tbl[entry].(h2 := UNSET, psl := 0));
      len := len - 1;
      model := model - {key};
    }
  }

  // ----- whole runs

  datatype Op<K> = Put(key: K, val: nat) | Drop(key: K)

  /** What one operation means on a finite map that can take size bindings. */
  function Apply<K>(size: nat, m: map<K, nat>, op: Op<K>): map<K, nat> {
    match op
    case Put(k, v) => if |m| == size then m else m[k := v]
    case Drop(k) => m - {k}
  }

  function ApplyAll<K>(size: nat, ops: seq<Op<K>>): map<K, nat> {
    if ops == [] then map[] else Apply(size, ApplyAll(size, ops[..|ops| - 1]), ops[|ops| - 1])
  }

  lemma CollisionFreeSubset<K>(h2: K -> nat, keys: set<K>, some: set<K>)
    requires NoCollision(h2, keys) && some <= keys
    ensures NoCollision(h2, some)
  {
  }

  method Perform<K(!new, ==)>(t: Htbl<K>, op: Op<K>, ghost keys: set<K>)
    requires t.Valid() && NoCollision(t.h2, keys) && t.h2(op.key) != UNSET && op.key in keys && t.model.Keys <= keys
    modifies t, t.tbl
    ensures t.Valid() && t.model == Apply(t.size, old(t.model), op) && t.model.Keys <= keys
  {
    CollisionFreeSubset(t.h2, keys, t.model.Keys + {op.key});
    match op {
      case Put(k, v) => var _ := t.Insert(k, v);
      case Drop(k) => t.Remove(k);
    }
  }

  /** Any run from an empty table ends in a table that stands for the map the run builds. */
  method Run<K(!new, ==)>(h1: K -> nat, h2: K -> nat, size: nat, ops: seq<Op<K>>, ghost keys: set<K>)
    returns (t: Htbl<K>)
    requires 0 < size <= TWO_16
    requires NoCollision(h2, keys) && forall k :: k in keys ==> h2(k) != UNSET
    requires forall i :: 0 <= i < |ops| ==> ops[i].key in keys
    ensures fresh(t) && fresh(t.tbl) && t.Valid()
    ensures t.model == ApplyAll(size, ops)
  {
    t := new Htbl(h1, h2, size);
    for i := 0 to |ops|
      invariant t.Valid() && fresh(t) && fresh(t.tbl) && t.h2 == h2 && t.size == size
      invariant t.model == ApplyAll(size, ops[..i]) && t.model.Keys <= keys
    {
      assert ops[..i + 1][..i] == ops[..i];
      Perform(t, ops[i], keys);
    }
    assert ops[..|ops|] == ops;
  }
}
