/**
 The probing theory behind the Robin Hood hash table of src/flexalloc_hash.c.

 A table is seen as a cyclic sequence of slots that name their key.  The home slot of a key is an
 arbitrary function, so the results hold for every pair of hash functions.  Indices wrap by one
 conditional subtraction, as in the code; no modulo arithmetic is needed.
 */
module RobinHood {
  import opened SetFacts

  datatype Slot<K> = Free | Used(key: K, val: nat, psl: nat)

  function Next(i: nat, n: nat): (r: nat)
    requires i < n
    ensures r < n
  {
    if i + 1 == n then 0 else i + 1
  }

  function Prev(i: nat, n: nat): (r: nat)
    requires i < n
    ensures r < n && Next(r, n) == i
  {
    if i == 0 then n - 1 else i - 1
  }

  /** The slot j steps after r. */
  function At(r: nat, j: nat, n: nat): (i: nat)
    requires r < n && j < n
    ensures i < n
  {
    if r + j < n then r + j else r + j - n
  }

  /** The number of steps from r forward to i. */
  function Off(r: nat, i: nat, n: nat): (j: nat)
    requires r < n && i < n
    ensures j < n && At(r, j, n) == i
  {
    if r <= i then i - r else i + n - r
  }

  function Psl<K>(s: Slot<K>): nat {
    if s.Used? then s.psl else 0
  }

  ghost predicate Holds<K>(s: Slot<K>, k: K) {
    s.Used? && s.key == k
  }

  ghost predicate Occurs<K>(g: seq<Slot<K>>, k: K) {
    exists i :: 0 <= i < |g| && Holds(g[i], k)
  }

  // ----- the invariant

  /** Every key sits psl steps after its home. */
  ghost predicate Placed<K(!new)>(g: seq<Slot<K>>, home: K -> nat) {
    forall i :: 0 <= i < |g| && g[i].Used? ==>
      g[i].psl < |g| && home(g[i].key) < |g| && At(home(g[i].key), g[i].psl, |g|) == i
  }

  /** The bound a slot puts on the psl of the slot after it. */
  function Limit<K>(s: Slot<K>): nat {
    if s.Used? then s.psl + 1 else 0
  }

  /** The neighbour relation: psl grows by at most one per step and only behind a used slot. */
  ghost predicate Probing<K>(g: seq<Slot<K>>) {
    forall i {:trigger Next(i, |g|)} :: 0 <= i < |g| ==> Psl(g[Next(i, |g|)]) <= Limit(g[i])
  }

  /** Some slot has psl zero; backward-shift removal needs it to stop. */
  ghost predicate Anchored<K>(g: seq<Slot<K>>) {
    exists i :: 0 <= i < |g| && Psl(g[i]) == 0
  }

  ghost predicate Unique<K>(g: seq<Slot<K>>) {
    forall i, j {:trigger Holds(g[i], g[j].key)} ::
      0 <= i < |g| && 0 <= j < |g| && g[j].Used? && Holds(g[i], g[j].key) ==> i == j
  }

  /** The slots hold exactly the bindings of m, each once. */
  ghost predicate Represents<K>(g: seq<Slot<K>>, m: map<K, nat>) {
    && Unique(g)
    && (forall i :: 0 <= i < |g| && g[i].Used? ==> g[i].key in m && m[g[i].key] == g[i].val)
    && (forall k {:trigger Occurs(g, k)} :: k in m ==> Occurs(g, k))
  }

  lemma SlotOf<K>(g: seq<Slot<K>>, m: map<K, nat>, k: K) returns (i: nat)
    requires Represents(g, m) && k in m
    ensures i < |g| && Holds(g[i], k)
  {
    assert Occurs(g, k);
    i :| 0 <= i < |g| && Holds(g[i], k);
  }

  ghost predicate Sound<K(!new)>(g: seq<Slot<K>>, home: K -> nat, m: map<K, nat>) {
    Placed(g, home) && Probing(g) && Represents(g, m)
  }

  // ----- counting

  ghost function UsedSlots<K>(g: seq<Slot<K>>): set<nat> {
    set i: nat | i < |g| && g[i].Used?
  }

  /** The number of set slots is the number of bindings. */
  lemma {:induction false} UsedCount<K>(g: seq<Slot<K>>, m: map<K, nat>)
    requires Represents(g, m)
    ensures |UsedSlots(g)| == |m|
  {
    forall k | k in m.Keys
      ensures exists i :: i in UsedSlots(g) && i < |g| && Holds(g[i], k)
    {
      var i := SlotOf(g, m, k);
      assert i in UsedSlots(g);
    }
    UsedCountAux(g, m.Keys, UsedSlots(g));
  }

  lemma {:induction false} UsedCountAux<K>(g: seq<Slot<K>>, keys: set<K>, slots: set<nat>)
    requires Unique(g)
    requires forall i :: i in slots ==> i < |g| && g[i].Used? && g[i].key in keys
    requires forall k :: k in keys ==> exists i :: i in slots && i < |g| && Holds(g[i], k)
    ensures |slots| == |keys|
    decreases slots
  {
    if slots == {} {
      assert keys == {};
    } else {
      var i :| i in slots;
      var keys', slots' := keys - {g[i].key}, slots - {i};
      assert forall j :: j in slots' ==> !Holds(g[j], g[i].key);
      UsedCountAux(g, keys', slots');
    }
  }

  /** A table whose count is below its size has a free slot; at its size it has none. */
  lemma FreeSlotExists<K>(g: seq<Slot<K>>, m: map<K, nat>)
    requires Represents(g, m)
    ensures |m| <= |g|
    ensures |m| < |g| <==> exists e :: 0 <= e < |g| && g[e].Free?
  {
    UsedCount(g, m);
    var used, all := UsedSlots(g), Upto(|g|);
    SubsetSize(used, all);
    if |m| < |g| {
      assert !(all <= used) by {
        if all <= used {
          SubsetSize(all, used);
        }
      }
      var e :| e in all && e !in used;
      assert g[e].Free?;
    } else {
      SubsetSameSize(used, all);
      forall e | 0 <= e < |g|
        ensures g[e].Used?
      {
        assert e in all;
      }
    }
  }

  // ----- looking up

  /** Walking back from a key towards its home only meets slots at least as poor as the walk. */
  lemma {:induction false} PathToHome<K(!new)>(g: seq<Slot<K>>, home: K -> nat, i: nat, q: nat)
    requires Placed(g, home) && Probing(g)
    requires i < |g| && g[i].Used? && q <= g[i].psl
    ensures g[At(home(g[i].key), q, |g|)].Used? && g[At(home(g[i].key), q, |g|)].psl >= q
    decreases g[i].psl - q
  {
    if q < g[i].psl {
      PathToHome(g, home, i, q + 1);
      var here := At(home(g[i].key), q, |g|);
      assert Next(here, |g|) == At(home(g[i].key), q + 1, |g|);
    }
  }

  /** Slots home, home+1, ... (j of them) do not hold k. */
  ghost predicate Passed<K>(g: seq<Slot<K>>, h: nat, j: nat, k: K)
    requires h < |g| && j <= |g|
  {
    forall q :: 0 <= q < j ==> !Holds(g[At(h, q, |g|)], k)
  }

  /** The early stop is sound: a free or richer slot, or a whole turn, means k is nowhere. */
  lemma Absent<K(!new)>(g: seq<Slot<K>>, home: K -> nat, k: K, j: nat)
    requires Placed(g, home) && Probing(g)
    requires home(k) < |g| && j <= |g| && Passed(g, home(k), j, k)
    requires j < |g| ==> var s := g[At(home(k), j, |g|)]; s.Free? || s.psl < j
    ensures forall i :: 0 <= i < |g| ==> !Holds(g[i], k)
  {
    forall i | 0 <= i < |g|
      ensures !Holds(g[i], k)
    {
      if Holds(g[i], k) && j <= g[i].psl {
        PathToHome(g, home, i, j);
      }
    }
  }

  // ----- inserting

  /** The entry being carried by an insertion that has arrived at slot i. */
  ghost predicate InFlight<K(!new)>(g: seq<Slot<K>>, home: K -> nat, cur: Slot<K>, i: nat) {
    && i < |g| && cur.Used? && cur.psl < |g|
    && home(cur.key) < |g| && At(home(cur.key), cur.psl, |g|) == i
    && cur.psl <= Limit(g[Prev(i, |g|)])
  }

  /** With a free slot e, psl is bounded by the distance from e. */
  lemma {:induction false} PslBound<K>(g: seq<Slot<K>>, e: nat, q: nat)
    requires Probing(g) && e < |g| && g[e].Free? && q < |g|
    ensures Limit(g[At(e, q, |g|)]) <= q
  {
    if q > 0 {
      PslBound(g, e, q - 1);
      var p := At(e, q - 1, |g|);
      assert Next(p, |g|) == At(e, q, |g|);
      assert Psl(g[Next(p, |g|)]) <= Limit(g[p]);
    }
  }

  /** As long as some slot is free the carried psl stays below the table size. */
  lemma CarryFits<K(!new)>(g: seq<Slot<K>>, home: K -> nat, cur: Slot<K>, i: nat, e: nat)
    requires Probing(g) && InFlight(g, home, cur, i)
    requires e < |g| && g[e].Free? && i != e
    ensures cur.psl + 1 < |g|
    ensures g[i].Used? ==> g[i].psl + 1 < |g|
  {
    var q := Off(e, i, |g|);
    PslBound(g, e, q);
    var p := At(e, q - 1, |g|);
    PslBound(g, e, q - 1);
    assert Next(p, |g|) == i;
  }

  /** Placing the carried entry, in a free slot or in the slot of a richer entry. */
  lemma PlaceKeeps<K(!new)>(g: seq<Slot<K>>, home: K -> nat, cur: Slot<K>, i: nat)
    requires Placed(g, home) && Probing(g) && InFlight(g, home, cur, i)
    requires Limit(g[i]) <= cur.psl
    ensures Placed(g[i := cur], home) && Probing(g[i := cur])
  {
  }

  /** Moving on to the next slot, either with the same entry or with the one just displaced. */
  lemma MoveOn<K(!new)>(g: seq<Slot<K>>, home: K -> nat, cur: Slot<K>, i: nat)
    requires i < |g| && cur.Used? && cur.psl + 1 < |g|
    requires home(cur.key) < |g| && At(home(cur.key), cur.psl, |g|) == i
    requires g[i].Used? && cur.psl <= g[i].psl
    ensures InFlight(g, home, cur.(psl := cur.psl + 1), Next(i, |g|))
  {
  }

  lemma SwapRepresents<K>(g: seq<Slot<K>>, m: map<K, nat>, cur: Slot<K>, i: nat)
    requires Represents(g, m) && i < |g| && g[i].Used? && cur.Used? && cur.key !in m
    ensures Represents(g[i := cur], (m - {g[i].key})[cur.key := cur.val])
  {
    var g', m' := g[i := cur], (m - {g[i].key})[cur.key := cur.val];
    assert Holds(g'[i], cur.key);
    assert forall x :: 0 <= x < |g| && g[x].Used? && x != i ==> !Holds(g[x], g[i].key);
    forall k | k in m'
      ensures Occurs(g', k)
    {
      if k != cur.key {
        var x := SlotOf(g, m, k);
        assert Holds(g'[x], k);
      }
    }
  }

  lemma FillRepresents<K>(g: seq<Slot<K>>, m: map<K, nat>, cur: Slot<K>, i: nat)
    requires Represents(g, m) && i < |g| && g[i].Free? && cur.Used? && cur.key !in m
    ensures Represents(g[i := cur], m[cur.key := cur.val])
  {
    var g', m' := g[i := cur], m[cur.key := cur.val];
    assert Holds(g'[i], cur.key);
    forall k | k in m'
      ensures Occurs(g', k)
    {
      if k != cur.key {
        var x := SlotOf(g, m, k);
        assert Holds(g'[x], k);
      }
    }
  }

  lemma UpdateRepresents<K(!new)>(g: seq<Slot<K>>, home: K -> nat, m: map<K, nat>, i: nat, v: nat)
    requires Sound(g, home, m) && i < |g| && g[i].Used?
    ensures Sound(g[i := g[i].(val := v)], home, m[g[i].key := v])
  {
    var g', m' := g[i := g[i].(val := v)], m[g[i].key := v];
    assert forall x :: 0 <= x < |g| && g[x].Used? && x != i ==> !Holds(g[x], g[i].key);
    forall k | k in m'
      ensures Occurs(g', k)
    {
      var x := SlotOf(g, m, k);
      assert Holds(g'[x], k);
    }
  }

  /** An insertion on its way: it carries cur, has arrived at slot i, and the table holds rest. */
  datatype Walk<K> = Walk(slots: seq<Slot<K>>, rest: map<K, nat>, cur: Slot<K>, i: nat, swapped: bool)

  /**
   Before the first swap the carried entry is the new binding and the table is untouched; afterwards
   it is the one binding of the result that the table does not hold.
   */
  ghost predicate Owes<K>(w: Walk<K>, h: nat, before: map<K, nat>, key: K, val: nat)
    requires h < |w.slots|
  {
    if w.swapped then
      w.cur.Used? && w.cur.key !in w.rest && w.rest[w.cur.key := w.cur.val] == before[key := val]
    else
      w.rest == before && w.cur.Used? && w.cur.key == key && w.cur.val == val && w.cur.psl <= |w.slots|
      && Passed(w.slots, h, w.cur.psl, key)
  }

  ghost predicate Carrying<K(!new)>(w: Walk<K>, home: K -> nat, before: map<K, nat>, key: K, val: nat) {
    && Sound(w.slots, home, w.rest)
    && InFlight(w.slots, home, w.cur, w.i)
    && home(key) < |w.slots|
    && Owes(w, home(key), before, key, val)
  }

  /** At a slot that is free or richer, the carried key is not in the table. */
  lemma CarriedIsAbsent<K(!new)>(w: Walk<K>, home: K -> nat, before: map<K, nat>, key: K, val: nat)
    requires Carrying(w, home, before, key, val)
    requires Limit(w.slots[w.i]) <= w.cur.psl
    ensures w.cur.key !in w.rest && w.rest[w.cur.key := w.cur.val] == before[key := val]
  {
    if !w.swapped {
      Absent(w.slots, home, key, w.cur.psl);
      if key in w.rest {
        var x := SlotOf(w.slots, w.rest, key);
      }
    }
  }

  lemma SwapSound<K(!new)>(g: seq<Slot<K>>, home: K -> nat, m: map<K, nat>, cur: Slot<K>, i: nat)
    requires Sound(g, home, m) && InFlight(g, home, cur, i)
    requires g[i].Used? && g[i].psl < cur.psl && cur.key !in m
    ensures Sound(g[i := cur], home, (m - {g[i].key})[cur.key := cur.val])
  {
    PlaceKeeps(g, home, cur, i);
    SwapRepresents(g, m, cur, i);
  }

  lemma SwapOwes<K>(m: map<K, nat>, out: Slot<K>, cur: Slot<K>)
    requires out.Used? && cur.Used? && out.key in m && m[out.key] == out.val && cur.key !in m
    ensures var m' := (m - {out.key})[cur.key := cur.val];
      out.key !in m' && m'[out.key := out.val] == m[cur.key := cur.val] && |m'| == |m|
  {
    var m' := (m - {out.key})[cur.key := cur.val];
    assert m'.Keys == m.Keys - {out.key} + {cur.key};
  }

  /** The richer entry of slot i is swapped out for the carried one. */
  function Swapped<K>(w: Walk<K>): Walk<K>
    requires w.i < |w.slots| && w.slots[w.i].Used? && w.cur.Used?
  {
    var out := w.slots[w.i];
    Walk(w.slots[w.i := w.cur], (w.rest - {out.key})[w.cur.key := w.cur.val], out.(psl := out.psl + 1),
         Next(w.i, |w.slots|), true)
  }

  lemma SwapStep<K(!new)>(w: Walk<K>, home: K -> nat, before: map<K, nat>, key: K, val: nat, e: nat)
    requires Carrying(w, home, before, key, val)
    requires w.slots[w.i].Used? && w.slots[w.i].psl < w.cur.psl
    requires e < |w.slots| && w.slots[e].Free?
    ensures w.slots[w.i].psl + 1 < |w.slots| && Carrying(Swapped(w), home, before, key, val)
    ensures |Swapped(w).rest| == |w.rest|
  {
    CarriedIsAbsent(w, home, before, key, val);
    CarryFits(w.slots, home, w.cur, w.i, e);
    SwapSound(w.slots, home, w.rest, w.cur, w.i);
    MoveOn(w.slots[w.i := w.cur], home, w.slots[w.i], w.i);
    SwapOwes(w.rest, w.slots[w.i], w.cur);
  }

  /** The carried entry moves past an entry of another key that is at least as poor. */
  function Skipped<K>(w: Walk<K>): Walk<K>
    requires w.i < |w.slots| && w.cur.Used?
  {
    w.(cur := w.cur.(psl := w.cur.psl + 1), i := Next(w.i, |w.slots|))
  }

  lemma SkipStep<K(!new)>(w: Walk<K>, home: K -> nat, before: map<K, nat>, key: K, val: nat, e: nat)
    requires Carrying(w, home, before, key, val)
    requires w.slots[w.i].Used? && w.slots[w.i].psl >= w.cur.psl && w.slots[w.i].key != w.cur.key
    requires e < |w.slots| && w.slots[e].Free?
    ensures w.cur.psl + 1 < |w.slots| && Carrying(Skipped(w), home, before, key, val)
  {
    CarryFits(w.slots, home, w.cur, w.i, e);
    MoveOn(w.slots, home, w.cur, w.i);
  }

  /** Filling a free slot ends the insertion; the slot after it has psl 0, so the table stays anchored. */
  lemma FillStep<K(!new)>(w: Walk<K>, home: K -> nat, before: map<K, nat>, key: K, val: nat)
    requires Carrying(w, home, before, key, val) && w.slots[w.i].Free?
    ensures Sound(w.slots[w.i := w.cur], home, before[key := val]) && Anchored(w.slots[w.i := w.cur])
    ensures |before[key := val]| == |w.rest| + 1
  {
    CarriedIsAbsent(w, home, before, key, val);
    PlaceKeeps(w.slots, home, w.cur, w.i);
    FillRepresents(w.slots, w.rest, w.cur, w.i);
    var z := Next(w.i, |w.slots|);
    assert Psl(w.slots[w.i := w.cur][z]) == 0;
  }

  /** Meeting the carried key itself: it was not swapped yet, and only its value changes. */
  lemma UpdateStep<K(!new)>(w: Walk<K>, home: K -> nat, before: map<K, nat>, key: K, val: nat)
    requires Carrying(w, home, before, key, val) && Holds(w.slots[w.i], w.cur.key)
    ensures !w.swapped && key in before
    ensures Sound(w.slots[w.i := w.slots[w.i].(val := val)], home, before[key := val])
    ensures |before[key := val]| == |before|
    ensures Anchored(w.slots) ==> Anchored(w.slots[w.i := w.slots[w.i].(val := val)])
  {
    UpdateRepresents(w.slots, home, w.rest, w.i, val);
    assert before[key := val].Keys == before.Keys;
    if Anchored(w.slots) {
      var z :| 0 <= z < |w.slots| && Psl(w.slots[z]) == 0;
      assert Psl(w.slots[w.i := w.slots[w.i].(val := val)][z]) == 0;
    }
  }

  // ----- removing

  function Richer<K>(s: Slot<K>): Slot<K> {
    if s.Used? && s.psl > 0 then s.(psl := s.psl - 1) else s
  }

  /** The table after k backward shifts that started at slot r. */
  ghost function Shifted<K>(g: seq<Slot<K>>, r: nat, k: nat): (s: seq<Slot<K>>)
    requires r < |g| && k < |g|
    ensures |s| == |g|
  {
    seq(|g|, i requires 0 <= i < |g| =>
      var j := Off(r, i, |g|);
      if j < k then Richer(g[At(r, j + 1, |g|)]) else g[i])
  }

  /** One more shift copies the next slot, one psl richer, over the last slot shifted. */
  lemma ShiftOnce<K>(g: seq<Slot<K>>, r: nat, k: nat)
    requires r < |g| && k + 1 < |g|
    ensures Shifted(g, r, k)[At(r, k + 1, |g|)] == g[At(r, k + 1, |g|)]
    ensures Shifted(g, r, k + 1) == Shifted(g, r, k)[At(r, k, |g|) := Richer(g[At(r, k + 1, |g|)])]
  {
  }

  /** The finished removal: the slot where the shifting stopped is free. */
  ghost function Removed<K>(g: seq<Slot<K>>, r: nat, k: nat): (s: seq<Slot<K>>)
    requires r < |g| && k < |g|
    ensures |s| == |g|
  {
    Shifted(g, r, k)[At(r, k, |g|) := Free]
  }

  /** The k slots after r are away from home. */
  ghost predicate AllPoor<K>(g: seq<Slot<K>>, r: nat, k: nat)
    requires r < |g| && k < |g|
  {
    forall j {:trigger At(r, j, |g|)} :: 0 < j <= k ==> Psl(g[At(r, j, |g|)]) > 0
  }

  /** k shifts are right: the slots shifted are poor, the next one is not (or the walk is closed). */
  ghost predicate ShiftRun<K>(g: seq<Slot<K>>, r: nat, k: nat)
    requires r < |g| && k < |g|
  {
    && AllPoor(g, r, k)
    && Psl(g[if k + 1 < |g| then At(r, k + 1, |g|) else r]) == 0
  }

  lemma ShiftPlaced<K(!new)>(g: seq<Slot<K>>, home: K -> nat, r: nat, k: nat)
    requires Placed(g, home) && r < |g| && k < |g| && ShiftRun(g, r, k)
    ensures Placed(Removed(g, r, k), home)
  {
    var f := Removed(g, r, k);
    forall i | 0 <= i < |f| && f[i].Used?
      ensures f[i].psl < |f| && home(f[i].key) < |f| && At(home(f[i].key), f[i].psl, |f|) == i
    {
      var j := Off(r, i, |g|);
      if j < k {
        var s := At(r, j + 1, |g|);
        assert Psl(g[s]) > 0 && f[i] == Richer(g[s]);
      }
    }
  }

  /** The finished table, read off by the distance j from slot r. */
  ghost function RemovedAt<K>(g: seq<Slot<K>>, r: nat, k: nat, j: nat): Slot<K>
    requires r < |g| && k < |g| && j < |g|
  {
    if j < k then Richer(g[At(r, j + 1, |g|)]) else if j == k then Free else g[At(r, j, |g|)]
  }

  lemma RemovedByDistance<K>(g: seq<Slot<K>>, r: nat, k: nat, j: nat)
    requires r < |g| && k < |g| && j < |g|
    ensures Removed(g, r, k)[At(r, j, |g|)] == RemovedAt(g, r, k, j)
  {
  }

  /** The neighbour relation between distances j and j + 1; distance |g| is slot r again. */
  lemma ShiftProbingAt<K>(g: seq<Slot<K>>, r: nat, k: nat, j: nat)
    requires Probing(g) && r < |g| && k < |g| && ShiftRun(g, r, k) && j < |g|
    ensures Psl(RemovedAt(g, r, k, if j + 1 < |g| then j + 1 else 0)) <= Limit(RemovedAt(g, r, k, j))
  {
    var n := |g|;
    var i := At(r, j, n);
    var i' := Next(i, n);
    assert Psl(g[i']) <= Limit(g[i]) && Psl(g[Next(i', n)]) <= Limit(g[i']);
    if j + 1 < k {
      assert i' == At(r, j + 1, n) && Next(i', n) == At(r, j + 2, n);
    } else if j + 1 == n && k > 0 {
      assert i' == r && Next(i', n) == At(r, 1, n);
    } else if j > k {
      assert i' == if j + 1 < n then At(r, j + 1, n) else r;
    }
  }

  lemma ShiftProbing<K>(g: seq<Slot<K>>, r: nat, k: nat)
    requires Probing(g) && r < |g| && k < |g| && ShiftRun(g, r, k)
    ensures Probing(Removed(g, r, k))
  {
    forall i | 0 <= i < |g|
      ensures Psl(Removed(g, r, k)[Next(i, |g|)]) <= Limit(Removed(g, r, k)[i])
    {
      var j := Off(r, i, |g|);
      var j' := if j + 1 < |g| then j + 1 else 0;
      RemovedByDistance(g, r, k, j);
      RemovedByDistance(g, r, k, j');
      ShiftProbingAt(g, r, k, j);
      assert Next(i, |g|) == At(r, j', |g|);
    }
  }

  /** Where the content of slot i of the finished table came from. */
  ghost function Source(n: nat, r: nat, k: nat, i: nat): (s: nat)
    requires r < n && k < n && i < n
    ensures s < n
  {
    if Off(r, i, n) < k then Next(i, n) else i
  }

  lemma ShiftContent<K>(g: seq<Slot<K>>, r: nat, k: nat, i: nat)
    requires r < |g| && k < |g| && i < |g| && i != At(r, k, |g|)
    ensures var s := Source(|g|, r, k, i);
      s != r && Removed(g, r, k)[i] == (if Off(r, i, |g|) < k then Richer(g[s]) else g[s])
  {
  }

  lemma ShiftUnique<K>(g: seq<Slot<K>>, r: nat, k: nat)
    requires Unique(g) && r < |g| && k < |g|
    ensures Unique(Removed(g, r, k))
  {
    var f, n := Removed(g, r, k), |g|;
    forall i, j | 0 <= i < n && 0 <= j < n && f[j].Used? && Holds(f[i], f[j].key)
      ensures i == j
    {
      ShiftContent(g, r, k, i);
      ShiftContent(g, r, k, j);
      assert Holds(g[Source(n, r, k, i)], g[Source(n, r, k, j)].key);
      SourceInjective(n, r, k, i, j);
    }
  }

  lemma SourceInjective(n: nat, r: nat, k: nat, i: nat, j: nat)
    requires r < n && k < n && i < n && j < n && i != At(r, k, n) && j != At(r, k, n)
    requires Source(n, r, k, i) == Source(n, r, k, j)
    ensures i == j
  {
  }

  /** Every slot but r has its content somewhere in the finished table. */
  lemma ShiftKeeps<K>(g: seq<Slot<K>>, r: nat, k: nat, s: nat) returns (i: nat)
    requires r < |g| && k < |g| && s < |g| && s != r && g[s].Used?
    ensures i < |g| && Holds(Removed(g, r, k)[i], g[s].key)
  {
    var j := Off(r, s, |g|);
    i := if j <= k then At(r, j - 1, |g|) else s;
    ShiftContent(g, r, k, i);
  }

  lemma ShiftRepresents<K>(g: seq<Slot<K>>, m: map<K, nat>, r: nat, k: nat)
    requires Represents(g, m) && r < |g| && k < |g| && g[r].Used?
    ensures Represents(Removed(g, r, k), m - {g[r].key})
  {
    var f, m', n := Removed(g, r, k), m - {g[r].key}, |g|;
    ShiftUnique(g, r, k);
    forall i | 0 <= i < n && f[i].Used?
      ensures f[i].key in m' && m'[f[i].key] == f[i].val
    {
      ShiftContent(g, r, k, i);
      assert !Holds(g[Source(n, r, k, i)], g[r].key);
    }
    forall key | key in m'
      ensures Occurs(f, key)
    {
      var s := SlotOf(g, m, key);
      var i := ShiftKeeps(g, r, k, s);
    }
  }

  /** Removing the entry of slot r leaves a sound table for the map without its key. */
  lemma RemovalSound<K(!new)>(g: seq<Slot<K>>, home: K -> nat, m: map<K, nat>, r: nat, k: nat)
    requires Sound(g, home, m) && r < |g| && k < |g| && ShiftRun(g, r, k) && g[r].Used?
    ensures Sound(Removed(g, r, k), home, m - {g[r].key})
    ensures Anchored(Removed(g, r, k))
  {
    ShiftPlaced(g, home, r, k);
    ShiftProbing(g, r, k);
    ShiftRepresents(g, m, r, k);
    assert Psl(Removed(g, r, k)[At(r, k, |g|)]) == 0;
  }

  /** The shift stops before it comes round: if every other slot is poor, r itself is anchored. */
  lemma ShiftStops<K>(g: seq<Slot<K>>, r: nat)
    requires Probing(g) && Anchored(g) && r < |g| && AllPoor(g, r, |g| - 1)
    ensures Psl(g[r]) == 0
    ensures Psl(Shifted(g, r, |g| - 1)[r]) == 0
  {
    var z :| 0 <= z < |g| && Psl(g[z]) == 0;
    assert z == At(r, Off(r, z, |g|), |g|);
    if |g| > 1 {
      assert Next(r, |g|) == At(r, 1, |g|);
      assert Shifted(g, r, |g| - 1)[r] == Richer(g[At(r, 1, |g|)]);
    }
  }

  /**
   The neighbour relation alone does not anchor a table: two slots, each holding the other's key.
   The removal loop of the code would not stop there; no run of insertions reaches it.
   */
  lemma ProbingIsNotEnough()
    ensures var g: seq<Slot<nat>> := [Used(1, 0, 1), Used(0, 0, 1)];
      Sound(g, (k: nat) => k, map[1 := 0, 0 := 0]) && !Anchored(g)
  {
    var g: seq<Slot<nat>> := [Used(1, 0, 1), Used(0, 0, 1)];
    assert Holds(g[0], 1) && Holds(g[1], 0);
  }
}
