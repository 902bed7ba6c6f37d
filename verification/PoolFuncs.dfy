/**
 The table of pool entry functions that fla_pool_init of src/flexalloc_pool.c rebuilds when a system is opened:
 it sets the functions of the entries that a search of the pool freelist calls it on, and no others.
 */
module PoolFuncs {
  import opened Freelist

  /** The search calls on a reserved entry, unless it lies in a last word that is full of entries. */
  ghost predicate Served(len: nat, free: set<nat>, e: nat) {
    e < SearchEnd(len) && e !in free
  }

  method InitEntryFuncs(freelist: Flist) returns (err: int, funcs: set<nat>)
    requires freelist.Valid()
    ensures err == 0
    ensures forall e: nat {:trigger e in funcs} :: e in funcs <==> Served(freelist.len, freelist.FreeSet(), e)
  {
    var found, calls;
    err, found, calls := freelist.Search(true, (e: nat) => 0);
    funcs := set e | e in calls;
  }

  /** Entry 0 is left without functions exactly in a list of 32 entries. */
  lemma EntryZero(len: nat, free: set<nat>)
    requires 0 < len && 0 !in free
    ensures Served(len, free, 0) <==> len != 32
  {
  }

  /** Every reserved entry has its functions exactly if the last word has padding or holds no reserved entry. */
  lemma AllServed(len: nat, free: set<nat>)
    requires 0 < len
    ensures (forall e: nat :: e < len && e !in free ==> Served(len, free, e)) <==>
            (len % 32 != 0 || forall e: nat :: len - 32 <= e < len ==> e in free)
  {
    if len % 32 == 0 && !(forall e: nat :: len - 32 <= e < len ==> e in free) {
      var e: nat :| len - 32 <= e < len && e !in free;
      assert !Served(len, free, e);
    }
  }

  /** With 32 pools none of them has its functions after a reopen. */
  lemma NoneServedOf32(free: set<nat>, e: nat)
    ensures !Served(32, free, e)
  {
  }
}
