# FlexAlloc, modelled and proved in Dafny

FlexAlloc is a slab allocator for raw block devices. This project models the bookkeeping that its
correctness hangs on and proves what that bookkeeping keeps over whole runs. `dafny verify dfyconfig.toml`
checks everything.

| part | files | modelled code |
|---|---|---|
| Robin Hood hash table | `RobinHood`, `HashTable` | `src/flexalloc_hash.c` |
| striped transfers | `Striping`, `StripedTransfer`, `StripedRuns` | `src/flexalloc_xnvme_env.c` |
| bitmap freelist | `Bits`, `FreeSets`, `Freelist` | `src/flexalloc_bits.c`, `src/flexalloc_freelist.c` |
| slab lists and allocator | `SlabLists`, `SlabBook`, `SlabSegment`, `Occupancy`, `SlabSteps`, `Allocator`, `ClientRuns`, `SmallRun` | `src/flexalloc_ll.c`, `src/flexalloc_mm.c`, `src/flexalloc_pool.c` |
| freelist cache and object data | `FlistImage`, `SlabCache`, `ObjectData` | `src/flexalloc_slabcache.c`, `src/flexalloc_mm.c` |
| geometry | `Geometry` | `src/flexalloc_mm.c`, `src/flexalloc_pool.c`, `src/flexalloc_util.c` |
| pool directory and entry functions | `PoolDir`, `PoolFuncs` | `src/flexalloc_pool.c` |
| block transfers | `BlockIo` | `src/flexalloc_xnvme_env.c`, `src/flexalloc_mm.c` |

`SetFacts` and `Arith` hold the few facts about cardinalities, products and quotients the proofs share.

How the model stands to the code:

- **Hash table.** The table is a class over an array of entries; a ghost sequence of slots remembers the key of
  each entry and a ghost map is what the table stands for. H1 and H2 are arbitrary functions. The code compares
  second hashes only, so keys must have different second hashes, none of them the UNSET marker; the table has at
  most 65536 slots because a psl has 16 bits. The invariant needs more than the neighbour rule: some slot always
  has psl 0. `ProbingIsNotEnough` shows a table that satisfies the neighbour rule and would make removal loop.
- **Striped transfers.** A state machine over outstanding commands: the submit loop launches chains, a
  completion of any outstanding command moves its data and submits the chain's next command. 16- and 32-bit
  fields wrap as in the code. The engine is right exactly when two conditions hold: the transfer fits its first
  chunk, ends on a chunk boundary, or has its partial last chunk after the first round of chunks; and no more
  than 512 chains are launched, because chain i lives in slot i of an array of 512. Without the first, every
  finished run passes the buffer's end; without the second, every finished run has set up a chain outside the
  array. `FLA_POOL_ENTRY_STRP` is 0, so no caller in `src/flexalloc_mm.c` reaches the engine; it is modelled at
  its own interface.
- **Freelist.** Bitmap words are sequences of 32 bits, with the machine operations the code uses (two's
  complement negation, increment, shifts) defined on them; the population count is done on 32-bit machine words,
  which `PopCount.MachineWord` builds from the sequences. Entries are returned as 32-bit ints, so that one from
  2^31 on comes back negative, which callers take for a failure. Three places where code and documentation part: a
  failing allocation of several entries keeps those it took, although the header promises otherwise;
  `fla_flist_entry_free` accepts the index `len`; and the search skips a last word that is full of entries. Each
  is stated with its exact condition and an input.
- **Reopening.** Opening a system rebuilds the table of pool entry functions through that search, so that entry
  0 is left without functions exactly if the system has 32 pools. Create, destroy, read and write then call
  through a pointer that was never set. Their `defined` result is false in that case, and nothing is claimed
  from there on, unless the pool is destroyed and created again, which sets the functions. Open also computes in 32
  bits where the free-queue cells and the pool entries are, mkfs in 64 bits where the cells go. `SlabSegment` has the
  slab segment as words: below 2^32 bytes all slabs can be acquired in order; `WideRun` is a device on which open
  takes the fields of a slab header for the cells and the second slab is refused.
- **Allocator.** `Flexalloc` has the array of slab headers, the free queue, the list heads of the pool at entry
  0 and the freelist cache. Ghost sequences hold the contents of the four lists. A pool takes `n` entries per
  object; `n` is 1 in this snapshot and any number up to the entries of a slab in the model. `Occupancy.Ok` is what
  a layout must meet: it is sound, open finds what mkfs wrote (`OffsetsFit`), and the last object of a slab starts
  at an entry below 2^31. `Format` shows that this is exactly what is needed of sizes that mkfs accepts;
  `WideRun`, `ManyPools` and `LastObjectFails` with `WideSlabIs` show what goes wrong otherwise. Two operations
  lose the invariant on inputs that the code does not refuse, each with its exact condition: destroying a pool
  with live objects, and opening an object by an old handle. A client can check the latter's condition, that the
  slab of the handle belongs to the pool; `StaleHandleOpens` is the run that violates it, on every system.
- **Cache and device.** A block is the set of its one bits, and a freelist on the device is its blocks: a word
  with the length, the words of the bitmap, and whatever the uncleared buffer held after them. Loading parses
  whatever the blocks hold, at whatever length. The cache keeps freelists as values; allocating and freeing in one
  runs the code of `Freelist` on its words. Object data are blocks too, so a write that touched a freelist would
  show. Where slabs, objects, freelists and the parts of the metadata lie is stated from their sizes (`SegmentsTile`,
  `SlabsTile`, `ObjectsTile`, `FlistAtEnd`).
- **Geometry.** Without a metadata device. Products that the code keeps in 32 bits and differences that it keeps
  in 64 bits wrap in the model; the device has fewer than 2^32 blocks of at least 512 bytes. `MkfsWorks` is the
  exact condition for a successful mkfs to give a sound layout. A subtraction wraps on a device of three blocks with
  slabs of one block (`ThreeBlockDevice`). The hash table gets `2 * npools` slots in 32 bits, so a wanted number of
  pools must be below 2^31; without one, mkfs reserves a segment for as many pools as slabs would fit, and lowers
  the number later, which goes wrong exactly if the size had wrapped and the unwrapped table of the lowered number
  does not fit into what is left (`WrappedTableDevice`).
- **Pool directory.** The bitmap, the hash table and the entries together, with real `Flist` and `Htbl` objects.
  Names are abstract; `names` is the set of names in play.

Error codes are those of the code (`-1`, `1`, `2`, `-22`, `2001`, `5001`). 64-bit byte and block addresses are
unbounded numbers.

## Model

| member | source | states |
|---|---|---|
| `HashTable.Htbl.Insert` | src/flexalloc_hash.c:123-181 | on a table that is not full the map gains or updates exactly this key, whatever is displaced; on a full table the result is 2 and no entry changes |
| `HashTable.Htbl.Displace` | src/flexalloc_hash.c:134-178 | the walk with displacement never loses an entry and ends at an unset entry or at the key's own |
| `HashTable.Htbl.Lookup` | src/flexalloc_hash.c:184-213 | finds the key exactly if the map has it, at the index a full linear scan finds, within size + 1 probes |
| `HashTable.Htbl.ShiftBack` | src/flexalloc_hash.c:216-246 | the backward shift ends in every valid state, also when it comes round a full table |
| `HashTable.Htbl.Remove` | src/flexalloc_hash.c:216-246 | the map loses exactly this key and the table is valid again; an absent key changes nothing |
| `HashTable.Htbl.LenCountsSetEntries` | src/flexalloc_hash.h:55-66 | len is the number of set entries and at most the size |
| `HashTable.Htbl.constructor` | src/flexalloc_hash.c:48-89 | a fresh table stands for the empty map |
| `HashTable.Run` | src/flexalloc_hash.c:123-246 | after any sequence of inserts and removes the table stands for the map those operations build |
| `RobinHood.Absent` | src/flexalloc_hash.c:184-206 | stopping at an unset or richer slot, or after a whole turn, means the key is nowhere in the table |
| `RobinHood.SwapStep` | src/flexalloc_hash.c:134-178 | taking over a richer slot and carrying its entry on loses no binding and keeps the probe invariant |
| `RobinHood.FillStep` | src/flexalloc_hash.c:134-178 | settling the carried entry in an unset slot gives a sound table for the map with the new binding |
| `RobinHood.RemovalSound` | src/flexalloc_hash.c:216-246 | after the shift the probe invariant holds, some slot has psl 0, and the map lacks just the removed key |
| `RobinHood.ShiftStops` | src/flexalloc_hash.c:216-246 | if all other slots were shifted, the slot the shift comes back to has psl 0, so it stops there |
| `RobinHood.ProbingIsNotEnough` | src/flexalloc_hash.c:216-246 | the neighbour rule alone does not give a slot with psl 0 |
| `RobinHood.FreeSlotExists` | src/flexalloc_hash.c:123-181 | there is an unset slot exactly when the count is below the size |
| `Striping.TranslateIsPhys` | src/flexalloc_xnvme_env.c:180-196 | the two-stage translation is (q mod N) * objectBytes + (q div N) * chunk + r |
| `Striping.TranslationIsBijective` | src/flexalloc_xnvme_env.c:180-196 | it permutes the bytes of the striped object; the inverse is given |
| `StripedTransfer.LaunchExact` | src/flexalloc_xnvme_env.c:323-378 | a chain is launched in one of the 512 slots, and its first command is exactly its first chunk, under the exact condition |
| `StripedTransfer.NextExact` | src/flexalloc_xnvme_env.c:198-287 | the command submitted on completion is exactly the next chunk of the lane, or there is none |
| `StripedRuns.StartsExactly` | src/flexalloc_xnvme_env.c:289-325 | the engine launches its first chain exactly for a transfer of at least one block whose start and length are whole blocks, and otherwise does nothing |
| `StripedRuns.RunKeeps` | src/flexalloc_xnvme_env.c:240-401 | every step of every interleaving keeps the invariant on chains, command log, device and buffer, and no chain leaves the array |
| `StripedRuns.TransferIsRight` | src/flexalloc_xnvme_env.c:240-401 | a finished write has put each buffer byte at its device address and nothing else, a finished read the reverse; no command passes the buffer's end, no chain leaves the array |
| `StripedRuns.RunsEnd` | src/flexalloc_xnvme_env.c:240-401 | every run has at most chunks + min(nobjs, chunks) steps, and is finished exactly when it has that many |
| `StripedRuns.CommandsAreRight` | src/flexalloc_xnvme_env.c:198-287 | in every reachable state a command stays inside the buffer and carries each byte to the address of its offset |
| `StripedRuns.EachByteSentOnce` | src/flexalloc_xnvme_env.c:240-401 | of all commands of a finished transfer exactly one covers a given byte |
| `StripedRuns.NoByteSentTwice` | src/flexalloc_xnvme_env.c:240-401 | in every reachable state at most one command covers a given byte |
| `StripedRuns.AddressesIncrease` | src/flexalloc_xnvme_env.c:198-287 | commands to one underlying object are submitted with strictly increasing, disjoint LBAs |
| `StripedRuns.MisfitFails` | src/flexalloc_xnvme_env.c:207-345 | a finished transfer stays in the buffer and in the array exactly if the condition holds; which of the two fails is told by which half of the condition fails |
| `StripedRuns.MisfitExists` | src/flexalloc_xnvme_env.c:207-214 | a transfer that passes the buffer's end exists, and so does one of each of the three kinds the engine gets right |
| `StripedRuns.ChainMisfitExists` | src/flexalloc_xnvme_env.c:296-345 | over 1024 objects, 512 chunks have slots for their chains and 513 have not |
| `Bits.Ntz` | src/flexalloc_bits.c:3-38 | the index of the lowest one bit, 32 for zero |
| `PopCount.CountSetBits` | src/flexalloc_bits.c:40-49 | the number of one bits of a machine word |
| `PopCount.MachineWord` | src/flexalloc_freelist.c:21-33 | every word of the bitmap has a machine word with its bits |
| `Bits.LowestOne` | src/flexalloc_freelist.c:106-109 | w & -w isolates the lowest one bit |
| `Bits.LowestZero` | src/flexalloc_freelist.c:165-221 | ~w & (w + 1) isolates the lowest zero bit |
| `Freelist.Flist.Reset` | src/flexalloc_freelist.c:35-58 | exactly the entries below len are free; padding is not |
| `Freelist.Flist.constructor` | src/flexalloc_freelist.c:60-79 | a new list has all its entries free |
| `Freelist.Flist.EntryAlloc` | src/flexalloc_freelist.c:93-114 | takes the least free entry and returns it as a 32-bit int: -1 exactly when none is free, another negative number exactly from entry 2^31 on |
| `Freelist.Flist.EntriesAlloc` | src/flexalloc_freelist.c:116-135 | takes the num least free entries and returns the first as a 32-bit int; with fewer it takes them all and returns -1, and so leaves the list alone exactly if nothing was free |
| `Freelist.FailingCallTakes` | src/flexalloc_freelist.c:116-135 | two entries asked of a list with one free: -1, and the entry is gone |
| `Freelist.Flist.EntryFree` | src/flexalloc_freelist.c:137-152 | adds the entry to the free ones; indices above len are refused; the list stays well formed exactly if the index is not len |
| `Freelist.Flist.EntriesFree` | src/flexalloc_freelist.c:154-163 | frees the run up to the first index above len, -1 exactly if there is one; the list stays well formed exactly if the index len is not reached |
| `Freelist.Flist.NumReserved` | src/flexalloc_freelist.c:21-33 | the cardinality of the reserved entries, computed with the population count of the code |
| `Freelist.Flist.Search` | src/flexalloc_freelist.c:165-221 | calls the function once on each reserved entry it looks at, in ascending order; found is the number of calls answered with 1; the first other answer ends it |
| `Freelist.SearchReachesAll` | src/flexalloc_freelist.c:165-221 | the search reaches every reserved entry exactly if len is no multiple of 32 or the last word is all free |
| `Freelist.SearchMissesFullWord` | src/flexalloc_freelist.c:165-221 | with 32 reserved entries it calls nothing |
| `Freelist.FreeingLenBreaksTheList` | src/flexalloc_freelist.c:137-152 | freeing the index len makes a padding bit allocatable |
| `FreeSets.StripedAlloc` | src/flexalloc_freelist.c:93-163 | in a list used only in groups of n with n entries unreserved, the n least free entries are one run that starts at a multiple of n, and grouping is kept |
| `FreeSets.StripedFree` | src/flexalloc_freelist.c:154-163 | freeing a group keeps the grouping and undoes its allocation |
| `SlabLists.PrependLinks` | src/flexalloc_ll.c:6-35 | prepend yields the doubly linked list with the slab in front |
| `SlabLists.UnlinkLinks` | src/flexalloc_ll.c:37-70 | remove yields the doubly linked list without the slab, wherever it was |
| `SlabLists.DequeueTakesFirst` | src/flexalloc_ll.c:104-142 | remove_head takes the first slab of the queue |
| `SlabLists.EnqueueAddsLast` | src/flexalloc_ll.c:144-180 | add_tail makes the slab the last of the queue |
| `SlabLists.HdllPrepend` | src/flexalloc_ll.c:6-35 | the array of headers becomes what `PrependLinks` is about |
| `SlabLists.HdllRemove` | src/flexalloc_ll.c:37-70 | the array of headers becomes what `UnlinkLinks` is about |
| `SlabLists.EdllRemoveHead` | src/flexalloc_ll.c:104-142 | the array of headers becomes what `DequeueTakesFirst` is about |
| `SlabLists.EdllAddTail` | src/flexalloc_ll.c:144-180 | the array of headers becomes what `EnqueueAddsLast` is about |
| `SlabLists.MkfsSlabSgmtInit` | src/flexalloc_mm.c:341-382 | the free queue is 0 .. nslabs-1 in order; all prev fields match exactly if there is more than one slab |
| `SlabBook.RemoveKeeps` | src/flexalloc_ll.c:37-70 | taking a slab off a pool list leaves all four lists linked, that list without the slab and the others untouched |
| `SlabBook.AddKeeps` | src/flexalloc_ll.c:6-35 | so does putting a loose slab on a pool list |
| `SlabBook.TakeKeeps` | src/flexalloc_ll.c:104-142 | so does taking the oldest free slab |
| `SlabBook.ReturnKeeps` | src/flexalloc_ll.c:144-180 | so does appending a loose slab to the free queue |
| `SlabBook.OnOneList` | src/flexalloc_mm.c:746-983 | a slab occurs once on the four lists together, on the list of its kind |
| `SlabBook.MinusIs` | src/flexalloc_ll.c:37-70 | removing a slab from all lists by value is removing it from the one that has it, wherever it is there |
| `SlabBook.CreateMoves` | src/flexalloc_mm.c:746-925 | taking a slab into the pool for an object and moving it to the partial or full list is one move to the front of that list |
| `SlabBook.FirstIsLost` | src/flexalloc_ll.c:72-101 | a head moved past the first slab of a list, with nothing else done, leaves a slab that is on no list, however the lists are read |
| `Occupancy.AllocIsOk` | src/flexalloc_mm.c:802-835 | a slab on the empty or partial list has n entries for one more object, the first of them below 2^31, and refcount, freelist and list choice agree afterwards |
| `Occupancy.LastObjectFails` | src/flexalloc_freelist.c:93-135 | if the last object of a slab starts at entry 2^31 or later, a consistent slab on the partial list exists in which allocating one more object fails |
| `Occupancy.FreeIsOk` | src/flexalloc_mm.c:942-983 | freeing a live object of a slab keeps them in agreement |
| `Occupancy.FullMeansAllTaken` | src/flexalloc_mm.c:824-835 | a slab belongs on the full list exactly if every object it can hold is live |
| `Occupancy.KindTells` | src/flexalloc_mm.c:824-835 | a slab of the pool is on the full list exactly if all its objects are live, on the empty list exactly if none is |
| `Occupancy.FullMeansExhausted` | src/flexalloc_mm.c:1017-1047 | all slabs are full exactly if nslabs * k objects are live |
| `Allocator.Flexalloc.SlabIsAccountedFor` | src/flexalloc_mm.c:746-983 | in every valid state a slab is on exactly one list; free slabs have refcount 0 and no cached freelist; for the others the refcount is the number of reserved entries and tells the list |
| `Allocator.Flexalloc.constructor` | src/flexalloc_mm.c:341-382 | a formatted system is valid, with all slabs free in order and nothing live |
| `Allocator.Flexalloc.FormatSlab` | src/flexalloc_mm.c:1083-1110 | the slab gets pool 0, no links, refcount 0 and a freelist with all entries free |
| `Allocator.Flexalloc.AcquireSlab` | src/flexalloc_mm.c:1017-1047 | takes the oldest free slab and counts it; with none left 2001 and nothing changes |
| `Allocator.Flexalloc.ReleaseSlab` | src/flexalloc_mm.c:1049-1081 | an unreferenced slab becomes the youngest free one and its cached freelist, and no other, is dropped; a referenced one is refused without change |
| `Allocator.Flexalloc.NextAvailableSlab` | src/flexalloc_mm.c:746-800 | the first partial slab, else the first empty one, else the oldest free one, which goes to the front of the empty list; nothing else changes; fails without change exactly if all three lists are empty |
| `Allocator.Flexalloc.SlabNextAvailableObj` | src/flexalloc_mm.c:802-822 | the first object of the slab that was not live becomes live, and the refcount grows by n |
| `Allocator.Flexalloc.ObjectCreate` | src/flexalloc_mm.c:862-925 | the object is the first one not live of the first partial slab, else of the first empty one, else of the oldest free one; its slab goes to the front of the full list if that fills it, else of the partial list, or stays there; 2001 exactly if nslabs * k objects are live, and then nothing changes; undefined exactly if the entry's functions are not set and objects are left |
| `Allocator.Flexalloc.Relist` | src/flexalloc_ll.c:6-70 | the slab is in front of its new list, all lists are otherwise the old ones without it |
| `Allocator.Flexalloc.ObjectOpen` | src/flexalloc_mm.c:837-860 | the slab's freelist is cached afterwards if the slab belongs to the pool, which a caller can check; ids out of range are refused; for a slab the pool does not own the invariant is kept exactly if loading fails, that is if the device has no list of the pool's length there |
| `ClientRuns.StaleHandleOpens` | src/flexalloc_mm.c:837-860 | on every system: create, sync, destroy, destroy the pool, open the old handle: it succeeds and the invariant is lost |
| `Allocator.Flexalloc.ObjectDestroy` | src/flexalloc_mm.c:942-983 | exactly this live object is gone and its slab is first on the empty list if no object of it is live, else first on the partial list; 5001 and no change if the slab's freelist was not loaded; undefined exactly if the entry's functions are not set |
| `Allocator.Flexalloc.ReleaseList` | src/flexalloc_ll.c:72-101 | within nslabs rounds every slab of a list without references goes to the free queue once, in list order |
| `Allocator.Flexalloc.RemoveAll` | src/flexalloc_ll.c:72-101 | lists without references are released whole; a list of referenced slabs fails at its first slab, its head is then the second, and no four lists account for every slab |
| `Allocator.Flexalloc.ReleaseAllSlabs` | src/flexalloc_pool.c:235-251 | succeeds exactly if nothing is live, and then returns every slab of the pool exactly once and all nslabs slabs are free; otherwise 1: the empty slabs are returned, the first full slab, or else the first partial one, is passed, and no four lists account for every slab |
| `Allocator.Flexalloc.RenewPool` | src/flexalloc_pool.c:253-378 | with nothing live, destroying the pool and creating it again returns its slabs in order and gives entry 0 with its functions set, no slab and nothing cached |
| `Allocator.Flexalloc.ObjectWrite` | src/flexalloc_mm.c:1193-1253 | a write inside the object stores exactly its blocks at their place; every other block of the device, so every other object and every freelist, is as before; a write past the end is refused; undefined exactly if the entry's functions are not set |
| `Allocator.Flexalloc.ObjectRead` | src/flexalloc_mm.c:1129-1191 | a read inside the object returns its stored blocks, a read past the end is refused |
| `Allocator.Flexalloc.Sync` | src/flexalloc_mm.c:610-641 | no freelist is dirty afterwards; freelists, live objects, object data and all blocks but those of dirty lists are the same |
| `Allocator.Flexalloc.CloseAndOpen` | src/flexalloc_mm.c:643-687 | after close and open every slab's freelist, the live objects and all object data are the same; free-queue cells and pool entries are looked for where they are; the functions of the pool's entry are set exactly if there are not 32 pools |
| `PoolFuncs.InitEntryFuncs` | src/flexalloc_pool.c:142-170 | opening sets the functions of exactly the reserved entries that the search looks at |
| `PoolFuncs.EntryZero` | src/flexalloc_pool.c:142-170 | a reserved entry 0 gets its functions exactly if there are not 32 pools |
| `PoolFuncs.AllServed` | src/flexalloc_pool.c:142-170 | all reserved entries get theirs exactly if npools is no multiple of 32 or the last word is all free |
| `PoolFuncs.NoneServedOf32` | src/flexalloc_pool.c:142-170 | with 32 pools no entry gets its functions |
| `ClientRuns.Run` | src/flexalloc_mm.c:746-983 | any run of create, destroy, open, write, sync, reopen and pool destroy with create goes as the client's views say: which handle a create returns and the order of the slabs on every list are determined, the live objects are the handles held, each once, and each holds what was written to it; it stops early exactly at the use of a function that the last reopen has not set, which only happens with 32 pools |
| `SmallRun.EightSteps` | src/flexalloc_mm.c:746-983 | five creates, destroy of (0,0) and (1,0) and a create on the small system: the last create returns (1,0) again |
| `ClientRuns.ReopenFailsAt32` | src/flexalloc_pool.c:142-170 | create, reopen, create on a system of 32 pools stops at the second create |
| `ClientRuns.Format` | src/flexalloc_mm.c:198-289 | the layout of sizes that mkfs and pool create accept is one on which all of the above holds exactly if mkfs works, slab segment and pool tables have fewer than 2^32 bytes each, and a slab has at most 2^31 entries; refusals are right |
| `ClientRuns.SmallSystem` | src/flexalloc_mm.c:198-289 | such a layout exists |
| `ClientRuns.WideSlabIs` | src/flexalloc_mm.c:717-737 | a sound layout exists in which a slab has more than 2^31 entries |
| `FlistImage.ParseImage` | src/flexalloc_slabcache.c:187-220 | a freelist written bit by bit into blocks reads back as itself, with its 32-bit length and whatever follows it in the buffer |
| `FlistImage.ImageHoldsWords` | src/flexalloc_freelist.c:60-91 | the buffer is the word with the length followed by the words of the bitmap, lowest bits first |
| `FlistImage.SmallImage` | src/flexalloc_freelist.c:60-91 | the image of a list of three entries, two of them free |
| `FlistImage.InMemory` | src/flexalloc_freelist.c:87-91 | every cached list has words on which the freelist functions work, with the same free entries |
| `SlabCache.FlushedElsewhere` | src/flexalloc_slabcache.c:27-37 | flushing one slab's freelist leaves that of every other slab, of whatever length, as it was |
| `SlabCache.Cache.constructor` | src/flexalloc_slabcache.c:39-57 | all elements start stale |
| `SlabCache.Cache.ElemInit` | src/flexalloc_slabcache.c:81-112 | a stale element becomes dirty with all entries free, in a buffer that is not cleared; otherwise 5001 without change |
| `SlabCache.Cache.ElemLoad` | src/flexalloc_slabcache.c:114-185 | succeeds exactly for a stale element whose list on the device has the expected length, and then is clean and equal to it |
| `SlabCache.Cache.ElemFlush` | src/flexalloc_slabcache.c:187-220 | a dirty element becomes clean, its blocks hold its list, no other list changes |
| `SlabCache.Cache.ElemDrop` | src/flexalloc_slabcache.c:222-232 | the element is stale |
| `SlabCache.Cache.ObjAlloc` | src/flexalloc_slabcache.c:234-254 | the num least free entries are reserved and the element dirty; it fails exactly with fewer than num free or none below 2^31, and coherence is lost exactly when it fails on a clean element with a free entry |
| `SlabCache.AllocIn` | src/flexalloc_slabcache.c:234-254 | the same outcome, obtained by `Flist.EntriesAlloc` on the words of the list |
| `SlabCache.Cache.ObjFree` | src/flexalloc_slabcache.c:256-274 | the run is freed and the element dirty; a run past the length fails, keeps what it freed, and loses coherence exactly if a clean element changed; 5001 if stale |
| `SlabCache.FreeIn` | src/flexalloc_slabcache.c:256-274 | the same outcome, obtained by `Flist.EntriesFree` on the words of the list |
| `SlabCache.SpoilingExists` | src/flexalloc_slabcache.c:234-254 | a coherent clean element that a failing allocation makes incoherent exists |
| `SlabCache.SpoilingByFreeExists` | src/flexalloc_slabcache.c:256-274 | a coherent clean element that a failing free makes incoherent exists |
| `SlabCache.WideEntryFails` | src/flexalloc_slabcache.c:234-254 | asking for an entry when 2^31 is the least free one fails, and takes it |
| `SlabCache.Cache.Flush` | src/flexalloc_slabcache.c:276-292 | no element is dirty, all lists are kept, clean ones are on the device, and blocks outside the flushed lists are untouched |
| `SlabCache.Cache.FlushReopenLoad` | src/flexalloc_slabcache.c:59-292 | flush, reopen and load give back the same freelist |
| `ObjectData.ObjectsTile` | src/flexalloc_mm.c:927-933 | the first object of a slab starts at the slab's first block, each following one where the one before ends |
| `ObjectData.ObjectAt` | src/flexalloc_mm.c:927-933 | object b of a slab starts b object sizes after the slab's first block |
| `ObjectData.SecondObject` | src/flexalloc_mm.c:927-933 | the second object of the small system has block 6 |
| `ObjectData.ObjectsDisjoint` | src/flexalloc_mm.c:927-933 | different objects have different blocks |
| `ObjectData.ObjectsAvoidLists` | src/flexalloc_slabcache.c:27-37 | no object has a block of any slab's freelist |
| `ObjectData.WriteKeepsViews` | src/flexalloc_mm.c:1193-1253 | object writes keep the cache coherent and every slab's freelist the same |
| `Geometry.NelemsMax` | src/flexalloc_util.c:37-55 | the first count down from the 32-bit quotient that passes the test with its 32-bit product; below 2^32 units that is the largest count that fits together with its metadata |
| `Geometry.PoolSgmtMonotone` | src/flexalloc_pool.c:7-36 | below 2^31 pools, fewer pools never need more blocks |
| `Geometry.PoolSgmtShrinks` | src/flexalloc_pool.c:7-36 | at 2^31 pools the 32-bit table size wraps to 0 and the segment shrinks |
| `Geometry.PoolSgmtIsTight` | src/flexalloc_pool.c:7-36 | freelist, hash table with two slots for each pool, and pool entries each have the blocks for their own bytes and none to spare |
| `Geometry.PoolSgmtOf128` | src/flexalloc_pool.c:7-36 | 128 pools on blocks of 512 bytes: one block, nine and forty |
| `Geometry.FlistIsTight` | src/flexalloc_slabcache.c:13-26 | a freelist has a word for its length and one bit for each entry, in whole words and blocks and none to spare |
| `Geometry.SlabSgmtIsTight` | src/flexalloc_mm.c:82-118 | the slab segment has the blocks for its headers and three cells and none to spare |
| `Geometry.SegmentsTile` | src/flexalloc_mm.c:290-312 | super block, pool freelist, hash table, pool entries, slab headers and slabs follow one another, each as large as its bytes need |
| `Geometry.OpenFindsParts` | src/flexalloc_pool.c:142-170 | open looks for hash table and pool entries where those segments are, if freelist and table have fewer than 2^32 bytes |
| `Geometry.MkfsGeoCalc` | src/flexalloc_mm.c:198-289 | the layout of a success fits the device and is what reopening recomputes exactly if `MkfsWorks`: no subtraction and no table size wraps, or lowering the pools undoes the wrap within the blocks left; no more slabs would fit; refusals are right; without a wanted number of pools the outcome is stated exactly |
| `Geometry.PoolSgmtFits` | src/flexalloc_mm.c:255-262 | the pool segment, with its table size in 32 bits, fits after the super block except on a device of three blocks with slabs of one block |
| `Geometry.ThreeBlockDevice` | src/flexalloc_mm.c:198-289 | on that device mkfs succeeds with 2^32 - 1 slabs and an unsound layout |
| `Geometry.WrappedTableDevice` | src/flexalloc_mm.c:198-289 | 2,170,000,000 blocks with one-block slabs and no wanted number of pools: mkfs succeeds with a layout that ends 12,840,760 blocks behind the device |
| `Geometry.CellsAgree` | src/flexalloc_mm.c:341-437 | open looks for the free-queue cells where mkfs put them exactly if the slab segment has fewer than 2^32 bytes |
| `Geometry.EntriesAgree` | src/flexalloc_pool.c:142-170 | the pool entries lie behind the hash table exactly if freelist and table have fewer than 2^32 bytes |
| `Geometry.ManyPools` | src/flexalloc_pool.c:142-170 | with 140,000,000 pools the entries lie inside the table |
| `Geometry.OffsetsFitExactly` | src/flexalloc_mm.c:432-437 | both byte bounds together are exactly that both are where they should be |
| `SlabSegment.MkfsSegment` | src/flexalloc_mm.c:341-382 | the words of the segment hold the headers of the free queue and the three cells at the end |
| `SlabSegment.Acquire` | src/flexalloc_mm.c:1017-1047 | the words become what `AcquireTakesFirst` is about, wherever the cells are, with all its errors |
| `SlabSegment.AcquireTakesFirst` | src/flexalloc_mm.c:1017-1047 | with the cells where mkfs put them, acquiring on words takes the first slab of the queue and leaves the rest as the queue, 2001 exactly if there is none |
| `SlabSegment.OpenFindsCells` | src/flexalloc_mm.c:432-437 | the word at which open looks for the cells is theirs exactly if the segment has fewer than 2^32 bytes |
| `SlabSegment.AcquireAll` | src/flexalloc_mm.c:341-437 | below 2^32 bytes, after mkfs and open, slabs 0 to nslabs - 1 can be acquired in order, and then 2001 |
| `SlabSegment.WideDevice` | src/flexalloc_mm.c:198-289 | mkfs makes 200,000,000 slabs on 401,171,880 blocks |
| `SlabSegment.WideConfig` | src/flexalloc_mm.c:717-737 | with objects of one block every other condition for a working layout holds there |
| `SlabSegment.WideRun` | src/flexalloc_mm.c:341-437 | there the first slab is acquired and the second refused with -1, whatever is written into the header of the first |
| `Geometry.CalcObjsInSlab` | src/flexalloc_mm.c:717-737 | the most objects that leave room for their freelist |
| `Geometry.SlabsApart` | src/flexalloc_cs_cns.c:9-15 | slabs lie after the metadata, inside the device, and do not overlap; the 32-bit product does not wrap |
| `Geometry.SlabsTile` | src/flexalloc_cs_cns.c:9-15 | the first slab follows the metadata, each following one the slab before |
| `Geometry.FlistAtEnd` | src/flexalloc_slabcache.c:27-37 | a freelist has the last blocks of its slab, as many as its bytes need |
| `ObjectData.LayoutIsDisjoint` | src/flexalloc_mm.c:313-332 | metadata, every object of any number of entries and every freelist have blocks of their own inside the device |
| `PoolDir.Pools.CountsAgree` | src/flexalloc_introspection.c:154-185 | reserved freelist entries and set table entries are equally many, and the table of size 2 * npools never fills |
| `PoolDir.Pools.Open` | src/flexalloc_pool.c:217-233 | the handle of the pool of that name, -1 exactly if there is none |
| `PoolDir.Pools.Create` | src/flexalloc_pool.c:253-323 | an existing pool is returned, or -22 for another object size; a new one gets the least unused entry and its functions, and no other entry changes; refused exactly for a long name, too large objects or no entry left, and then nothing changes; the handle is the one open returns |
| `PoolDir.Pools.Destroy` | src/flexalloc_pool.c:325-378 | for the handle of a pool there is, the result is what releasing its slabs returned, and exactly if that is 0 just that pool is gone from table and freelist; any other handle is refused with 1; a refusal changes nothing |
| `PoolDir.MkfsPools` | src/flexalloc_pool.c:38-54 | an empty directory is valid |
| `PoolDir.Run` | src/flexalloc_pool.c:217-378 | after any run the table is the map from names to entries that the operations build, the freelist has exactly the other entries, and every pool has its functions |
| `PoolDir.Reopen` | src/flexalloc_pool.c:142-170 | reopening keeps the pools and sets the functions of exactly the entries the search looks at; all pools have theirs exactly if npools is no multiple of 32 or no pool has one of the last 32 entries |
| `PoolDir.HandleStays` | src/flexalloc_pool.c:217-378 | a pool keeps its handle through any operations but its own destruction |
| `BlockIo.Device.SyncWrite` | src/flexalloc_xnvme_env.c:123-143 | splitting a write at the limit has the effect of one whole write |
| `BlockIo.Device.SyncRead` | src/flexalloc_xnvme_env.c:447-465 | splitting a read at the limit has the effect of one whole read |
| `BlockIo.Device.UnalignedWrite` | src/flexalloc_mm.c:1255-1332 | changes exactly the requested bytes, also when head and tail share a block |

## Left out

- Daemon, client and message handling; CLI tools, fio engine, printing and statistics: plumbing around the same operations.
- xNVMe commands, queues and buffers: a device is a sequence of blocks or bytes, and a set of outstanding commands; I/O and `malloc` failures do not occur.
- Separate metadata device, zoned mode and data placement: they depend on device properties the sources do not show.
- Pools at entries other than 0: `fla_format_slab` stores pool 0 in every slab, and the partition of the slabs is not kept there.
- Bytes of pool names: `memcpy` without termination makes them depend on the caller; names are abstract.
- Headers with ids out of range (corrupt metadata), which the list functions answer with an error; only `SlabSegment` has these answers.
- Allocator.Flexalloc.CloseAndOpen: super block, pool segment and slab headers stay in memory; writing them to the device and reading them back is not modelled.
- Root objects of pools: a single field.
- Allocator.Flexalloc.ObjectRead: whole blocks, as below.
- Allocator.Flexalloc.ObjectWrite: whole blocks through the plain path; striped pools would use the striped engine, which no caller reaches.
- Freelist.Flist.EntryFree: freeing the index len of a list without padding writes behind the bitmap and is excluded.
- Freelist.Flist.EntriesFree: the same index is excluded here.
- SlabCache.Cache.ObjFree: the same index is excluded here.
- Freelist.Flist.constructor: at most 2^32 - 32 entries; with more, the words have 2^32 bits and an index can wrap.
- ClientRuns.Run: pools are destroyed only without live objects; `ReleaseAllSlabs` says what happens otherwise.
- Allocator.Flexalloc.ReleaseList: only lists without references; `RemoveAll` has the others.
- Allocator.Flexalloc.ObjectDestroy: only handles of live objects, which is what callers owe; the code frees others without a check.
- Allocator.Flexalloc.Sync: the freelists only, not the metadata buffer.
- PoolDir.Pools.Destroy: the index npools passes the code's range check and reads behind the entries; it is excluded. What releasing the slabs returned is a parameter.
- StripedRuns.TransferIsRight: the data of a command moves when it completes; chunks have at most 65536 blocks and a round of chunks fewer than 2^32 bytes, so that the caller's parameters fit the 16- and 32-bit fields.
- BlockIo.Device.UnalignedWrite: an empty range at a block boundary is excluded, where the device gets an empty range; the code does not check the object's bounds, and neither does the model.
- Geometry.MkfsGeoCalc: blocks have at least 512 bytes, as NVMe requires, and the device fewer than 2^32 of them.
