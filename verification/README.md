# Verified model of the node's stateful core

A Dafny model of seven components of a Bitcoin Core derived node, with proofs of what each of them is for. Code that
changes things in place is modelled by classes, arrays and loops; code that only computes, by functions; the check queue,
which is a protocol between threads, by a state machine over its critical sections.

1. **The coins cache** (`CoinTypes`, `FlaggedList`, `CoinsCache`, `CoinsStack`): a stack of write-back caches over a
   database, with DIRTY and FRESH flags, an intrusive doubly linked list of flagged entries and running counters. Main
   results: under every legal sequence of operations on any layer of a stack of any depth, each layer shows exactly the
   plain map that the adds and spends describe (`CoinsStack.Run`); the flags keep their documented meaning, so the throw
   for a misapplied FRESH flag is never met; a coin that is added and spent above a layer leaves no trace there; and the
   list, the dirty count and the memory count stay exact.
2. **The address manager** (`AddrTypes`, `AddrSteps`, `AddrMan`, `AddrCheck`, `AddrRun`, `AddrSerialize`): six mutually
   redundant structures and a set of collisions. Main results: every operation, evictions and in-place shuffles included,
   keeps the whole invariant, and so does every run of operations; in a run no id is reused and a filled tried slot stays
   filled, so a collision always waits for an occupied slot; the built-in check reports no error exactly for the states
   that `AddrCheck.Consistent` describes, which include all states of the invariant; and writing the tables to a file and
   reading them back restores the same addresses in the same slots, and whatever file is accepted gives a state of the
   invariant, so that runs of a node started from any file keep it too. An address that is reached while its tried slot
   is taken is remembered, and the occupant is what is handed out to be tested. The addresses of one source group reach at
   most 64 of the 1024 new buckets.
3. **The check queue** (`CheckQueue`): any number of threads, in any interleaving, with spurious wake-ups. Main results:
   `Complete` returns no error exactly when every check added since it last returned has passed, and otherwise the error
   of one of those checks; no check is lost or done twice; no wake-up is lost, neither on the master nor on the workers,
   and a session ends in bounded work.
4. **Block index and active chain** (`SkipHeights`, `BlockTree`, `ActiveChain`): the skip-list searches agree with walking
   predecessor pointers, in a number of steps bounded from above and below by the square of the logarithm of the height,
   and the searches for forks, locators and timestamps are characterised exactly.
5. **Big integers and compact targets** (`Powers`, `Limbs`, `BaseUints`, `Compact`, `Targets`): limb loops of any width
   compute modulo `2^(32 * WIDTH)`, long division is exact, and the compact format rounds down to the nearest
   representable number.
6. **Base58 and Bech32** (`Numerals`, `Base58`, `PolyMods`, `Bech32`): round trips in both directions, buffer sizes that
   always suffice, and a checksum, computed by division over GF(32), that notices every change of up to six neighbouring
   symbols.
7. **Compact blocks** (`CompactBlocks`, `Differences`): index arithmetic, matching by short id, and reassembly of the
   original block.

The invariants are stated declaratively (`CoinsCache.LayerOk`, `AddrTypes.Inv`, `CheckQueue.Inv`) and the operations are
proved to keep them through small lemmas on snapshots of the state. A method that changes an object states its new state
as a function of the old one, or states what has changed and what has not; counters, positions and links then follow from
the invariant. The properties of those functions are separate lemmas.

Hashes, network groups of addresses, clocks, random draws, hash-table crowding, the short-id function and the
check for a mutated block are parameters. `int` is unbounded: limbs, carries, 16-bit indexes and 64-bit offsets are
bounded explicitly where the source relies on their width.

## Properties that do not hold

The model follows the code, gives an input for which the property fails, and states exactly when it holds.

- `CChain::FindEarliestAtLeast` is documented (src/chain.h:445) to find the earliest block whose timestamp and height are
  both at least the given ones. The code compares the running maximum of the timestamps instead.
  `ActiveChain.EarliestCanBeTooOld` is a chain for which the result is too old, and
  `ActiveChain.Chain.FindEarliestAtLeast` proves that the documented answer is returned if and only if not
  `LateTooEarly`: some block below the wanted height is late enough while the block at that height is not.
- An increasing list of indexes does not always survive being written and read: a gap above the limit for sizes is written
  but refused when read, as in `Differences.TooLargeGap`. `Differences.RoundTrip` states that this is the only exception.
- `mempool_count` is the number of transactions found only if it was zero before; `CompactBlocks.CountsTooMany` uses an
  object twice. `CompactBlocks.PartiallyDownloadedBlock.InitData` states the equivalence.
- A descent by skip pointers does not take logarithmically many steps: `SkipHeights.StepsNeeded` shows heights that need a
  quarter of the square of the logarithm, and `SkipHeights.StepsBounded` that no height needs much more.
- A coin that is added without announcing an overwrite, while only the parent shows an unspent one, goes unnoticed and
  breaks the meaning of FRESH, as in `CoinsCache.UnannouncedOverwrite`; `CoinsCache.CoinsViewCache.AddCoin` states that
  this is the only way.

## Model

| member | source | states |
|---|---|---|
| CoinTypes.ShownIsUnique | src/coins.h:95-108 | a cache over a given parent stands for one plain map only |
| CoinTypes.ChangedAt | src/coins.h:95-163 | after a change at one outpoint, the flags of all entries and the shown map are right as soon as they are right there |
| CoinTypes.TotalUsageSplit | src/coins.cpp:351-381 | the summed coin sizes split off any one entry, so the total does not depend on the order of summation |
| CoinTypes.UnspendableExactly | src/script/script.h:563-566 | unspendable are exactly the scripts that begin with byte 0x6a or have more than 10000 bytes |
| CoinTypes.UsageExactly | src/memusage.h:52-64 | no memory for scripts up to 36 bytes; else the multiple of 16 that leaves 16 to 31 bytes besides the script |
| FlaggedList.FlaggedIsListed | src/coins.h:112-124 | an outpoint is in the linked list exactly when it has a flagged entry |
| FlaggedList.AppendLinked | src/coins.h:127-139 | the four pointer writes of AddFlags append the entry before the sentinel and leave a well-formed circular list |
| FlaggedList.RemoveLinked | src/coins.h:175-182 | the pointer writes of SetClean take one node out, at any position, and leave a well-formed circular list of the others |
| FlaggedList.UnlinkEffect | src/coins.h:175-182 | unlinking changes pointers only: all coins and flags of other entries, and unlisted entries altogether, stay as they are |
| CoinsCache.EditedLayerOk | src/coins.cpp:89-175 | a layer changed at one outpoint satisfies the whole invariant again once that entry, the list and the two counters do |
| CoinsCache.AppliedAll | src/coins.cpp:208-277 | once every dirty entry has been handed over, the parent shows exactly what the child showed |
| CoinsCache.PendingEntryOk | src/coins.cpp:210-275 | while a batch is being written, the flags of entries still to come keep their meaning against the parent as changed so far |
| CoinsCache.SyncedLayerOk | src/coins.cpp:291-300 | after all dirty entries are written through and unflagged, the child is a well-formed clean layer showing what it did |
| CoinsCache.CoinsViewDB.BatchWrite | src/txdb.cpp:131-141 | the database holds exactly what the child showed, and the cursor has handed over every dirty entry |
| CoinsCache.CoinsViewCache.AddFlags | src/coins.h:127-139 | raises flags and links the entry in once; everything else is unchanged |
| CoinsCache.CoinsViewCache.SetClean | src/coins.h:175-182 | drops the flags and unlinks the entry wherever it stands |
| CoinsCache.CoinsViewCache.Erase | src/coins.h:167-170 | erasing an entry unlinks it and keeps the list of the others |
| CoinsCache.CoinsViewCache.FlagsMean | src/coins.h:95-163 | every entry is in one of the four documented states; FRESH means the parent shows no coin; not DIRTY means the parent shows the same coin |
| CoinsCache.CoinsViewCache.PeekCoin | src/coins.cpp:44-50 | the coin shown, through all layers, without changing any |
| CoinsCache.CoinsViewCache.FetchCoinFromBase | src/coins.h:538-548 | the coin the parent shows; an overlay leaves the layers below untouched, any other view caches the coin in its parent |
| CoinsCache.CoinsViewCache.FetchCoin | src/coins.cpp:68-81 | caches the coin of the parent as a clean entry if there is one; no layer shows anything else than before |
| CoinsCache.CoinsViewCache.GetCoin | src/coins.cpp:83-87 | the coin shown; no layer shows anything else than before |
| CoinsCache.CoinsViewCache.HaveCoin | src/coins.cpp:188-191 | whether a coin is shown; no layer shows anything else than before |
| CoinsCache.CoinsViewCache.AddCoin | src/coins.cpp:89-130 | throws exactly for a forbidden overwrite; otherwise exactly that coin is added, as a DIRTY entry that is FRESH exactly where the source makes it so, and unspendable ones are ignored; the invariant is kept exactly unless an unspent coin that only the parent shows is overwritten unannounced |
| CoinsCache.UnannouncedOverwrite | src/coins.cpp:96-113 | an unannounced overwrite of a coin that only the database holds leaves the cache invalid |
| CoinsCache.CoinsViewCache.EmplaceCoinInternal | src/coins.cpp:132-140 | adds the coin unless the cache has an entry for it; the invariant is kept exactly unless the coin is a spent one that was not cleared |
| CoinsCache.CoinsViewCache.SpendCoin | src/coins.cpp:153-175 | exactly that coin disappears and is handed out; found tells whether there was an entry, also a spent one; a FRESH entry is erased, any other is kept as a spent DIRTY one; all other entries stay |
| CoinsCache.CoinsViewCache.Uncache | src/coins.cpp:310-323 | drops the entry exactly if it is not dirty; no other entry and nothing shown changes |
| CoinsCache.CoinsViewCache.Reset | src/coins.cpp:302-308 | destroying the entries in any order unlinks them all; the layer shows what its parent shows, with no entry left |
| CoinsCache.CoinsViewCache.Clear | src/coins.h:167-182 | destroying all entries one by one, in any order, leaves the sentinel pointing at itself |
| CoinsCache.CoinsViewCache.NextAndMaybeErase | src/coins.h:279-294 | the cursor stands at the next entry of the list as it was at the start, although entries are erased or unlinked under it |
| CoinsCache.CoinsViewCache.WriteEntry | src/coins.cpp:211-274 | throws exactly for a FRESH entry over an unspent coin; otherwise there is no entry exactly if the coin is spent and FRESH here, or FRESH in the child where there was none; else it is DIRTY with the coin of the child, and FRESH as it was here, or as in the child where there was none; all other entries stay; if the flags are meaningful, the coin shown becomes that of the child |
| CoinsCache.CoinsViewCache.BatchWrite | src/coins.cpp:208-277 | the parent shows exactly what the child showed, each entry with the coin and flags that WriteEntry gives it; the misapplied-FRESH throw is never met; the parent invariant is kept |
| CoinsCache.MergedAll | src/coins.cpp:208-277 | taking over the entries one by one, in list order, comes to taking each over into the parent as it was |
| CoinsCache.CoinsViewCache.Flush | src/coins.cpp:279-289 | the parent shows what this layer showed, this layer still shows it and is empty; no other layer changes |
| CoinsCache.CoinsViewCache.Sync | src/coins.cpp:291-300 | as Flush, but exactly the unspent cached coins stay, as clean entries; no flag is left, so the throw is never met |
| CoinsCache.CoinsViewCache.CheckEntries | src/coins.cpp:355-368 | for any state: whether every entry is in a documented state, the summed sizes and the number of dirty entries |
| CoinsCache.CoinsViewCache.SanityCheck | src/coins.cpp:351-381 | for any state whose list can be walked: no assertion fails exactly if it is sane |
| CoinsCache.CoinsViewCache.ValidIsSane | src/coins.cpp:351-381 | every valid state is sane, so no assertion of the check ever fails |
| CoinsStack.AtTop | src/coins.cpp:44-323 | a read, Uncache, Sync or Flush of the top layer does to the plain maps what Next says, and hands out what Seen says |
| CoinsStack.EditTop | src/coins.cpp:89-308 | the same for adding, spending and resetting |
| CoinsStack.AtLayer | src/coins.cpp:44-323 | the same for reads, Uncache, Sync and Flush on a layer at any depth; all layers above stay valid |
| CoinsStack.Step | src/coins.cpp:44-323 | the same for every operation, with layers pushed and popped |
| CoinsStack.Run | src/coins.cpp:44-323 | for every legal sequence of operations on a stack of any depth, every layer shows the plain map that the run on plain maps gives, and every coin handed out is the one from that run |
| CoinsStack.FlushAllReachesDatabase | src/coins.cpp:279-289 | flushing all layers from the top down makes the database and every layer show what the top showed |
| CoinsStack.ScratchWorkIsLocal | src/coins.h:530-548 | whatever is done in a top layer, dropping it unflushed leaves every layer below as it was |
| CoinsStack.UnspendableNeverShown | src/coins.cpp:91 | no run makes an unspendable coin show up in any layer |
| CoinsStack.PushDown | src/coins.cpp:214-237 | a FRESH coin that is flushed down through layers without an entry for it is FRESH wherever it arrives |
| CoinsStack.SpentWithoutTrace | src/coins.cpp:153-175 | a coin added unannounced over layers that do not have it, flushed down any number of them and spent there leaves no entry: it never reaches the database |
| AddrTypes.SourceIsConfined | src/addrman.cpp:55-61 | whatever the sources of one group announce comes to at most 64 of the 1024 new buckets |
| AddrTypes.GroupIsConfined | src/addrman.cpp:48-53 | the addresses of one group come to at most 8 of the 256 tried buckets |
| AddrTypes.EverySlotIsUsed | src/addrman.cpp:48-67 | some hash leads to any bucket and any position of either table |
| AddrTypes.NewGroupsSeparated | src/addrman.cpp:55-61 | some hash puts announced addresses of two groups into different buckets |
| AddrTypes.TriedAddressesSeparated | src/addrman.cpp:48-53 | some hash puts two tried addresses of one group into different buckets |
| AddrTypes.PositionsSeparated | src/addrman.cpp:63-67 | the position depends on the bucket and on the address |
| AddrTypes.TablesSeparated | src/addrman.cpp:63-67 | the positions of an address in the two tables are independent |
| AddrTypes.KeysSeparated | src/addrman.cpp:48-67 | buckets and positions depend on the secret key |
| AddrTypes.TerribleExactly | src/addrman.cpp:69-92 | terrible is exactly an entry not tried in the last minute that is from the future, not seen for 30 days, never reached in 3 attempts, or not reached for a week in 10 |
| AddrSteps.SwapKeeps | src/addrman.cpp:449-453 | swapping two positions keeps the invariant: vRandom and nRandomPos stay inverse |
| AddrSteps.CountsStep | src/addrman.cpp:506-547 | moving one id between new, tried and nowhere keeps the totals and the counts of every network exact |
| AddrSteps.ClearSlotKeeps | src/addrman.cpp:479-483 | emptying a new slot and taking off one reference keeps the invariant |
| AddrSteps.FillSlotKeeps | src/addrman.cpp:612-613 | filling an empty new slot and adding one reference keeps the invariant |
| AddrSteps.CreateKeeps | src/addrman.cpp:420-426 | a new entry, not yet in a slot, keeps the invariant |
| AddrSteps.DeleteKeeps | src/addrman.cpp:466-470 | dropping an entry that stands last and is in no table keeps the invariant |
| AddrSteps.EvictKeeps | src/addrman.cpp:522-526 | taking an entry out of its tried slot keeps the invariant but for that entry and that slot |
| AddrSteps.SettleKeeps | src/addrman.cpp:544-547 | putting an entry that is nowhere into its empty tried slot keeps the invariant |
| AddrMan.Awaited | src/addrman.cpp:926-936 | a collision whose entry is still known waits for a tried slot that holds a tried entry, never an empty one |
| AddrMan.SizesAre | src/addrman.cpp:1026-1046 | each counter equals the number of entries of its table and network |
| AddrMan.LimitIsLargest | src/addrman.cpp:817-824 | the limit of a request is the largest number that is at most the size, at most the maximum and at most the percentage asked for |
| AddrMan.RefreshedKeeps | src/addrman.cpp:566-574 | the stored time never falls and services never shrink; the time moves only to one more than an hour newer, and always to one more than a day newer |
| AddrMan.PenalizedExactly | src/addrman.cpp:570 | a penalty takes so many seconds off, but not below the epoch |
| AddrMan.NewsExactly | src/addrman.cpp:576-593 | a known entry may get another slot only for later news, while untried and with at most seven slots |
| AddrMan.VerdictIsFair | src/addrman.cpp:938-959 | an occupant reached within four hours stays; one that is replaced was tried over a minute ago without success in these hours, or was not tried although the id has waited for over 40 minutes |
| AddrMan.AnyoneNext | src/addrman.cpp:834-835 | any entry not drawn yet can be drawn next |
| AddrMan.CollideKeeps | src/addrman.cpp:660-663 | while fewer than ten are remembered, one more keeps the invariant |
| AddrMan.AllVisited | src/addrman.cpp:496-509 | after a walk over all buckets the entry has no reference left, so the assertion holds |
| AddrMan.AddrMan.Create | src/addrman.cpp:416-430 | the next id, a new entry indexed and listed, counted as new; the invariant is kept up to its missing slot |
| AddrMan.AddrMan.SwapRandom | src/addrman.cpp:432-454 | exactly two positions change places; the invariant is kept |
| AddrMan.AddrMan.Delete | src/addrman.cpp:456-471 | exactly that entry goes from all structures, wherever it stands in vRandom |
| AddrMan.AddrMan.ClearNew | src/addrman.cpp:473-489 | exactly that slot is emptied; its entry goes only with its last reference; all others stay |
| AddrMan.AddrMan.RemoveFromNew | src/addrman.cpp:495-505 | exactly the slots of that entry are emptied, whatever the starting bucket and despite the early exit |
| AddrMan.AddrMan.MoveBack | src/addrman.cpp:516-541 | the occupant of a tried slot goes to its home slot of the new table; at most the holder of that slot loses its entry |
| AddrMan.AddrMan.MakeTried | src/addrman.cpp:491-548 | the entry is in its tried slot and in no new slot, an occupant is in its home slot, everything else is in place; the invariant is kept |
| AddrMan.AddrMan.PlaceNew | src/addrman.cpp:599-623 | the entry gets the slot exactly if it is empty or its holder is terrible or has other slots while this one has none; otherwise the table is unchanged and a homeless entry is dropped |
| AddrMan.AddrMan.AddSingle | src/addrman.cpp:550-624 | exact condition for insertion, the slot and the entry then stored; only the former holder of the slot can be lost; the invariant is kept |
| AddrMan.AddrMan.Good | src/addrman.cpp:626-679 | exact condition for moving to tried, and the move itself; else the id is remembered exactly if fewer than ten are, and nothing else is or is forgotten; the time of success and attempts of the address; the invariant is kept |
| AddrMan.AddrMan.Attempt | src/addrman.cpp:693-711 | exactly the statistics of that address change; failures are counted once per good connection; the invariant is kept |
| AddrMan.AddrMan.Connected | src/addrman.cpp:877-894 | exactly the time of that address changes, at most every 20 minutes; the invariant is kept |
| AddrMan.AddrMan.SetServices | src/addrman.cpp:896-910 | exactly the services of that address change; the invariant is kept |
| AddrMan.AddrMan.Size | src/addrman.cpp:1026-1046 | the number of entries of the network and table asked for, read off the counters |
| AddrMan.AddrMan.GetAddr | src/addrman.cpp:812-851 | exactly the addresses of the network asked for and, if filtered, of good quality among those drawn, each once; the order drawn is a shuffle by the random numbers; at most the maximum and at most the percentage asked for; it stops early only if one more would exceed them; only positions change; the invariant is kept |
| AddrMan.AddrMan.ResolveOne | src/addrman.cpp:921-965 | exact decision about one collision; if it replaces the occupant, the entry has moved to the tried table and counts as reached, and all other statistics stay; the slot is never found empty |
| AddrMan.AddrMan.ResolveCollisions | src/addrman.cpp:912-973 | every collision is decided once, each on the state left by the ones before; the invariant is kept |
| AddrMan.AddrMan.SelectTriedCollision | src/addrman.cpp:975-1001 | a collision with a known entry always yields a tried entry, so id -1 is never looked up; a stale collision is dropped |
| AddrCheck.CheckEntries | src/addrman.cpp:1077-1108 | no error in a consistent state; without an error every entry is fine by itself, and exactly the tried ids, reference counts and network counts are collected |
| AddrCheck.CheckTried | src/addrman.cpp:1115-1130 | no error if the tried table is right; without an error every slot holds a tried entry that belongs there, and exactly the tried ids that were not met are left over |
| AddrCheck.CheckNew | src/addrman.cpp:1132-1145 | no error if the new table is right; without an error every slot holds a new entry that belongs there, and exactly the references that were not met are left over |
| AddrCheck.CheckCounts | src/addrman.cpp:1156-1163 | no error exactly if there are enough counters and each present one is right |
| AddrCheck.TriedVerdict | src/addrman.cpp:1147-1148 | nothing is left over exactly if the tried table is right |
| AddrCheck.NewVerdict | src/addrman.cpp:1149-1150 | nothing is left over exactly if the new table and the reference counts are right |
| AddrCheck.InvConsistent | src/addrman.cpp:1063-1166 | every state of the invariant passes the check |
| AddrCheck.CheckAddrman | src/addrman.cpp:1063-1166 | returns 0 if and only if the state is consistent, and otherwise a code that names something that is wrong |
| AddrRun.Step | src/addrman.cpp:550-1001 | every operation keeps the invariant, reuses no id and empties no tried slot |
| AddrRun.Run | src/addrman.cpp:550-1001 | so does every sequence of operations from any valid state: all states on the way satisfy the invariant, and from any state to any later one ids keep their addresses and filled tried slots stay filled |
| AddrRun.ReachedThenTested | src/addrman.cpp:660-663 | an address reached while its tried slot is taken is remembered, if fewer than ten are, and what is then handed out to be tested for it is the occupant of that slot |
| AddrRun.Start | src/addrdb.cpp:201-225 | a node that starts, from any file or without one, has a valid address manager; it always starts from a file written from a valid state, and then with the same tables |
| AddrRun.Restart | src/addrdb.cpp:185-226 | a node that writes its file and is started again from it has the same address manager, up to the renaming of ids |
| AddrRun.RunNode | src/addrdb.cpp:201-225 | every run of a node, from any file that is accepted and under any operations, keeps the invariant throughout |
| AddrSerialize.WriteEntries | src/addrman.cpp:191-210 | writes exactly the new, or exactly the tried, entries once each and numbers them; the assertions on the totals hold |
| AddrSerialize.Serialize | src/addrman.cpp:133-228 | the file lists every entry once and, for each bucket, the entries in its slots |
| AddrSerialize.LoadNew | src/addrman.cpp:282-291 | gives ids from zero in file order, with an index that leads to entries with those addresses and a count for every network met; for a file that was written, copies of the new entries |
| AddrSerialize.LoadTried | src/addrman.cpp:293-314 | for a file that was written, no tried entry is lost and each is in its own slot |
| AddrSerialize.CollectEntries | src/addrman.cpp:316-331 | exactly the indexes in range with their buckets; for a file that was written, all occupied slots in order |
| AddrSerialize.EntryRoom | src/addrman.cpp:356-359 | an entry whose slots are being restored never has too many references |
| AddrSerialize.PlaceEntries | src/addrman.cpp:348-376 | for any file, only valid entries get slots: the listed ones if the buckets are the same, else those of their sources; what is listed and valid gets one unless it has eight or the slot of its source is taken; for a file that was written, every entry goes back to its slot |
| AddrSerialize.PlacedAreValid | src/addrman.cpp:378-398 | every entry that is left has a valid address |
| AddrSerialize.NoneWaiting | src/addrman.cpp:378-388 | no entry is left without a slot |
| AddrSerialize.Prune | src/addrman.cpp:378-388 | deletes exactly the entries that are in no table and leaves the others as they were |
| AddrSerialize.NewSlotsSame | src/addrman.cpp:348-376 | the new table holds the same addresses in the same slots |
| AddrSerialize.TriedSlotsSame | src/addrman.cpp:293-314 | the tried table holds the same addresses in the same slots |
| AddrSerialize.ReferencesSame | src/addrman.cpp:361-375 | every entry has its old reference count |
| AddrSerialize.WithinLimits | src/addrman.cpp:268-280 | the sizes written never fail the limit checks |
| AddrSerialize.Rebuilt | src/addrman.cpp:230-399 | what has been read is the address manager that was written, up to the renaming of ids, and satisfies the invariant |
| AddrSerialize.ConsistentIsInv | src/addrman.cpp:393-398 | for every state built from a file, passing the check means satisfying the whole invariant |
| AddrSerialize.Unserialize | src/addrman.cpp:230-399 | whatever the file holds, what is accepted satisfies the whole invariant, has only valid addresses, each with what the file says of it, and every slot is filled as PlaceEntries says; a file written from a valid state is accepted and restores it |
| AddrSerialize.SaveAndLoad | src/addrman.cpp:132-399 | writing and reading back restores the same addresses, in the same slots of both tables, with the same reference counts and totals |
| CheckQueue.InitInv | src/checkqueue.h:144-155 | the initial state satisfies the invariant, for any number of workers |
| CheckQueue.AddKeeps | src/checkqueue.h:172-182 | queueing checks keeps the invariant, also before the workers are notified of them |
| CheckQueue.NotifyKeeps | src/checkqueue.h:184-188 | notifying one sleeping worker or all of them, after the mutex has been released, keeps the invariant: with checks in the queue, the workers are not all asleep |
| CheckQueue.SeveralWakeAll | src/checkqueue.h:184-188 | after several checks have been added and announced, no worker sleeps |
| CheckQueue.OneWakesOne | src/checkqueue.h:184-188 | a single check is announced to exactly one sleeping worker |
| CheckQueue.SomeoneToNotify | src/checkqueue.h:184-188 | Add always comes to its end |
| CheckQueue.CompleteKeeps | src/checkqueue.h:166-169 | calling Complete keeps the invariant |
| CheckQueue.EvalKeeps | src/checkqueue.h:128-135 | evaluating a check keeps the invariant |
| CheckQueue.AwakeKeeps | src/checkqueue.h:108-109 | waking up, notified or not, keeps the invariant |
| CheckQueue.AccountKeeps | src/checkqueue.h:82-96 | accounting for a batch, or counting a thread in, keeps the invariant |
| CheckQueue.AccountedResult | src/checkqueue.h:84-88 | an error is only published if it belongs to the batch just done: one left over from an earlier session never is |
| CheckQueue.AccountedCounts | src/checkqueue.h:88-92 | nTodo stays the queue length plus the sizes of unfinished batches, and no check is lost or counted twice |
| CheckQueue.BatchLengthExactly | src/checkqueue.h:121 | the batch is the largest within nBatchSize of which every thread about, and one more, could take as much from the queue, or a single check |
| CheckQueue.TakenFromEnd | src/checkqueue.h:121-127 | a batch is exactly the end of the queue; it is evaluated exactly if no error is known |
| CheckQueue.NotifiedAtEnd | src/checkqueue.h:89-92 | the master is notified only by a worker that has done the last check |
| CheckQueue.FirstErrorStays | src/checkqueue.h:84-88 | no step changes a known error, other than returning it |
| CheckQueue.BatchLengthBounds | src/checkqueue.h:121 | a batch is not empty, not larger than the queue, and not larger than nBatchSize unless it is a single check |
| CheckQueue.NothingHeld | src/checkqueue.h:99-105 | when nTodo is zero the queue is empty and no thread holds a batch |
| CheckQueue.ReturnedIsVerdict | src/checkqueue.h:99-105 | when nTodo is zero the result is the verdict on all checks of the session |
| CheckQueue.SettleKeeps | src/checkqueue.h:97-127 | the end of a critical section keeps the invariant, and what it returns is the verdict on the checks added |
| CheckQueue.StepKeeps | src/checkqueue.h:72-137 | every enabled step keeps the invariant |
| CheckQueue.RunInv | src/checkqueue.h:72-189 | every state of every run, with any number of threads and any interleaving, satisfies the invariant |
| CheckQueue.RunExtends | src/checkqueue.h:72-189 | a run can be continued by any enabled step |
| CheckQueue.AddedIsSession | src/checkqueue.h:172-189 | the checks accounted for are those added since Complete last returned |
| CheckQueue.CompleteReturnsVerdict | src/checkqueue.h:166-169 | in every run Complete returns no error exactly when every check added since it last returned has passed, and otherwise the error of one of them |
| CheckQueue.StepsDecrease | src/checkqueue.h:72-137 | every thread step lowers a measure, unless it returns or is a spurious wake-up that changes nothing |
| CheckQueue.SomeoneCanMove | src/checkqueue.h:98-110 | while Complete is running some thread can make a step that matters, without relying on spurious wake-ups: no wake-up is lost |
| CheckQueue.WorkerIsAbout | src/checkqueue.h:172-189 | in every run, while there are checks in the queue and Add is not just notifying, some worker, if there is any, can make a step that matters without a spurious wake-up |
| CheckQueue.SessionIsBounded | src/checkqueue.h:72-137 | however the threads are scheduled, their useful steps are bounded by the measure |
| CheckQueue.CompleteCanReturn | src/checkqueue.h:166-169 | once called, Complete can always be brought to return by steps of the threads alone |
| CheckQueue.MasterStays | src/checkqueue.h:166-169 | the master leaves Complete only by returning |
| SkipHeights.ClearsBelow | src/chain.cpp:69-70 | clearing the lowest 1 bit of the lower part of a number leaves the upper part alone |
| SkipHeights.OddWalk | src/chain.cpp:72-107 | from an odd height beyond the middle of a block range, every step clears two bits |
| SkipHeights.EvenWalk | src/chain.cpp:72-107 | from an even height every step clears at least one bit, also where the skip pointer is not followed |
| SkipHeights.TopWalk | src/chain.cpp:72-107 | from the last block of a range of 2^k blocks, a number of steps quadratic in k |
| SkipHeights.AnyWalk | src/chain.cpp:72-107 | the same from any block of the range |
| SkipHeights.StepsBounded | src/chain.cpp:72-108 | a descent from height w to any height takes at most l*l/4 + 3*l + 1 steps with l = floor(log2(w)) |
| SkipHeights.StepsBelow | src/chain.cpp:72-108 | at most 148 steps for heights below 2^20 |
| SkipHeights.StepsNeeded | src/chain.cpp:72-108 | the descent from height 2^k to height 2 does take k*k/4 steps, so there is no logarithmic bound |
| BlockTree.BlockIndex.constructor | src/node/blockstorage.cpp:239-246 | a linked block is valid: its path is that of its predecessor and itself, with the skip pointer and running time maximum in place |
| BlockTree.BlockIndex.BackIsPath | src/chain.h:99-106 | the path lists exactly the blocks met by following pprev |
| BlockTree.BlockIndex.BuildSkip | src/chain.cpp:115-119 | the skip pointer is the ancestor at the skip height |
| BlockTree.BlockIndex.GetAncestor | src/chain.cpp:83-108 | for every height the block reached by following pprev step by step, or null out of range; takes at most StepLimit pointers, about a quarter of the square of the number of bits of the height; the assertion on pprev holds |
| BlockTree.LastCommonAncestor | src/chain.cpp:153-178 | the highest block on both ancestries, despite jumping by skip pointers |
| ActiveChain.TimeMaxIs | src/node/blockstorage.cpp:246 | the running maximum is below a time exactly if all timestamps up to there are |
| ActiveChain.Chain.ContainsIs | src/chain.h:409-413 | membership by height is membership in the ancestry of the tip |
| ActiveChain.FillDone | src/chain.cpp:16-24 | where the filling loop stops early, the entries below are already right |
| ActiveChain.Chain.SetTip | src/chain.cpp:16-24 | the chain is exactly the ancestor path of the tip, although the loop stops early |
| ActiveChain.Chain.FindFork | src/chain.cpp:50-59 | the highest block of the chain among the ancestors of the argument, or null if they share none |
| ActiveChain.Chain.BeforeIs | src/chain.cpp:61-67 | which blocks the search passes over: those too low, and those with no late enough timestamp so far; they come first, so the binary search is sound |
| ActiveChain.Chain.FindEarliestAtLeast | src/chain.cpp:61-67 | exactly the first block not passed over; it is the documented answer if and only if no block below the wanted height is late enough while the block there is not |
| ActiveChain.EarliestCanBeTooOld | src/chain.cpp:61-67 | a chain of four blocks, each later than the median before it, for which the documented property fails, with the block returned |
| ActiveChain.LocatorStep | src/chain.cpp:37-40 | one round of the loop; the step stays below twice the height, so a signed 32-bit number holds it for heights up to 2^30 |
| ActiveChain.LocatorLength | src/chain.cpp:26-43 | at most 12 + floor(log2(height)) entries |
| ActiveChain.LocatorFalls | src/chain.cpp:26-43 | the heights fall strictly |
| ActiveChain.LocatorEntries | src/chain.cpp:26-43 | starts at the block, ends at genesis, strictly falling heights at known distances, at most 12 + floor(log2(height)) entries |
| BaseUints.BaseUint.Add | src/arith_uint256.h:117-127 | the sum modulo 2^(32*WIDTH); the column sums fit 64 bits |
| BaseUints.BaseUint.MulSmall | src/arith_uint256.cpp:47-57 | the product modulo 2^(32*WIDTH); the column sums fit 64 bits |
| BaseUints.BaseUint.AddRow | src/arith_uint256.cpp:64-69 | adds one row of the product up to multiples of the modulus; the column sums fit 64 bits |
| BaseUints.BaseUint.Mul | src/arith_uint256.cpp:59-73 | the product modulo 2^(32*WIDTH), also when both operands are the same object |
| BaseUints.BaseUint.GetLow64 | src/arith_uint256.h:222-226 | the value modulo 2^64 |
| BaseUints.BaseUint.Not | src/arith_uint256.h:51-57 | the complement to the modulus minus one |
| BaseUints.BaseUint.Increment | src/arith_uint256.h:155-162 | one more, modulo the modulus |
| BaseUints.BaseUint.Decrement | src/arith_uint256.h:172-179 | one less, modulo the modulus |
| BaseUints.BaseUint.Neg | src/arith_uint256.h:59-66 | the negative, modulo the modulus |
| BaseUints.BaseUint.Sub | src/arith_uint256.h:129-133 | the difference modulo the modulus, also when both operands are the same object |
| BaseUints.BaseUint.CompareTo | src/arith_uint256.cpp:101-111 | the order of the numbers |
| BaseUints.BaseUint.EqualTo | src/arith_uint256.cpp:113-125 | equality with a 64-bit number |
| BaseUints.BaseUint.Bits | src/arith_uint256.cpp:155-168 | the position of the highest set bit plus one: 2^(n-1) <= value < 2^n |
| BaseUints.BaseUint.JoinUp | src/arith_uint256.cpp:22-25 | the part of a shifted limb that stays in the number is added: the bits joined do not overlap |
| BaseUints.BaseUint.ShiftLeft | src/arith_uint256.cpp:13-28 | multiplication by a power of two modulo the modulus, for every shift |
| BaseUints.BaseUint.JoinDown | src/arith_uint256.cpp:39-42 | the part of a limb shifted down that stays in the number is added: the bits joined do not overlap |
| BaseUints.BaseUint.ShiftRight | src/arith_uint256.cpp:30-45 | division by a power of two, for every shift |
| BaseUints.BaseUint.TakeOnce | src/arith_uint256.cpp:90-93 | quotient times divisor plus remainder stays the same, and the remainder is below the shifted divisor |
| BaseUints.BaseUint.SubtractDown | src/arith_uint256.cpp:89-96 | the loop from the highest bit of the quotient down ends with quotient times divisor plus remainder equal to the dividend, and the remainder below the divisor |
| BaseUints.BaseUint.Divide | src/arith_uint256.cpp:75-99 | the exact quotient rounded down; division by zero fails after the quotient has been cleared |
| BaseUints.SplitUp | src/arith_uint256.cpp:21-26 | a limb shifted up is what leaves it and what stays |
| BaseUints.DownStep | src/arith_uint256.cpp:38-43 | one round of the shift down keeps quotient and remainder |
| BaseUints.Aligned | src/arith_uint256.cpp:87-88 | with the highest bits aligned no bit is shifted out, and one more bit would exceed the dividend |
| Compact.EncodedWord | src/arith_uint256.cpp:195-216 | the mantissa and exponent that encoding chooses; the sign bit is free |
| Compact.OverflowExactly | src/arith_uint256.cpp:188-191 | the overflow test is exact: mantissa times 256^(size-3) does not fit in 256 bits |
| Compact.NotAllOnes | src/arith_uint256.cpp:175-193 | no compact word stands for a number with all bits set |
| Compact.RoundsDown | src/arith_uint256.cpp:195-216 | decoding an encoded number gives one not above it, equal up to the digits cut off |
| Compact.Largest | src/arith_uint256.cpp:195-216 | no compact word stands for a number between the two |
| Compact.Stable | src/arith_uint256.cpp:195-216 | the rounded number encodes to the same word |
| Compact.RoundTrip | src/arith_uint256.cpp:173-216 | for every 256-bit number: encoding then decoding gives the largest representable number not above it, neither negative nor overflowing, which encodes to the same word |
| Compact.KnownWords | src/test/arith_uint256_tests.cpp:480-524 | the words of the unit tests stand for the numbers given there |
| Compact.KnownNumbers | src/test/arith_uint256_tests.cpp:480-512 | the numbers of the unit tests have the words given there |
| Targets.SetCompact | src/arith_uint256.cpp:175-193 | the value modulo 2^256, and exact negative and overflow flags, for every 32-bit word |
| Targets.LeadingBytes | src/arith_uint256.cpp:197-204 | the size in bytes and the three leading bytes |
| Targets.GetCompact | src/arith_uint256.cpp:195-216 | the compact word of the value, with the sign bit exactly if asked for and the mantissa is not zero; the assertions hold |
| Targets.RoundToCompact | src/arith_uint256.cpp:173-216 | of the code: encoding and decoding a number leaves the largest representable number not above it, neither negative nor overflowing, whose word is the same again |
| Targets.GetBitsProof | src/chain.cpp:121-134 | floor(2^256 / (target + 1)) for every accepted word and zero for the others, with nothing wrapping around |
| Targets.ProofFits | src/chain.cpp:129-133 | the detour over ~target gives the quotient, and it fits |
| Base58.AlphabetToDigit | src/base58.cpp:19-38 | the map inverts the alphabet |
| Base58.DigitToAlphabet | src/base58.cpp:19-38 | the alphabet inverts the map |
| Base58.AlphabetIncreases | src/base58.cpp:19-20 | the alphabet is in the order of ASCII |
| Base58.AlphabetHas | src/base58.cpp:19-20 | it has exactly the digits and letters other than 0, I, O and l, and the map knows exactly these |
| Base58.SpaceExactly | src/util/strencodings.h:166-168 | the six white-space characters of ASCII |
| Base58.EncodeBuffer | src/base58.cpp:99 | 138 digits per 100 bytes, plus one, always suffice |
| Base58.DecodeBuffer | src/base58.cpp:54 | 733 bytes per 1000 digits, plus one, always suffice |
| Base58.PartialStep | src/base58.cpp:64-68 | one round of the carry loop, with either pair of bases |
| Base58.Accumulate | src/base58.cpp:103-113 | buffer := buffer * m + digit, in place; the carry assertion holds |
| Base58.EncodeBase58 | src/base58.cpp:89-127 | the base-58 numeral of the bytes, with a one for each leading zero byte |
| Base58.ReadDigits | src/base58.cpp:53-73 | the bytes of the word, or failure exactly for a foreign character or too many bytes, although the loop stops at once |
| Base58.DecodeBase58 | src/base58.cpp:40-135 | the bytes of the word between spaces, or failure exactly if there is something else, a NUL, a foreign character, or too many bytes |
| Base58.DecodesEncoded | src/base58.cpp:40-127 | every byte string is read back from its text, between any spaces, exactly if it is not longer than allowed |
| Base58.EncodesDecoded | src/base58.cpp:40-127 | every accepted text is the text of its bytes, up to surrounding spaces |
| Numerals.DigitsOfValue | src/base58.cpp:89-127 | a numeral without leading zeros is determined by its number |
| Numerals.ConvertBack | src/base58.cpp:40-127 | converting between bases and back gives the numeral again, leading zeros included |
| PolyMods.StepLinear | src/bech32.cpp:194-212 | a step is linear in state and symbol |
| PolyMods.StepDivides | src/bech32.cpp:194-212 | coefficient by coefficient, a step multiplies by x, adds the symbol, and takes off the multiple of the generator that clears x^6, in GF(32) |
| PolyMods.TimesExamples | src/bech32.cpp:144-150 | the two examples given for arithmetic in GF(32) |
| PolyMods.CoefficientsAre | src/bech32.cpp:137-138 | the six coefficients determine the state |
| PolyMods.StepInjective | src/bech32.cpp:194-212 | only the zero state steps to zero |
| PolyMods.ComputePolyMod | src/bech32.cpp:130-216 | the fold of the step over all symbols |
| PolyMods.RunLinear | src/bech32.cpp:130-216 | the whole run is linear |
| PolyMods.DifferenceStays | src/bech32.cpp:130-216 | a difference never disappears while equal symbols follow, for inputs of any length |
| PolyMods.FewSymbols | src/bech32.cpp:130-216 | up to six symbols that are not all zero do not cancel |
| PolyMods.Detects | src/bech32.cpp:130-216 | changing up to six neighbouring symbols always changes the remainder, in inputs of any length |
| PolyMods.ChecksumVerifies | src/bech32.cpp:341-353 | appending the checksum drives the remainder to the constant |
| PolyMods.ChecksumUnique | src/bech32.cpp:326-339 | no other six symbols do |
| Bech32.CharOfValue | src/bech32.cpp:22-36 | the reverse table inverts the character set, which has no separator and no capital |
| Bech32.ValueOfChar | src/bech32.cpp:22-36 | the character set inverts the reverse table, up to case |
| Bech32.PreparePolynomialCoefficients | src/bech32.cpp:311-324 | the upper bits of each character, a zero, the lower bits of each character, and the values |
| Bech32.BitsAre | src/bech32.cpp:317-319 | the upper bits are c >> 5 for a signed character, the lower ones c & 31 |
| Bech32.CharacterSet | src/bech32.cpp:22-23 | the character of each value |
| Bech32.PrintableExactly | src/bech32.cpp:304-306 | printable are the visible characters of ASCII |
| Bech32.LowerCaseExactly | src/bech32.cpp:280-284 | upper case letters move by 32, nothing else does |
| Bech32.VerifyChecksum | src/bech32.cpp:326-339 | the encoding whose constant the remainder is, or none |
| Bech32.CreateChecksum | src/bech32.cpp:341-353 | the six symbols that make the remainder the constant |
| Bech32.Encode | src/bech32.cpp:357-371 | the human-readable part, the separator, and the characters of data and checksum |
| Bech32.CheckCharacters | src/bech32.cpp:286-309 | exactly the positions of unprintable characters and of letters in another case than the first; none exactly if the string is printable and not of mixed case |
| Bech32.ReadsUnique | src/bech32.cpp:373-400 | a string stands for at most one payload |
| Bech32.Accepted | src/bech32.cpp:397-399 | a string that passes all tests is, in lower case, the encoding of the payload returned |
| Bech32.Decode | src/bech32.cpp:373-400 | the payload whose encoding the string is, up to case, or failure exactly if there is none within the limit |
| Bech32.EncodedReads | src/bech32.cpp:357-400 | exactly which encoded strings can be read, and as what |
| Bech32.RoundTrip | src/bech32.cpp:357-400 | decoding what was encoded gives the payload back exactly if the human-readable part is printable and not empty and the limit is kept |
| Bech32.CorruptionDetected | src/bech32.cpp:326-400 | two readable strings of one encoding that differ only within six neighbouring characters of the data part, without a new separator, stand for the same payload |
| Bech32.HrpCorruptionDetected | src/bech32.cpp:317-319 | so do two that differ only within six neighbouring characters of the human-readable part, each with the same upper bits |
| Bech32.ChangedHrpRefused | src/bech32.cpp:311-400 | of the code: after a change of one character of the human-readable part within its row of 32, decoding fails or gives the other encoding |
| Bech32.KnownAnswers | src/test/bech32_tests.cpp:18-39 | the answers of BIP 173 and BIP 350 for the human-readable part "a" and no data |
| CompactBlocks.Place | src/blockencodings.cpp:72-87 | all transactions sent along are in their places, or failure exactly if a position does not fit in 16 bits or in the block, or a transaction is null |
| CompactBlocks.MapShortIds | src/blockencodings.cpp:94-116 | the i-th short id leads to the i-th open place, with no index out of range; failure exactly if two are the same or a bucket is too full |
| CompactBlocks.OfferedKeeps | src/blockencodings.cpp:118-176 | looking at an offer keeps every filled place explained by some offer with its short id |
| CompactBlocks.OfferedGain | src/blockencodings.cpp:125-168 | by how much an offer changes the number of filled places: one more, one fewer or none |
| CompactBlocks.OfferedCompletes | src/blockencodings.cpp:118-176 | without collisions no transaction found is dropped again |
| CompactBlocks.PartiallyDownloadedBlock.Search | src/blockencodings.cpp:118-176 | exactly the search described by Searched: offer after offer until the count is the number of short ids |
| CompactBlocks.SearchedSound | src/blockencodings.cpp:118-176 | such a search takes only offers with the short id of their place, counts the places filled, and without collisions finds all that can be found |
| CompactBlocks.SearchStops | src/blockencodings.cpp:139-143 | what is offered after the last transaction was found does not matter, not even a collision |
| CompactBlocks.PartiallyDownloadedBlock.InitData | src/blockencodings.cpp:59-181 | exactly which compact blocks are invalid, failed or accepted, and the state then; the block then known is the outcome of the two searches; mempool_count grows by the available places that were not sent along, and is their number exactly if it was zero; no index is out of range |
| CompactBlocks.CountsTooMany | src/blockencodings.cpp:59-181 | an object used again after completing a block, whose mempool_count is then too high |
| CompactBlocks.PartiallyDownloadedBlock.FillBlock | src/blockencodings.cpp:191-237 | exactly when the missing transactions are too few, too many or right; the block is then the known transactions with the missing ones in order; it cannot be called again |
| CompactBlocks.AvailableIsRight | src/blockencodings.cpp:59-181 | without collisions every available transaction is the one of the block |
| CompactBlocks.OpenNotOnOffer | src/blockencodings.cpp:59-181 | without collisions only transactions that were neither sent along nor on offer are asked for |
| CompactBlocks.FilledIsBlock | src/blockencodings.cpp:198-208 | filling the open places with their transactions gives the block |
| CompactBlocks.Request | src/blockencodings.cpp:183-189 | asks for exactly the open places in order, and what a peer with the block answers |
| CompactBlocks.MakeCompact | src/blockencodings.cpp:20-33 | the compact form of a block describes it |
| CompactBlocks.Exchange | src/blockencodings.cpp:59-237 | the whole exchange: after an accepted compact block without collisions, filling in the answer rebuilds exactly the transaction list of the block |
| Differences.DifferenceFormatter.Ser | src/blockencodings.h:28-34 | the distance from the smallest index possible, or failure exactly if the index is too small or the largest 64-bit number |
| Differences.DifferenceFormatter.Unser | src/blockencodings.h:35-42 | the index again, or failure exactly if it does not fit its type or 64 bits, wrap-around included |
| Differences.Write | src/blockencodings.h:45-55 | exactly the strictly increasing lists can be written |
| Differences.Read | src/blockencodings.h:45-55 | what is read is strictly increasing and encoded by the input, with no distance above the limit for sizes; failure only if there is no such list |
| Differences.TooLargeGap | src/blockencodings.h:35-42 | a list of one index that is written but refused when read |
| Differences.RoundTrip | src/blockencodings.h:23-55 | exactly the strictly increasing lists in which no gap exceeds the limit for sizes survive being written and read; for all others it fails |

## Left out

- Coins: AddCoins, HaveInputs, AccessCoin, AccessByTxid, GetBestBlock and the error-catching view, which only add easy members; ReallocateCache and tracepoints, which have no effect on the model.
- CoinsCache.CoinsViewDB.BatchWrite: the writing in several batches and the best-block and head-blocks records around them (src/txdb.cpp:105-129, 142-170) are not modelled; the database is a map.
- CoinsCache.CoinsViewCache.AddCoin: coins that are moved are modelled as copied.
- CoinsCache.CoinsViewCache.WriteEntry: for an entry whose flags contradict the parent it is stated which entry is then held, but not whether the invariant is kept.
- AddrMan.AddrMan.Good: requires a positive time; at or before the epoch the source stores a time that its own check refuses.
- AddrMan.AddrMan.Attempt: requires a time that is not before the epoch, for the same reason.
- AddrMan.AddrMan.AddSingle: the random draw that makes further slots unlikely is a parameter.
- AddrMan.AddrMan.ResolveOne: has no branch for an empty tried slot (src/addrman.cpp:961-964), because Awaited proves that it is never taken.
- AddrMan.AddrMan.ResolveCollisions: the order in which collisions are visited is arbitrary, not by id.
- Address manager: Select_ and GetChance (floating point and termination with probability one only), the loop of Add_, GetEntries_, FindAddressEntry_ and locking.
- AddrCheck.CheckAddrman: where several things are wrong, which of them is reported is not stated.
- AddrSerialize.Serialize: works on a snapshot of the fields; format and version bytes, the byte encoding of entries and older formats are not modelled.
- AddrSerialize.Unserialize: for a file that was not written by Serialize from valid addresses, or with another asmap version, it is not stated when it is accepted, only what is then in it.
- Check queue: the destructor and the request to stop.
- Block index: GetMedianTimePast, GetBlockProofEquivalentTime, Next, IsTipRecent, validity flags and chain work.
- Big integers: bitwise operators, getdouble, hexadecimal conversion, and the forms of the operators that only copy and call.
- Base58: the variants with a checksum, which call a hash that is not part of this model.
- Bech32: LocateErrors and Syndrome with their tables. Bech32.CreateChecksum has its loop over six symbols unrolled.
- CompactBlocks.PartiallyDownloadedBlock.InitData: requires that a compact block with more than 65535 transactions, which reading one from the network refuses (src/blockencodings.h:124-127), is also over the limit that InitData itself checks; extra_count, used for logging only, is not modelled.
- CompactBlocks.MapShortIds: requires at most 65535 transactions, beyond which the 16-bit offset of the source can wrap around and its scan need not end.
- CompactBlocks.PartiallyDownloadedBlock.FillBlock: whether a block is mutated is a parameter.
- CompactBlocks.Exchange: requires that no transaction on offer shares a short id with another transaction of the block.
- Everything else in the repository: scripts, validation, networking, wallets, storage, user interfaces and command-line tools.
