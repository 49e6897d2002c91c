# A verified model of the node's core data structures

This project models, in Dafny, the parts of the node whose correctness is hardest to see from the code, and proves what
the code, its comments and its tests promise of them. Each component has a specification on values, theorems about that
specification over all inputs, runs or reachable states, and, where the code works in place, a class or a method with the
code's own loops that is proved to do what the specification says.

- **Address manager** (`AddrTables`, `AddrMan`). Five cross-linked structures. Every run from a new manager keeps all the
  structural checks of `Check_`, its time checks hold under an exact condition, no assertion on the way can fail, and the
  buckets that one group of addresses or sources can reach are few.
- **The address file** (`AddrStore`, `AddrRestore`). Exactly when loading a file gives a consistent manager; loading what a
  consistent manager saved gives that manager back up to the ids.
- **Coin caches** (`Coins`). Any stack of write-back caches with DIRTY and FRESH flags shows, at every level, what plain maps
  would show, and exactly when a change below the top would break that.
- **Coin records** (`CoinsCodec`, `Compressor`, `Amounts`). Header code, trimmed bitmask, compressed amounts and scripts, and exactly
  when a record comes back.
- **Check queue** (`CheckQueue`). A state machine over critical sections with one master and any number of workers: the
  verdict of every wait in every run, no lost wake-up, and a bound on the steps of a wait.
- **Block assembler** (`Mempool`, `Packages`, `Selection`, `Miner`). Validity of every assembled block, under any order of
  transactions, and an account of every transaction: in the block, refused for a stated reason, or behind a stated end.
- **Partial Merkle trees** (`MerkleBlock`, `MerkleLevels`, `MerkleSize`; the partial Merkle branch format of BIP 37) and
  **merged mining** (`AuxPow`). Soundness, round trip and exact size of proofs; exactly which proofs of work of a parent are
  accepted, and at most one auxiliary block per parent coinbase.
- **Cuckoo cache** (`CuckooCache`) and **rolling bloom filter** (`RollingBloom`). What is kept, what is found, and for the
  filter an exact condition for being found.
- **Message framing** (`NetFraming`). From the send queue of one node through any partial sends and any cutting of the
  stream to the message list of another.
- **256-bit arithmetic, compact targets, median times, retargeting** (`Limbs`, `ArithUint256`, `Compact`, `MedianTime`, `Pow`).
  What every retarget computes, over whole chains; the median time never falls.
- **Block index** (`SkipHeights`, `Chain`), with a bound on the steps along the skip pointers.
- **Base58** (`Base58`), with its two fixed-size buffers.

`Powers` and `ByteBits` hold shared arithmetic.

## Modelling decisions

- Hashes, the address group, routability and public key recovery are parameters. Where a result needs that a hash has no
  collisions, this is asked only of a finite set of pairs that contains the ones hashed in the case at hand.
- Clocks, random numbers, answers of the socket and the next transaction to be considered are parameters, so every result
  holds for all of them.
- Integers are unbounded, except where a width matters and is written out: limbs and words of the big numbers, the generator
  of the expected index, the flags of the cuckoo cache, the words of the bloom filter, the header fields of messages, the
  compressed amounts and the scaling in a retarget. The transition factor of the difficulty limits is a real number.
- A run of the address manager starts from a new object, and a file is read into a new object, because `Clear`
  (src/addrman.h:451-470) does not empty `mapInfo` or `mapAddr`.
- `ModifyNewCoins` for a transaction that is not a coinbase asks that nothing is unspent under its id; the model shows that
  this is exactly what its flags need.
- The mempool is a finite acyclic graph with sizes, weights, costs and ancestor totals, and with a weight of at most four
  times the size; txmempool.cpp is not part of this model.

Where code and comment disagree the model follows the code: the first swap of an insertion into the cuckoo cache goes to the
second location (src/cuckoocache.h:395-406 says the first), and a header with a bad timestamp gets the easiest target
(src/pow.cpp:154 says high difficulty).

Some promises turned out false; each has its exact condition or its exact formula, most with a named input on which it fails:

- Coins with a negative version or height do not survive being written and read, since VARINT writes a negative number as its
  low seven bits, nor do those with an amount whose code wraps around at 64 bits, nor those with an overlong script
  (`CoinsCodec.RoundTripIff`, `CoinsCodec.NegativeVersionLost`, `CoinsCodec.LargeAmountLost`).
- A partial Merkle tree can need more than 2n - 1 bits for n hashes (`MerkleSize.BitsIff`, `MerkleSize.LastOfFive`), and more
  than 10 + ceil(32.25 n) bytes (`MerkleSize.SizeIff`, `MerkleSize.TooLarge`), where expanded nodes have a single child.
- The time checks of `Check_` fail after `Good_` with a time that is not positive or `Attempt_` with a negative one, and only
  then (`AddrTables.RunTimed`, `AddrTables.GoodAtZero`).
- A file with repeated addresses or a negative count can load into a manager that fails `Check_` (`AddrStore.LoadedIff`,
  `AddrStore.RepeatClashes`, `AddrStore.NegativeCount`), and so can one with bad times (`AddrStore.LoadedTimed`).
- A change below a cache that holds a copy of the coins goes unseen above (`Coins.ChangeBelowIff`, `Coins.CopyGoesStale`).
- A big number multiplied by itself in place gives zero, because the receiver is zeroed before the other operand is read
  (`ArithUint256.BaseUint.Multiply`).
- The fees that the assembler keeps for a package drift from those of its transactions where fees were modified
  (`Packages.FeesIff`, `Packages.FeesDrift`).

## Model

| member | source | states |
|---|---|---|
| `AddrTables.RunConsistent` | src/addrman.cpp:81-335 | every state of every run of Add_, Good_, Attempt_, Connected_, SetServices_ and GetAddr_ from a new manager meets all of the structural checks of Check_ (the one on the key, code -16, as the key of the new manager does); vRandom, mapInfo and the counters agree in size |
| `AddrTables.StepKeeps` | src/addrman.cpp:190-335 | one operation keeps the full invariant |
| `AddrTables.StepKeepsKey` | src/addrman.cpp:455-456 | no operation changes the key |
| `AddrTables.TerribleIff` | src/addrman.cpp:33-51 | on the fields: an entry is worth keeping exactly if it was tried within the last minute, or it was seen within the last 30 days and at most 10 minutes ahead, and neither failed 3 times without ever succeeding nor 10 times with no success for 7 days |
| `AddrTables.StepKeepsTimed` | src/addrman.cpp:385-459 | the checks on the time fields (codes -1, -6 and -8) survive an operation exactly if it is not a Good_ of a known service with a time that is not positive, nor an Attempt_ of one with a negative time |
| `AddrTables.RunTimed` | src/addrman.cpp:385-459 | along every run the time checks hold in all states exactly if each operation was given such a time |
| `AddrTables.GoodAtZero` | src/addrman.cpp:190-240 | a run that fails them: any routable address is added and then reported good at time zero |
| `AddrTables.GoodKeepsTimed` | src/addrman.cpp:190-240 | Good_ keeps the time checks exactly if the service is unknown or the time positive |
| `AddrTables.AttemptKeepsTimed` | src/addrman.cpp:315-335 | Attempt_ keeps them exactly if the service is unknown or the time not negative |
| `AddrTables.SwapKeeps` | src/addrman.cpp:93-111 | a swap keeps vRandom and nRandomPos inverse to each other and changes nothing but positions; its assertions hold |
| `AddrTables.DeleteKeeps` | src/addrman.cpp:113-125 | deleting an unreferenced new entry keeps all the tables and counts one entry less; its assertions hold |
| `AddrTables.ClearNewKeeps` | src/addrman.cpp:127-140 | emptying a new slot keeps the invariant, and removes exactly the entry that loses its last reference |
| `AddrTables.PlaceKeeps` | src/addrman.cpp:302-305 | a free slot where the hash of an address allows it can take a reference to it, up to 8 per address |
| `AddrTables.WithdrawKeeps` | src/addrman.cpp:144-154 | visiting the one hashed position of each of the 1024 buckets removes every reference to an entry |
| `AddrTables.EvictKeeps` | src/addrman.cpp:160-182 | the tried entry in the way goes back to a new slot without harm to any other entry in transit; the assertions on the way hold |
| `AddrTables.SetTriedKeeps` | src/addrman.cpp:183-187 | an entry without references enters its free tried slot and the state is consistent again |
| `AddrTables.MakeTriedKeeps` | src/addrman.cpp:142-188 | the whole move from new to tried keeps the invariant and changes of the moved entry only its table, its references and its position |
| `AddrTables.AdmitKeeps` | src/addrman.cpp:285-288 | a newly created entry is the only one in transit |
| `AddrTables.SettleKeeps` | src/addrman.cpp:291-312 | at the end of Add_ the entry has a slot, or had one already, or is gone, and the state is consistent |
| `AddrTables.AddKeeps` | src/addrman.cpp:242-313 | Add_ keeps the invariant for every address, source, penalty, clock and random number |
| `AddrTables.GoodKeeps` | src/addrman.cpp:190-240 | Good_ keeps the invariant |
| `AddrTables.AddFrame` | src/addrman.cpp:242-313 | Add_ loses no entry but the one that held the slot of the address in the new table, adds none but the new one, and of all others changes only references and positions, and of the known entry time and services |
| `AddrTables.AddOutcome` | src/addrman.cpp:242-313 | an unknown routable address is known afterwards exactly if its slot was free, held an entry not worth keeping (by the fields) or held one with another reference; then its slot holds it, with the told services, the time less the penalty but not negative, no history and one reference; otherwise nothing changes but the id counter |
| `AddrTables.AddAgain` | src/addrman.cpp:254-312 | a known address gains a slot exactly if it is not tried, has fewer than 8 references, was told with a time above its own, the random number is a multiple of 2 to its references, and its slot for this source is free or held by another entry not worth keeping; then that slot alone changes |
| `AddrTables.GoodFrame` | src/addrman.cpp:190-240 | Good_ keeps the history of every other entry, never makes another one tried, and loses no entry but the holder of the new slot that the evicted tried entry goes back to |
| `AddrTables.GoodOutcome` | src/addrman.cpp:190-240 | afterwards the entry with exactly that service is tried, with zero attempts and the given times; if there is none only nLastGood changes |
| `AddrTables.GetAddrReply` | src/addrman.cpp:462-481 | a reply has distinct entries, all of them worth keeping by their fields, at most 23 percent and at most 2500, and every one worth keeping if it is shorter than that; the state is only reshuffled |
| `AddrTables.SizesAgree` | src/addrman.cpp:390-391 | vRandom has as many entries as nTried and nNew together, and as mapInfo |
| `AddrTables.GroupInFewTried` | src/addrman.h:112-136 | all addresses of one group together fall into at most 8 of the 256 tried buckets |
| `AddrTables.SourceInFewNew` | src/addrman.h:112-136 | all addresses told by sources of one group fall into at most 64 of the 1024 new buckets |
| `AddrTables.FewSlotsEach` | src/addrman.h:112-136 | in a consistent manager an entry holds at most 8 new slots, no two of them in one bucket |
| `AddrTables.RefreshOnlyGains` | src/addrman.cpp:257-264 | the periodic update never lowers the time, and raises it only to the penalised one that was told; it leaves it no more than an hour behind that if the address is online now, or a day otherwise, and alone if it is within that interval; it adds exactly the told services, and changes nothing else |
| `AddrTables.AttemptOutcome` | src/addrman.cpp:315-335 | only the entry with exactly that service changes: it gets the time of the try, and one attempt more exactly if failures count and none was counted since the last success of any entry |
| `AddrTables.CountedOnce` | src/addrman.cpp:330-334 | so between two successes at most one failure is counted, however often it is tried |
| `AddrTables.ConnectedOutcome` | src/addrman.cpp:483-501 | only the entry with exactly that service changes, only in its time, and exactly if that is more than 20 minutes old |
| `AddrTables.SetServicesOutcome` | src/addrman.cpp:503-519 | only the entry with exactly that service changes, and only in its services, which are the given ones |
| `AddrMan.CAddrMan.constructor` | src/addrman.h:472-475 | a new manager is empty and consistent |
| `AddrMan.CAddrMan.Find` | src/addrman.cpp:68-79 | finds the id of an address that is known |
| `AddrMan.CAddrMan.Create` | src/addrman.cpp:81-91 | the new id is the counter, and the maps and vRandom get the entry |
| `AddrMan.CAddrMan.SwapRandom` | src/addrman.cpp:93-111 | in place, what the swap function says, with its assertions proved |
| `AddrMan.CAddrMan.Delete` | src/addrman.cpp:113-125 | in place, what the delete function says, with its assertions proved |
| `AddrMan.CAddrMan.ClearNew` | src/addrman.cpp:127-140 | in place, what the clearing function says, with its assertion proved |
| `AddrMan.CAddrMan.LeaveNewBuckets` | src/addrman.cpp:144-154 | the loop over all new buckets removes all references of an entry |
| `AddrMan.CAddrMan.EvictTried` | src/addrman.cpp:160-182 | in place, the eviction function, with its assertions proved |
| `AddrMan.CAddrMan.MakeTried` | src/addrman.cpp:142-188 | in place, the move to tried; the assertion that nRefCount is zero and the one that the slot is empty never fail |
| `AddrMan.CAddrMan.FindNewBucket` | src/addrman.cpp:219-234 | the search for a new bucket that holds the entry always succeeds and returns the first one from the random start, so the early return for none found is never taken |
| `AddrMan.CAddrMan.Good` | src/addrman.cpp:190-240 | in place, the Good_ function; the object stays consistent |
| `AddrMan.CAddrMan.Settle` | src/addrman.cpp:291-312 | in place, the end of Add_ |
| `AddrMan.CAddrMan.WinsSlot` | src/addrman.cpp:266-283 | the cascade of early returns, with its loop that doubles a factor, amounts to the stated stochastic test |
| `AddrMan.CAddrMan.Add` | src/addrman.cpp:242-313 | in place, the Add_ function; the object stays consistent; returns whether a routable address was unknown |
| `AddrMan.CAddrMan.GetAddr` | src/addrman.cpp:462-481 | in place, the shuffle and selection that GetAddrReply characterises, with the addresses of the selected entries |
| `AddrMan.CAddrMan.Attempt` | src/addrman.cpp:315-335 | in place, the Attempt_ function; the object stays consistent |
| `AddrMan.CAddrMan.Connected` | src/addrman.cpp:483-501 | in place, the Connected_ function; the object stays consistent |
| `AddrMan.CAddrMan.SetServices` | src/addrman.cpp:503-519 | in place, the SetServices_ function; the object stays consistent |
| `AddrStore.FileLoads` | src/addrman.h:346-431 | whatever a file holds whose count of new entries is not negative, once entries and references are loaded the tables are consistent except for the new entries that got no reference, for a negative count of tried ones, and for the meaning of mapAddr |
| `AddrStore.LoadNewLoading` | src/addrman.h:375-391 | loading one record of the new table keeps that, whether or not the buckets of the file can be used |
| `AddrStore.LoadTriedLoading` | src/addrman.h:396-412 | loading one record of the tried table keeps that, also if its slot is taken |
| `AddrStore.PlacedInLoading` | src/addrman.h:422-429 | a reference listed in the file keeps that, also if the slot is taken or the entry has 8 references |
| `AddrStore.PruneOne` | src/addrman.h:433-443 | pruning an unreferenced entry is possible and leaves fewer of them and everything else |
| `AddrStore.LoadedIff` | src/addrman.h:346-448 | whatever a file holds, loading it ends in a consistent manager exactly if neither count is negative and no entry that survives pruning shares its address with another one read |
| `AddrStore.RepeatClashes` | src/addrman.h:346-448 | a file on which it does not: one record that is listed both as new and as tried |
| `AddrStore.NegativeCount` | src/addrman.h:358-393 | another file: a count of -1 new entries is accepted, and leaves a manager with that count whose next id is the mark of an empty slot |
| `AddrStore.LoadedTimed` | src/addrman.h:346-448 | the time checks that end the loading pass exactly if every entry that survives pruning has a last success that is not negative, and a tried one some success |
| `AddrStore.SaneApart` | src/addrman.h:346-448 | a file without repeated addresses meets that condition |
| `AddrStore.FileAddressed` | src/addrman.h:374-413 | after loading, mapAddr leads from each address to an entry read with that address, repeated or not |
| `AddrStore.UnusableKeeps` | src/addrman.h:375-391 | if the buckets of a file cannot be used, exactly those new records get a reference that come first among the ones with the same slot |
| `AddrStore.TriedKeeps` | src/addrman.h:396-412 | of the tried records exactly those are kept that come first among the ones with the same tried slot, under ids counted in that order |
| `AddrStore.LoadedConsistent` | src/addrman.h:346-448 | loading any file without repeated addresses ends in a consistent manager |
| `AddrRestore.SavedSane` | src/addrman.h:296-344 | what a consistent manager writes has no repeated address, as many records as nNew and nTried say, and no more than loading accepts |
| `AddrRestore.CountsBounded` | src/addrman.h:366-372 | a consistent manager never has more entries than the limits that loading checks, since each holds a slot of its own |
| `AddrRestore.RoomToPlace` | src/addrman.h:424-428 | in loading what was saved, the slot is still free and the entry still below 8 references whenever one is to be placed |
| `AddrRestore.BucketsBack` | src/addrman.h:415-431 | loading the written lists brings back each bucket of the new table, slot by slot |
| `AddrRestore.EntriesBack` | src/addrman.h:374-413 | loading brings back all entries, and each tried entry in its slot, with none lost |
| `AddrRestore.NothingPruned` | src/addrman.h:433-443 | nothing that was saved is pruned |
| `AddrRestore.SavedRestored` | src/addrman.h:296-449 | loading what a consistent manager saved gives the same manager up to a renaming of ids: same addresses, stored data, reference counts, new slots and tried slots, and the same counters |
| `AddrMan.CAddrMan.Clear` | src/addrman.h:451-470 | empties vRandom and both bucket arrays and resets the counters, but keeps the two maps |
| `AddrMan.CAddrMan.ListBucket` | src/addrman.h:333-342 | the indices of the occupied slots of a bucket, in order |
| `AddrMan.CAddrMan.Serialize` | src/addrman.h:296-344 | the written file is the specified one for the ids in increasing order; both assertions on the counters hold |
| `AddrMan.CAddrMan.ReadNew` | src/addrman.h:375-391 | in place, the loading of one new record |
| `AddrMan.CAddrMan.ReadTried` | src/addrman.h:396-412 | in place, the loading of one tried record, or its loss |
| `AddrMan.CAddrMan.ReadBuckets` | src/addrman.h:415-431 | in place, the loading of all references |
| `AddrMan.CAddrMan.ReadEntries` | src/addrman.h:374-413 | in place, the loading of all entries, with the count of lost ones taken off nTried |
| `AddrMan.CAddrMan.Prune` | src/addrman.h:433-443 | in place, the pruning of all unreferenced new entries |
| `AddrMan.CAddrMan.Unserialize` | src/addrman.h:346-449 | fails exactly if a count exceeds its limit; otherwise reading any file into a new manager gives the loaded and pruned state, which is consistent, and has its times in order, exactly under the two conditions above |
| `AddrMan.Reload` | src/addrman.h:296-449 | saving one manager and reading the file into a new one gives an isomorphic, consistent manager and leaves the first unchanged |
| `Coins.RunAgrees` | src/coins.cpp:72-259 | for any stack of caches over a database and any run of fetches and flushes at every level, and of modifications, new coins and uncachings at the top, each level shows what a plain map per level shows after the same updates, and every flag means what it should |
| `Coins.StepAgrees` | src/coins.cpp:72-259 | one such step keeps the agreement and the meaning of the flags; ModifyNewCoins does not throw if nothing is unspent under the id |
| `Coins.FetchKeeps` | src/coins.cpp:72-88 | a lookup fills caches below without changing what any level shows; FRESH and clean entries stay truthful |
| `Coins.BeginModifyKeeps` | src/coins.cpp:99-118 | starting to modify keeps what every level shows |
| `Coins.BeginNewKeeps` | src/coins.cpp:134-153 | starting from new coins is sound exactly if it is a coinbase, or the id is cached here, or nothing is unspent below; then only that id changes |
| `Coins.WriteKeeps` | src/coins.cpp:317-334 | assigning through the modifier changes exactly one id at the top level |
| `Coins.EndModifyKeeps` | src/coins.cpp:322-334 | releasing the modifier cleans the coins and may drop a fresh pruned entry, but what is shown is only cleaned |
| `Coins.UncacheKeeps` | src/coins.cpp:252-259 | dropping a clean entry changes no view |
| `Coins.FreshNeverMisapplied` | src/coins.cpp:210-215 | the logic error for a misapplied FRESH flag is unreachable |
| `Coins.FlushBelow` | src/coins.cpp:188-250 | after a flush the level below shows exactly what this level showed, and this one still does |
| `Coins.FlushKeeps` | src/coins.cpp:188-250 | a flush keeps all flags truthful and changes only the view of the level below |
| `Coins.CleanupKeepsPruned` | src/coins.h:114-119 | cleaning keeps whether coins are fully spent, which is so exactly if nothing is left of them |
| `Coins.ChangeBelowIff` | src/coins.cpp:72-118 | a change of an entry at any level keeps every flag truthful exactly if no cache above holds a clean copy that shows something else, or a fresh entry over coins that are now unspent |
| `Coins.CopyGoesStale` | src/coins.cpp:72-118 | a stack on which it does not: a cache above keeps showing the coins that were changed below it |
| `Coins.SpendsOne` | src/coins.cpp:35-42 | spending makes exactly that output unavailable, leaves the others as they are, and keeps version, height and coinbase mark; nothing is left exactly if no other output was unspent |
| `Coins.CleanupOnly` | src/coins.h:114-119 | cleaning drops exactly the outputs from which on all are null, and keeps version, height and coinbase mark |
| `Coins.HaveIffUnspent` | src/coins.cpp:164-171 | for cleaned coins, a nonempty list of outputs means that something is unspent |
| `Coins.CCoinsViews.constructor` | src/coins.cpp:61-61 | a database with no cache is sound |
| `Coins.CCoinsViews.GetCoins` | src/coins.cpp:72-97 | in place, the recursive lookup through all caches |
| `Coins.CCoinsViews.HaveCoins` | src/coins.cpp:164-171 | in place, whether coins with outputs are found; looks up and caches as GetCoins does |
| `Coins.CCoinsViews.ModifyCoins` | src/coins.cpp:99-118 | in place, the start of a modification |
| `Coins.CCoinsViews.ModifyNewCoins` | src/coins.cpp:134-153 | in place, the start from new coins; fails exactly where the source throws, and then changes nothing |
| `Coins.CCoinsViews.Assign` | src/coins.h:364-365 | in place, an assignment through the modifier |
| `Coins.CCoinsViews.ReleaseModifier` | src/coins.cpp:322-334 | in place, the end of a modification |
| `Coins.CCoinsViews.Uncache` | src/coins.cpp:252-259 | in place, the removal of a clean entry |
| `Coins.CCoinsViews.Flush` | src/coins.cpp:245-250 | in place, the flush of one level into the one below or into the database |
| `Coins.TrimVector` | src/coins.h:114-119 | the loop that pops spent outputs |
| `Coins.Spend` | src/coins.cpp:35-42 | spends an output exactly if it is available, with the effect that SpendsOne states, and otherwise changes nothing |
| `Coins.MergeEntry` | src/coins.cpp:191-237 | one entry merged, by the four cases of the source |
| `Coins.BatchWrite` | src/coins.cpp:188-243 | merging entry by entry, in any order, equals merging all at once |
| `Coins.BatchWriteDb` | src/txdb.cpp:47-68 | writing entry by entry, in any order, stores exactly the dirty unspent coins and erases the dirty spent ones |
| `CheckQueue.RunInv` | src/checkqueue.h:69-161 | under every interleaving of one master and any number of workers nTodo is the number of queued and in-flight checks, nIdle and nTotal count the threads, and fAllOk with the local results is the verdict so far |
| `CheckQueue.StepKeeps` | src/checkqueue.h:69-161 | every critical section of Loop and Add keeps that invariant |
| `CheckQueue.WaitReturnsVerdict` | src/checkqueue.h:91-100 | in whichever critical section Wait returns, the first included, it returns the conjunction of exactly the checks added since the last Wait, the queue is empty and no thread works |
| `CheckQueue.RunVerdict` | src/checkqueue.h:69-161 | so at every Wait that returns in every run: its verdict is the conjunction of the checks that the Adds since the previous return brought in |
| `CheckQueue.NoLostWakeup` | src/checkqueue.h:80-104 | a master asleep without a notification always has a worker with checks in flight |
| `CheckQueue.Progress` | src/checkqueue.h:69-127 | while Wait has not returned some thread can take a step that is not a spurious wake-up |
| `CheckQueue.StepMeasure` | src/checkqueue.h:69-127 | every such step lowers a measure |
| `CheckQueue.WaitTerminates` | src/checkqueue.h:69-146 | so the steps taken in a Wait that are not spurious wake-ups, however many of those come between, are bounded by that measure at its start |
| `CheckQueue.BatchSize` | src/checkqueue.h:105-117 | a batch is never empty and never more than the queue |
| `CheckQueue.BatchFair` | src/checkqueue.h:105-110 | a batch of more than one check is within nBatchSize and within the share of each thread, if total, idle and one more shared the queue; and it is as large as that allows |
| `MerkleBlock.WidthIff` | src/merkleblock.h:64-67 | a position exists at a height exactly if its first leaf does |
| `MerkleBlock.TreeHeightTop` | src/merkleblock.cpp:139-142 | the height loop ends at one node |
| `MerkleBlock.ExtractSound` | src/merkleblock.cpp:96-132 | by induction over the walk: below a node that hashes to the node of the block, only ids of the block are returned, for a tree of the same height whatever number of transactions it claims |
| `MerkleBlock.ExtractAuthentic` | src/merkleblock.cpp:150-181 | if extraction succeeds with the root of a block and no pair hashed on either side collides, every returned id is the one of the block at the returned index, and the indices rise strictly, so none is reported twice; the tree may claim another number of transactions, if it gives the same height and the ids of the block are distinct |
| `MerkleBlock.SameShape` | src/merkleblock.cpp:112-131 | the step that needs the rejection of equal halves: such a tree has a right child exactly where the block has one |
| `MerkleBlock.ExtractRejects` | src/merkleblock.cpp:150-181 | a nonzero root is given only for at most 16666 transactions, no more hashes than these and than bits, all hashes used, and fewer than eight bits left over |
| `MerkleBlock.ExtractRises` | src/merkleblock.cpp:96-132 | on any input the walk reports indices in strictly rising order within the range of its node |
| `MerkleBlock.SiblingsDiffer` | src/merkleblock.cpp:121-125 | for distinct ids the two children of a node never hash alike, so a true tree is never taken for one with duplicates |
| `MerkleBlock.ExtractBuilt` | src/merkleblock.cpp:78-132 | extracting from a built tree consumes exactly what was built for a node and yields its hash, the matched ids and positions |
| `MerkleBlock.BuiltSizes` | src/merkleblock.cpp:78-94 | a node stores no more hashes than it has leaves, and no more than bits |
| `MerkleBlock.BuiltPerMatch` | src/merkleblock.cpp:78-94 | a node stores at most one hash more than its matches times its height |
| `MerkleBlock.BuiltBound` | src/merkleblock.cpp:134-146 | a built tree stores at most nTransactions hashes and at most 1 + matched * height |
| `MerkleSize.BitCount` | src/merkleblock.cpp:78-94 | the bits stored for a node are one less than twice its hashes, plus one for every expanded node without a right child |
| `MerkleSize.BuiltCounts` | src/merkleblock.cpp:134-146 | the same for a whole built tree |
| `MerkleSize.BitsIff` | src/merkleblock.h:31-48 | no more than 2n - 1 bits are stored for n hashes exactly if no matched id lies below a last node with a single child |
| `MerkleSize.BitsBound` | src/merkleblock.h:31-48 | and never more than the height of the tree on top of that |
| `MerkleSize.LastOfFive` | src/merkleblock.h:31-48 | an input with more: five ids with the last matched, 2 hashes and 5 bits |
| `MerkleSize.SizeIff` | src/merkleblock.h:31-48 | the encoded size is within 10 + ceil(32.25 n) bytes for n hashes exactly if a stated relation between n and the number of single children on the path to the last match holds |
| `MerkleSize.SizeOf` | src/merkleblock.h:31-48 | the arithmetic of that relation, with the lengths of both counts |
| `MerkleSize.TooLarge` | src/merkleblock.h:31-48 | an input above the guarantee: 1012 ids, all matched, take 32648 bytes, one more than promised |
| `MerkleBlock.UnpackPacked` | src/merkleblock.h:88-105 | unpacking packed bits gives the bits and fewer than eight more, all false |
| `MerkleBlock.BuildPackExtract` | src/merkleblock.cpp:134-181 | for distinct ids and any mask: build, pack, unpack and extract gives the true root and exactly the matched ids and positions in order |
| `MerkleLevels.LevelUp` | src/merkleblock.cpp:60-76 | a node is the node one lower over the paired hashes of the level below, the last one paired with itself |
| `MerkleLevels.RootIsByLevels` | src/consensus/merkle.cpp:10-158 | so the root is the one of pairing level by level until one hash is left, as the root of a block is |
| `MerkleLevels.LastOfThree` | src/merkleblock.h:31-48 | an example in full: three ids with the last matched give the bits 1, 0, 1, 1 and two hashes |
| `MerkleBlock.PackBits` | src/merkleblock.h:99-102 | the packing loop |
| `MerkleBlock.UnpackBits` | src/merkleblock.h:92-97 | the unpacking loop |
| `MerkleBlock.CPartialMerkleTree.constructor` | src/merkleblock.cpp:134-146 | builds the specified tree |
| `MerkleBlock.CPartialMerkleTree.CalcHeight` | src/merkleblock.cpp:139-142 | the height loop |
| `MerkleBlock.CPartialMerkleTree.ParentOfMatch` | src/merkleblock.cpp:80-82 | the loop over the leaves below a node finds whether one is matched |
| `MerkleBlock.CPartialMerkleTree.TraverseAndBuild` | src/merkleblock.cpp:78-94 | in place, appends the bits and hashes of a node |
| `MerkleBlock.CPartialMerkleTree.TraverseAndExtract` | src/merkleblock.cpp:96-132 | in place, walks a node with the same counters, results and badness as specified, on any input |
| `MerkleBlock.CPartialMerkleTree.ExtractMatches` | src/merkleblock.cpp:150-181 | in place, all rejections and the result on any input |
| `MerkleBlock.RelayMatches` | src/merkleblock.cpp:134-181 | two objects, one writing and one reading: the receiver extracts what the sender matched |
| `AuxPow.CheckMerkleBranch` | src/auxpow.cpp:185-202 | the climbing loop, and the null hash for index -1 |
| `AuxPow.ClimbInjective` | src/auxpow.cpp:185-202 | without collisions two climbs of equal length and index to one root start at one leaf and use one branch |
| `AuxPow.ClimbReachesRoot` | src/auxpow.cpp:185-202 | the branch taken from a tree of leaves climbs to its root |
| `AuxPow.SlotUnbounded` | src/auxpow.cpp:159-183 | wrapping at 32 bits after each step does not matter: the slot is the generator over unbounded integers modulo 2^h |
| `AuxPow.GetExpectedIndex` | src/auxpow.cpp:159-183 | the slot is below 2^h |
| `AuxPow.Search` | src/auxpow.cpp:109-113 | the first occurrence of a pattern in the script |
| `AuxPow.Check` | src/auxpow.cpp:80-157 | accepts, for any input, exactly the proofs that PassesIff describes |
| `AuxPow.PassesIff` | src/auxpow.cpp:80-157 | a proof passes exactly if its index is 0, its parent is of another chain where that is asked for, its chain branch has at most 30 hashes, its coinbase branch leads to the root of the parent block, and the reversed chain root stands in the coinbase script, after the only merged-mining header or, without one, within the first 20 bytes, followed by the size 2^h and a nonce whose slot is the chain index |
| `AuxPow.CoinbaseInParent` | src/auxpow.cpp:99-102 | without collisions, the coinbase of a proof that passes is the first transaction of the parent block, for any tree of its height with that root |
| `AuxPow.OneAuxBlock` | src/auxpow.cpp:80-157 | for one coinbase script with the merged-mining header and one chain id, at most one block hash, chain branch and index can pass, whatever else is supplied |
| `AuxPow.MinedPasses` | src/auxpow.cpp:80-157 | a proof made from a chain Merkle tree with the block in its expected slot passes |
| `AuxPow.MinedEarly` | src/auxpow.cpp:129-136 | so does one without the header, if its root starts within the first 20 bytes |
| `AuxPow.HalvesInOrder` | src/auxpow.cpp:185-202 | the root of two halves is the hash of their roots, the left one first |
| `CuckooCache.RunGood` | src/cuckoocache.h:264-453 | in every state of every run each live element is at one of its own eight locations, no element other than the blank one is in two slots, and the living epoch stays within its bound |
| `CuckooCache.StepGood` | src/cuckoocache.h:264-453 | one insertion or lookup, with or without erasing, keeps that |
| `CuckooCache.RunOnlyInserted` | src/cuckoocache.h:443-453 | only what was inserted is ever found (the blank element aside) |
| `CuckooCache.TableOnlyInserted` | src/cuckoocache.h:368-416 | only what was inserted is ever in the table |
| `CuckooCache.PlaceKeeps` | src/cuckoocache.h:382-415 | a chain of swaps of any depth leaves all live elements and the carried one, but for at most one |
| `CuckooCache.PlaceExact` | src/cuckoocache.h:382-415 | which one: the chain hands on one element after another, and the only one that can be lost is the last handed on, after exactly the depth limit of swaps; the new element itself is lost only if it is that one again |
| `CuckooCache.SwapOrder` | src/cuckoocache.h:395-406 | the swaps go round the eight locations: to the one after the last location, and to the second one at first |
| `CuckooCache.EnteredKeeps` | src/cuckoocache.h:368-416 | an insertion leaves the live elements and the new one, but for at most one |
| `CuckooCache.EnteredLossless` | src/cuckoocache.h:368-391 | and loses none if the element is there or one of its slots is free |
| `CuckooCache.HoldsIff` | src/cuckoocache.h:443-453 | contains finds every live element, and an element other than the blank one exactly if it is in the table |
| `CuckooCache.ErasedKeeps` | src/cuckoocache.h:443-453 | erasing on lookup frees at most that element and hides nothing |
| `CuckooCache.ErasedExact` | src/cuckoocache.h:443-453 | erasing takes exactly that element out, unless it is the blank one |
| `CuckooCache.EnteredExact` | src/cuckoocache.h:357-416 | an inserted element is there afterwards, unless the chain of swaps carried it out again |
| `CuckooCache.ScansApart` | src/cuckoocache.h:264-296 | between two scans of the epoch flags the counter falls by one; after a scan it is at least 1, at least a sixteenth of an epoch, and otherwise what the epoch lacks, and a full epoch is aged away |
| `CuckooCache.StepOutcome` | src/cuckoocache.h:318-453 | a lookup without erasing changes nothing, one with erasing takes exactly that element out |
| `CuckooCache.EpochCheckedKeeps` | src/cuckoocache.h:264-296 | an epoch check keeps the live set, or on ageing exactly the living half of it |
| `CuckooCache.EpochCheckedBounded` | src/cuckoocache.h:264-296 | the counter never lets the living epoch pass its bound before the next check |
| `CuckooCache.PlaceCounts` | src/cuckoocache.h:382-415 | swaps move at most one element into the living epoch |
| `CuckooCache.BitPackedAtomicFlags.constructor` | src/cuckoocache.h:61-68 | all flags are set |
| `CuckooCache.BitPackedAtomicFlags.BitSet` | src/cuckoocache.h:92-95 | sets one flag in the packed bytes and no other |
| `CuckooCache.BitPackedAtomicFlags.BitUnset` | src/cuckoocache.h:103-106 | clears one flag and no other |
| `CuckooCache.BitPackedAtomicFlags.BitIsSet` | src/cuckoocache.h:113-116 | reads one flag |
| `CuckooCache.CuckooCache.constructor` | src/cuckoocache.h:315-329 | the table is the largest power of two within the asked size (at least two), the depth limit its logarithm, and every slot free |
| `CuckooCache.CuckooCache.CountUnused` | src/cuckoocache.h:270-275 | the loop counts the kept elements of the living epoch |
| `CuckooCache.CuckooCache.Age` | src/cuckoocache.h:280-286 | in place, the ageing loop |
| `CuckooCache.CuckooCache.EpochCheck` | src/cuckoocache.h:264-296 | in place, the epoch check |
| `CuckooCache.CuckooCache.Evict` | src/cuckoocache.h:382-415 | in place, the loop of swaps up to the depth limit |
| `CuckooCache.CuckooCache.Insert` | src/cuckoocache.h:368-416 | in place, the insertion with its epoch check |
| `CuckooCache.CuckooCache.Contains` | src/cuckoocache.h:443-453 | in place, the lookup and the mark for erasing |
| `RollingBloom.WipeBit` | src/bloom.cpp:257-265 | the word-parallel wipe clears a bit exactly where the two words of the pair show the wiped generation |
| `RollingBloom.SetToBit` | src/bloom.cpp:270-275 | the masked store writes one bit of a word |
| `RollingBloom.WipedGen` | src/bloom.cpp:257-265 | wiping turns exactly the cells of that generation to zero |
| `RollingBloom.MarkedGen` | src/bloom.cpp:270-275 | marking changes the generation of one cell |
| `RollingBloom.RolledExact` | src/bloom.cpp:251-267 | a roll-over forgets exactly the oldest of three generations |
| `RollingBloom.InsertedExact` | src/bloom.cpp:249-277 | after each insertion every cell holds the generation of its last touch, or zero if that is too old |
| `RollingBloom.RunExact` | src/bloom.cpp:249-313 | so after any sequence of insertions from a reset |
| `RollingBloom.ContainedIff` | src/bloom.cpp:285-297 | a key is found exactly if each of its cells was touched within the remembered insertions |
| `RollingBloom.RemembersKeys` | src/bloom.cpp:285-297 | every key of the remembered insertions is found |
| `RollingBloom.RetainsLast` | src/bloom.cpp:217-297 | each of the last nElements keys is found, through all roll-overs |
| `RollingBloom.CRollingBloomFilter.constructor` | src/bloom.cpp:217-242 | an even number of words, all zero, and generations of half the elements, rounded up |
| `RollingBloom.CRollingBloomFilter.Reset` | src/bloom.cpp:305-313 | in place, the reset |
| `RollingBloom.CRollingBloomFilter.WipeGeneration` | src/bloom.cpp:257-265 | in place, the loop over pairs of words |
| `RollingBloom.CRollingBloomFilter.WipePair` | src/bloom.cpp:261-264 | in place, one pair |
| `RollingBloom.CRollingBloomFilter.Mark` | src/bloom.cpp:270-275 | in place, the two stores for one hash |
| `RollingBloom.CRollingBloomFilter.Insert` | src/bloom.cpp:249-277 | in place, roll-over and marks |
| `RollingBloom.CRollingBloomFilter.Contains` | src/bloom.cpp:285-297 | the loop over the hashes, as specified |
| `NetFraming.ReadHeader` | src/net.cpp:765-794 | absorbs as much of a header as is there, byte for byte, and fails exactly on a full header with an oversized length |
| `NetFraming.ReadData` | src/net.cpp:796-811 | absorbs as much of a payload as is there; the buffer grows ahead of it |
| `NetFraming.ParseConcat` | src/net.cpp:686-736 | a stream of whole frames parses to those frames and what follows them |
| `NetFraming.ParsePrefix` | src/net.cpp:686-736 | every prefix of a stream of frames parses to some first frames and the start of the next one |
| `NetFraming.ListParses` | src/net.cpp:686-736 | the message list holds exactly the parse of the bytes absorbed so far |
| `NetFraming.FramedFields` | src/protocol.cpp:87-104 | the fields of a header come back: start bytes, command up to its padding, size with its low byte first, and checksum |
| `NetFraming.LowByteFirst` | src/protocol.h:55-63 | a 32-bit field is written in four bytes with the low one first |
| `NetFraming.UpToZeroPadded` | src/protocol.cpp:91-104 | a command without zero bytes survives zero padding |
| `NetFraming.CompleteFrame` | src/net.h:549-554 | a complete message is a whole frame with its payload hashed |
| `NetFraming.DeliveredInOrder` | src/net.cpp:686-736 | what is received of a stream of framed messages are the first messages in order, with exact payloads; all of them once all bytes are in |
| `NetFraming.SentIsPrefix` | src/net.cpp:830-880 | bytes sent and bytes queued make up the bytes pushed, so what was sent is a prefix of it |
| `NetFraming.PushedGrows` | src/net.cpp:2786-2821 | pushing a message appends its frame |
| `NetFraming.EndToEnd` | src/net.cpp:686-880 | under any partial sends and any cutting into chunks, delivered messages are the pushed ones in order with exact payloads and commands; all of them once the queue is empty and everything sent has arrived |
| `NetFraming.Relay` | src/net.cpp:686-880 | two nodes, under any sequence of pushes, partial sends and arrivals of any number of bytes: the receiver holds the pushed messages in order with exact payloads and commands, and all of them once the queue is empty and everything sent has arrived |
| `NetFraming.ArriveSome` | src/net.cpp:686-736 | one arrival between the two nodes, which never fails |
| `NetFraming.CNode.constructor` | src/net.h:576-582 | nothing pushed, sent or received |
| `NetFraming.CNode.ReceiveMsgBytes` | src/net.cpp:686-736 | fails exactly if the stream so far with this chunk has an oversized frame; otherwise the list absorbs the chunk and `complete` says whether a message was completed |
| `NetFraming.CNode.Absorb` | src/net.cpp:693-733 | in place, one round of the receive loop, which always makes progress |
| `NetFraming.CNode.SocketSendData` | src/net.cpp:830-880 | under any answers of the socket the sent bytes grow by the returned count, nSendSize stays the size of the queue and nSendOffset a proper offset in its first message; it stops exactly at the first message that the socket does not take whole, with exactly what that took, and closes the socket exactly after a fatal error |
| `NetFraming.CNode.Took` | src/net.cpp:845-858 | in place, what follows a successful send: a message is done exactly if the rest of it was taken, otherwise the offset grows by what was |
| `NetFraming.SocketTakesAll` | src/net.cpp:830-880 | if the socket takes every rest whole, all that was pushed is sent; if it takes anything, there is progress |
| `NetFraming.CNode.Enqueue` | src/net.cpp:2802-2813 | in place, header and payload join the queue and the size |
| `NetFraming.CNode.PushMessage` | src/net.cpp:2786-2821 | the frame joins the bytes pushed, and sending may start |
| `SkipHeights.InvertClears` | src/chain.cpp:99-100 | turning the lowest one bit off takes (2m + 1) * 2^k to 2m * 2^k, for every number of that form |
| `SkipHeights.StepWorks` | src/chain.cpp:102-137 | a step that keeps the highest bit in which the two heights differ lowers what is left to do before that bit is gone, which is at most four times the number of one bits below it |
| `SkipHeights.StepsBound` | src/chain.cpp:102-137 | from any height below 2^k to any height, the walk takes at most 2k(k + 1) steps |
| `Chain.CBlockIndex.AncestorOfAncestor` | src/chain.cpp:113-137 | walking back in two stages is walking back in one |
| `Chain.AncestorInTree` | src/chain.cpp:113-137 | ancestors of blocks of a tree are in the tree |
| `Chain.CBlockIndex.constructor` | src/chain.h:238-247 | a block joins its predecessor one higher, with no skip pointer yet |
| `Chain.CBlockIndex.GetAncestor` | src/chain.cpp:113-137 | with skip pointers, the same block as walking pprev, and none for a height outside; if all skip pointers are set, in at most 2k(k + 1) steps below height 2^k |
| `Chain.CBlockIndex.BuildSkip` | src/chain.cpp:144-148 | the tree with the new skip pointer is again one in which every skip pointer is right, and one in which all are set if it was |
| `Chain.CChain.constructor` | src/chain.h:433-436 | an empty chain |
| `Chain.CChain.ContainsIff` | src/chain.h:462-464 | a block is in the chain exactly if it is the tip or an ancestor of it |
| `Chain.CChain.NextIff` | src/chain.h:467-472 | the successor of a block of the chain other than the tip is the block of the chain built on it; otherwise none |
| `Chain.CChain.SetTip` | src/chain.cpp:41-51 | the early stop is right: afterwards the vector holds the tip and all its ancestors |
| `Chain.StopSound` | src/chain.cpp:41-51 | once one entry agrees with the new branch, all below it do |
| `Chain.SpineAncestor` | src/chain.cpp:41-51 | in a linked vector the entry at a height is the ancestor of the last one |
| `Chain.CChain.FindFork` | src/chain.cpp:81-90 | the highest block that is in the chain and an ancestor of the given one, or none if there is none |
| `Chain.CChain.GetLocator` | src/chain.cpp:53-79 | lists the ancestors at the locator heights, whichever of the two ways each is found |
| `Chain.LocatorDescends` | src/chain.cpp:53-79 | the heights fall strictly and end with the genesis block |
| `Chain.LocatorShort` | src/chain.cpp:53-79 | at most k + 12 entries below height 2^k |
| `Chain.LocatorAt` | src/chain.cpp:53-79 | in closed form: entry i is i blocks below the tip up to 11, and 9 + 2^(i - 10) below it from then on, or the genesis block |
| `ArithUint256.BaseUint.constructor` | src/arith_uint256.h:51-57 | holds a 64-bit number |
| `ArithUint256.BaseUint.Add` | src/arith_uint256.h:135-145 | addition modulo 2^256, also to itself |
| `ArithUint256.BaseUint.Increment` | src/arith_uint256.h:173-180 | adds one modulo 2^256, through the ripple of the carry |
| `ArithUint256.BaseUint.Decrement` | src/arith_uint256.h:190-197 | subtracts one modulo 2^256 |
| `ArithUint256.BaseUint.Complement` | src/arith_uint256.h:69-75 | 2^256 - 1 minus the number |
| `ArithUint256.BaseUint.Negate` | src/arith_uint256.h:77-84 | negation modulo 2^256 |
| `ArithUint256.BaseUint.Subtract` | src/arith_uint256.h:147-151 | subtraction modulo 2^256, also from itself |
| `ArithUint256.BaseUint.MultiplyWord` | src/arith_uint256.cpp:55-65 | product with a word modulo 2^256 |
| `ArithUint256.BaseUint.Multiply` | src/arith_uint256.cpp:67-81 | product modulo 2^256; a number multiplied by itself in place gives zero, since the receiver is zeroed first |
| `ArithUint256.BaseUint.MultiplyRow` | src/arith_uint256.cpp:71-80 | one row of the product with its carry |
| `ArithUint256.BaseUint.ShiftLeft` | src/arith_uint256.cpp:21-36 | times 2^shift modulo 2^256, for every shift |
| `ArithUint256.BaseUint.ShiftRight` | src/arith_uint256.cpp:38-53 | floor of the quotient by 2^shift, for every shift |
| `ArithUint256.BaseUint.CompareTo` | src/arith_uint256.cpp:109-119 | the order of the numbers |
| `ArithUint256.BaseUint.Bits` | src/arith_uint256.cpp:171-184 | the position of the highest bit |
| `ArithUint256.BaseUint.Divide` | src/arith_uint256.cpp:83-107 | floor of the quotient; fails exactly for divisor zero; also by itself |
| `ArithUint256.BaseUint.LongDivision` | src/arith_uint256.cpp:96-106 | the shift and subtract loop |
| `ArithUint256.ShlValue` | src/arith_uint256.cpp:21-36 | the limbs after a left shift, with their overlapping bits joined, are worth the shifted number |
| `ArithUint256.ShrValue` | src/arith_uint256.cpp:38-53 | the same for a right shift |
| `ArithUint256.Rippled` | src/arith_uint256.h:173-180 | a ripple of the carry through full limbs adds one |
| `ArithUint256.DivideStep` | src/arith_uint256.cpp:96-106 | one step keeps quotient and remainder of the dividend exact |
| `Compact.DecodeEncode` | src/arith_uint256.cpp:204-245 | decoding an encoded number cuts it to its three leading bytes, with no sign and no overflow |
| `Compact.DecodeShape` | src/arith_uint256.cpp:204-222 | every code without overflow is a mantissa of 23 bits and a power of 256 |
| `Compact.LargestBelow` | src/arith_uint256.cpp:204-245 | decoding the code of a number gives the largest representable number not above it |
| `Compact.EncodeMonotone` | src/arith_uint256.cpp:224-245 | rounding keeps order |
| `Compact.SetCompact` | src/arith_uint256.cpp:204-222 | value, sign and overflow of every 32-bit code |
| `Compact.OverflowIff` | src/arith_uint256.cpp:204-222 | a code overflows exactly if its mantissa times its power of 256 has no room in 256 bits |
| `Compact.SomeTargets` | src/test/arith_uint256_tests.cpp:412-540 | documented codes and their targets |
| `Compact.SomeSigns` | src/test/arith_uint256_tests.cpp:412-540 | documented codes with a sign or an overflow |
| `Compact.GetCompact` | src/arith_uint256.cpp:224-245 | the code of every number, with the sign bit where asked for |
| `Compact.SomeCodes` | src/test/arith_uint256_tests.cpp:412-540 | documented numbers and their codes, among them those that need a zero byte in front |
| `Compact.ProofOf` | src/chain.cpp:150-163 | the quotient of complements plus one is the floor of 2^256 over the target plus one |
| `Compact.GetBlockProof` | src/chain.cpp:150-163 | the work of every code: zero for a bad one, otherwise floor(2^256 / (target + 1)) |
| `Pow.TransitionRises` | src/pow.cpp:17-24 | the factor never falls with the height, is 0 exactly up to the activation height and 1 exactly from the end of the window |
| `Pow.LimitsOrdered` | src/pow.cpp:27-54 | the lower limit is never above the upper one, at every height |
| `MedianTime.MedianIs` | src/chain.h:284-298 | the median of the last eleven times, or of all if there are fewer, by counting: half of them, rounded up, are not below it, and fewer than that are above; there is only one such number |
| `MedianTime.MedianRises` | src/chain.h:284-298 | a block past the median never lowers the median, while the oldest of the eleven drops out |
| `MedianTime.MedianNeverFalls` | src/chain.h:284-298 | so along a chain the median never falls |
| `MedianTime.GetMedianTimePast` | src/chain.h:284-298 | the loop back over the last blocks, the sorting and the choice |
| `Pow.ValidTimeIff` | src/pow.cpp:57-70 | a time is valid exactly if more than half of the last eleven are below it and it is at most two hours ahead of the clock |
| `Pow.ValidTimesPass` | src/pow.cpp:57-70 | in a chain of valid times each one is past the median at every earlier block |
| `Pow.ValidateBlockTime` | src/pow.cpp:57-70 | decides that |
| `Pow.MainLimits` | src/pow.cpp:17-54 | on the main network, in seconds at every height: the upper limit is 345600; the lower one 21600 up to 175000, falling by 8.1 per block to 5400 at 177000, 10800 from 180001 to 185000, and 21600 after that |
| `Pow.RetargetScales` | src/pow.cpp:209-245 | within the limits a retarget gives the code of the floor of target times time over the target timespan, capped at powLimit; below the lower limit that of the lower limit, above the upper one that of the upper limit |
| `Pow.RetargetRises` | src/pow.cpp:209-245 | a longer time never gives a smaller target |
| `Pow.RetargetPermitted` | src/pow.cpp:92-245 | a retarget from a target within the limit is always a permitted transition |
| `Pow.PermittedIff` | src/pow.cpp:92-142 | off the interval exactly the same bits are permitted, on it exactly those whose target lies between the two extreme retargets; so the target at most quadruples |
| `Pow.FirstExists` | src/pow.cpp:189-197 | at a retarget the first block of the interval exists |
| `Pow.NextWorkGood` | src/pow.cpp:144-207 | whatever the header, the bits required next decode without sign or overflow to at most powLimit |
| `Pow.WorkBetween` | src/pow.cpp:168-187 | between retargets: the bits of the last block, or where minimum difficulty is allowed the limit after more than six spacings, or after more than two past the effective height, and else the bits of the last block that is not at the limit or begins an interval |
| `Pow.WorkAtLimit` | src/pow.cpp:144-161 | the limit for the first block, for a header with a bad time, and for a late one where minimum difficulty is allowed |
| `Pow.ChainGood` | src/pow.cpp:144-207 | so along every chain |
| `Pow.RetargetTaken` | src/pow.cpp:189-206 | the permission check never overrules the computed retarget |
| `Pow.MainFits` | src/chainparams.cpp:90-96 | the main network has room for the largest scaling in 256 bits, its intervals are multiples of the one the check uses, and its genesis target is good |
| `Pow.MainRetarget` | src/pow.cpp:92-245 | along every chain of the main network every retarget is the computed one, which RetargetScales and MainScales describe, permitted, and within the limit |
| `Pow.MainScales` | src/pow.cpp:189-245 | on the main network: the target of the last block scaled by the time since the first block of its interval over the timespan, with that time held within the limits of MainLimits |
| `Pow.Retarget` | src/pow.cpp:231-242 | the big-number steps give the scaled and capped target |
| `Pow.CalculateNextWorkRequired` | src/pow.cpp:209-245 | with big numbers in place, the bits that RetargetScales and RetargetRises characterise |
| `Pow.PermittedDifficultyTransition` | src/pow.cpp:92-142 | decides the specified relation |
| `Pow.GetNextWorkRequired` | src/pow.cpp:144-207 | with all branches, the bits that WorkAtLimit, WorkBetween and MainScales characterise |
| `Pow.BetweenRetargets` | src/pow.cpp:168-187 | the branch between retargets with its loop back over blocks of minimum difficulty |
| `Base58.DecodeEncoded` | src/base58.cpp:21-109 | decoding inverts encoding on all byte strings |
| `Base58.EncodeDecoded` | src/base58.cpp:21-109 | encoding inverts decoding on all base58 strings without white space |
| `Base58.SpacesIgnored` | src/base58.cpp:23-58 | white space around changes nothing |
| `Base58.ConvertBack` | src/base58.cpp:21-109 | change of base with leading zeroes kept is undone by changing back |
| `Base58.DigitsUnique` | src/base58.cpp:84-97 | digits without leading zero are determined by their number |
| `Base58.DigitsSuffice` | src/base58.cpp:80-82 | 138/100 of the bytes and one more are enough base58 digits, for every length |
| `Base58.BytesSuffice` | src/base58.cpp:33-35 | 733/1000 of the digits and one more are enough bytes, for every length |
| `Base58.AlphabetInverse` | src/base58.cpp:18-19 | alphabet and lookup are inverse |
| `Base58.AlphabetOrder` | src/base58.cpp:18-19 | the characters rise with their values, and are the digits and letters of ASCII but 0, I, O and l |
| `Base58.EncodedNumber` | src/base58.cpp:71-109 | the text is the number of the bytes in base 58, most significant digit first, with as many leading ones as there are leading zero bytes |
| `Base58.MultiplyAdd` | src/base58.cpp:42-51 | in place, the inner loop multiplies and adds and its final carry assertion holds |
| `Base58.StripBuffer` | src/base58.cpp:59-62 | skipping leading zeroes of the buffer gives the minimal digits |
| `Base58.BytesToDigits` | src/base58.cpp:80-101 | all bytes converted, with the fixed buffer never too small |
| `Base58.DigitsToBytes` | src/base58.cpp:33-53 | all digits converted up to the first white space, with the fixed buffer never too small; fails exactly on a foreign character |
| `Base58.EncodeBase58` | src/base58.cpp:71-109 | the specified text |
| `Base58.DecodeBase58` | src/base58.cpp:21-69 | the specified bytes, and failure exactly where specified, on every string |
| `Base58.DecodeBase58String` | src/base58.cpp:116-119 | the overload for strings decodes what comes before the first null character |
| `Base58.NullEnds` | src/base58.cpp:116-119 | so it ignores any text after one |
| `Amounts.DecompressCompressed` | src/compressor.cpp:142-185 | over the integers, decompressing inverts compressing, on all amounts |
| `Amounts.CompressDecompressed` | src/compressor.cpp:142-185 | and the other way round |
| `Amounts.CompressAmount` | src/compressor.cpp:142-159 | the loop in 64 bits; an amount in money range loses nothing |
| `Amounts.DecompressAmount` | src/compressor.cpp:161-185 | the loop in 64 bits: the decompressed amount modulo 2^64 |
| `Amounts.WordRoundTrip` | src/compressor.cpp:142-185 | in 64 bits, decompressing inverts compressing exactly for the words that are multiples of ten or below 2049638230412172403, the smallest one whose code wraps around |
| `Amounts.CodeFits` | src/compressor.cpp:142-159 | these are exactly the words whose code fits 64 bits |
| `Amounts.WrappedLost` | src/compressor.cpp:142-185 | a code that wrapped around never brings its amount back, not even by accident: for each number of times it can have wrapped there are only two candidates, and neither has a code that wraps so often |
| `Amounts.AmountIff` | src/compressor.h:106-118 | a signed amount comes back from its code exactly if its word is one of these; so every amount in money range does |
| `Amounts.FirstOverflow` | src/compressor.cpp:142-185 | 2049638230412172403 comes back as 10000 |
| `Amounts.SomeCodes` | src/test/compress_tests.cpp:42-47 | documented amounts and their codes |
| `Amounts.StripTens` | src/compressor.cpp:146-150 | the loop that strips up to nine zeroes |
| `Amounts.TimesTens` | src/compressor.cpp:180-183 | the loop that puts them back, wrapping at 64 bits |
| `Compressor.VarIntRoundTrip` | src/serialize.h:316-345 | reading what was written gives the number and the rest of the stream exactly if it is not negative |
| `Compressor.VarIntValue` | src/serialize.h:275-297 | the bytes of a number: seven bits each, the high ones first, with one added before each shift and the high bit set on all but the last; and which numbers take one, two and three bytes |
| `Compressor.DecompressCompressedScript` | src/compressor.cpp:48-131 | the special scripts come back from their compressed form, those to a full key with whatever their key decompresses to |
| `Compressor.ScriptForms` | src/compressor.cpp:48-104 | the five special forms byte by byte: to a key hash, to a script hash, and to a key, compressed or full |
| `Compressor.ScriptRoundTrip` | src/compressor.h:58-89 | every script comes back from the stream, a special one as its form decompresses, and one over the size limit as a lone OP_RETURN |
| `Compressor.RegainedIff` | src/compressor.h:58-89 | that is the script itself exactly if it is within the size limit and its full key, if it pays to one, decompresses to itself |
| `Compressor.OutRoundTrip` | src/compressor.h:106-118 | every output comes back from the stream with the amount of its wrapped code and the script as above; it is unchanged exactly if its amount and its script survive |
| `Compressor.WriteOut` | src/compressor.h:106-118 | writes that stream, with the 64-bit loop for the amount |
| `Compressor.LoadOut` | src/compressor.h:106-118 | reads it, with the 64-bit loop for the amount |
| `CoinsCodec.UnserializeSerialized` | src/coins.h:157-217 | reading what was written gives the coins back, for all coins that are not fully spent: cleaned, each output as it comes back from the stream, and a negative version or height without its high bits |
| `CoinsCodec.RoundTripIff` | src/coins.h:157-217 | cleaned coins come back unchanged exactly if version and height are not negative, each unspent output has an amount and a script that survive, and each spent one is null |
| `CoinsCodec.NegativeVersionLost` | src/coins.h:157-217 | an input on which they do not: version -2 comes back as 126 |
| `CoinsCodec.LargeAmountLost` | src/coins.h:157-217 | another input: an output of 2049638230412172403 comes back as one of 10000 |
| `CoinsCodec.MaskBack` | src/coins.h:168-175 | the trimmed mask gives back every flag |
| `CoinsCodec.FlagsRecovered` | src/coins.h:157-217 | code and mask together recover exactly the unspent positions |
| `CoinsCodec.StoredForm` | src/coins.h:21-39 | the meaning of a record: its parts in order, every bit of its header code, and every bit of its mask |
| `CoinsCodec.SomeRecord` | src/coins.h:41-54 | the documented example, byte by byte |
| `CoinsCodec.CalcMaskSize` | src/coins.cpp:17-33 | the number of mask bytes up to the last nonzero one, and of those that are not zero |
| `CoinsCodec.WriteMask` | src/coins.h:168-175 | the loop over mask bytes |
| `CoinsCodec.Serialize` | src/coins.h:157-184 | the specified stream, amounts in 64 bits |
| `CoinsCodec.LoadMask` | src/coins.h:198-207 | the loop that reads bytes until enough nonzero ones were seen |
| `CoinsCodec.Unserialize` | src/coins.h:186-217 | the specified result, amounts in 64 bits, with failure on a short stream |
| `Mempool.FewerAncestors` | src/miner.h:88-98 | an ancestor has fewer ancestors |
| `Packages.TotalsCover` | src/miner.cpp:425-553 | the stored size and signature operations of a transaction are never below those of its package that is not yet in the block, and equal unless it failed before |
| `Packages.FeesKept` | src/miner.cpp:360-385 | the stored fees of a transaction are those of its package that is not yet in the block, plus the modified fees of included ancestors that were not taken off (only if it failed before), plus the fee deltas of those that were, all but the first, since the first is taken off by its modified fee and later ones by their plain fee |
| `Packages.FeesIff` | src/miner.cpp:360-385 | they are exact if and only if that excess is zero; for a transaction that did not fail before it is the sum of the fee deltas of its included ancestors but the first |
| `Packages.FeesDrift` | src/miner.cpp:360-385 | a pool on which they are not: a chain of three with the middle fee raised by 5 leaves 5 too much for the last one |
| `Packages.FeesExact` | src/miner.cpp:360-385 | so they are exact where no fee was modified |
| `Packages.TakenOffTracked` | src/miner.h:120-132 | taking an included ancestor off the totals keeps the account |
| `Packages.UpdatePackagesForAdded` | src/miner.cpp:360-385 | after a package was added, all totals account for the new block |
| `Packages.UpdateFor` | src/miner.cpp:364-383 | the loop over the descendants of one added transaction |
| `Packages.DropFailed` | src/miner.cpp:499-506 | dropping a failed entry keeps the account |
| `Packages.DropIncluded` | src/miner.cpp:542-546 | dropping included entries keeps the account |
| `Selection.KeptExact` | src/miner.cpp:360-385 | the stored size and signature operations of a transaction that did not fail before are exactly those of its package that is not yet in the block, and its fees are where none was modified |
| `Selection.AmpleNotRefused` | src/miner.cpp:499-525 | no package is refused where the whole pool fits strictly and may be mined |
| `Selection.TakesAll` | src/miner.cpp:425-553 | so a selection takes the whole pool, whatever the comparator, unless some package pays too little; where no fee was modified and any transactions together pay, none does |
| `Miner.ParentsSuffice` | src/miner.cpp:224-233 | if the parents are in an ancestor-closed block so are all ancestors |
| `Miner.PackageWeight` | src/miner.cpp:248-256 | a package weighs at most four times its size |
| `Miner.SortForBlock` | src/miner.cpp:404-413 | a package sorted by ancestor count, each once |
| `Miner.SortedAncestorsFirst` | src/miner.cpp:404-413 | in that order ancestors come first |
| `Miner.BlockAssembler.constructor` | src/miner.cpp:77-130 | limits as configured, clamped to their bounds, and an empty block |
| `Miner.BlockAssembler.AddToBlock` | src/miner.cpp:334-358 | appends one transaction and keeps all sums exact |
| `Miner.BlockAssembler.TestPackageTransactions` | src/miner.cpp:263-280 | accepts a package exactly if each transaction is final, has no unwanted witness, and the sizes fit where they are counted |
| `Miner.BlockAssembler.RefusesIff` | src/miner.cpp:248-280 | a package is refused exactly if by its stored totals it has no room left in weight or signature operations, one of it may not be mined, or its size does not fit where sizes are counted |
| `Miner.BlockAssembler.TestedRoom` | src/miner.cpp:248-256 | a package that passes on stored totals has room by its true weight, signature operations and size |
| `Miner.BlockAssembler.TryPackage` | src/miner.cpp:499-551 | one round: the package goes in whole and in order exactly if it is not refused, and otherwise nothing does |
| `Miner.BlockAssembler.AddPackageTxs` | src/miner.cpp:425-553 | under any order and any preference between two transactions with their totals, ties by id included, the loop ends, the block stays valid, and every transaction is accounted for: each package that was tried paid the minimum fee by its stored totals and was added exactly if it was not refused; the block is what it was and the added packages; and the loop ended with every transaction of the order in the block or refused, or because one outside paid too little, or, at the first chance, because the block was nearly full and more than 1000 packages in a row had no room |
| `Miner.BlockAssembler.IsStillDependent` | src/miner.cpp:224-233 | whether a parent is missing |
| `Miner.BlockAssembler.TestForBlock` | src/miner.cpp:282-332 | accepts exactly what is final and within all three limits, and notes exactly when the block is as good as full or a near miss |
| `Miner.BlockAssembler.TryPriority` | src/miner.cpp:611-625 | one round: the transaction goes in exactly if it fits |
| `Miner.BlockAssembler.AddPriorityTxs` | src/miner.cpp:555-635 | under any order the loop ends and the block stays valid; all but its last transaction have a priority that is high enough and stay below the priority size; each one left out after a test did not fit the block as it was then; and unless priority, size or a nearly full block ended the part, all others wait for a parent or have an unwanted witness |
| `Miner.CreateNewBlock` | src/miner.cpp:132-222 | every assembled block has each transaction once and after its ancestors, exact fees, exact weight within the configured and clamped limit, serialized size within its limit where one is set, exact signature operation count below its limit, only final transactions, witnesses only where allowed, and the accounts of AddPriorityTxs and AddPackageTxs; if the whole pool fits strictly and may be mined, and the order covers it, all of it is in the block, unless some package pays too little |

## Left out

- CheckQueue: a model on values of the protocol; the mutex is the atomicity of a step, `notify_one` may wake any waiting thread or none, and `fQuit`, which nothing sets, is absent.
- CheckQueue.WaitTerminates: bounds the steps while the master is inside Wait that are not spurious wake-ups; of those there may be any number, so the length of a run is not bounded.
- AddrMan.CAddrMan.Unserialize: a file is a list of records here, not bytes, with as many of them as its counts ask for; a bad key size or a short stream, for which the code throws, is not a file.
- AddrRestore.SavedRestored: last tries and nLastGood are not stored by the code, so nothing is said about them.
- `Select_` and `GetChance` of the address manager: floating-point chances and termination by chance only.
- Pow.TransitionRises: over real numbers; the rounding of double arithmetic in the limits is not modelled.
- MedianTime.GetMedianTimePast: sorts by insertion, where the code calls the library; a missing header, which passes the time check, is absent.
- CuckooCache.CuckooCache.constructor: takes the exact integer logarithm, where the code takes that of a float.
- Miner: the comparators of packages and priorities are arbitrary, so every result holds for any preference, and nothing is said of which of two packages goes first; coinbase, header, witness commitment and the final validity test of a new block are absent.
- Coins.RunAgrees: modifications, new coins and uncachings happen at the top cache, since a change below is only sound under the condition of ChangeBelowIff.
- Coins: memory accounting (`cachedCoinsUsage`), the best block of each cache, and the cursor.
- CoinsCodec.Unserialize: ends of streams are failures; the widths of versions, heights, header codes and script sizes read from a stream are unbounded.
- MerkleBlock: the filter that decides which transactions match.
- AuxPow: `initAuxPow`, and the block header around the proof.
- NetFraming.CNode.ReceiveMsgBytes: nothing is said of the list after a failure, since the caller then disconnects; per-command statistics and times are absent.
- NetFraming.CNode.SocketSendData: the socket is a sequence of answers; locks are absent.
- RollingBloom: the choice of the number of hashes and bits from a false-positive rate.
- ArithUint256: bitwise operators, hexadecimal text and conversion to double; they would only add easy members.
- SkipHeights.StepsBound: a bound for every height; the 110 steps up to height 2^18 that the code names come from simulation and are not proved.
- Chain: `FindEarliestAtLeast`, headers, and validity flags of blocks.
- Base58: the checksum, and characters outside ASCII in the white-space test.
- Scripts, wallets, RPC, sockets, databases, start-up, block encodings, fee presets and network range tests: not part of this model.
