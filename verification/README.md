# Hemp0x core structures in Dafny

This project models the in-memory structures and algorithms of the Hemp0x full node whose correctness is a statement about whole runs or whole domains, and proves those statements.

| part | files |
|---|---|
| write-back cache stack of unspent coins | `Coins`, `CoinsTheorems`, `CoinsCache` |
| address manager, its self-check and its disk format | `AddrTables`, `AddrMan`, `AddrCheck`, `AddrStream`, `AddrRoundTrip` |
| script check queue, as a step relation of one master and any number of workers | `CheckQueue`, `CheckQueueTheorems` |
| block assembler over a pool of dependent transactions | `Mempool`, `Scores`, `Miner`, `MinerTrace`, `MinerAssembler` |
| rolling bloom filter | `Bloom` |
| partial Merkle tree ("Partial Merkle branch format" of BIP 37) | `MerkleTree`, `PartialMerkle`, `PartialTree` |
| verifier-string evaluator | `BoolEE` |
| cuckoo cache and its packed flags | `Cuckoo`, `CuckooFlags` |
| 256-bit limb arithmetic, compact targets, block work | `Limbs`, `Arith`, `ArithShift`, `ArithDivide`, `Compact`, `CompactTarget` |
| block index skip list and active chain | `Chain` |
| Base58 | `Positional`, `Base58Bounds`, `Base58`, `Base58Codec` |
| compact block reconstruction (BIP 152) | `CompactBlock`, `PartialBlock` |
| shared | `Wrappers`, `Bytes`, `Integers`, `Chars` |

Objects that the node updates in place are classes here, with methods that keep its loops; what they do is stated by functions on values, and the theorems are about those functions and the classes' invariants.

How the outside is modelled:

- Hashes (bucket hashes, MurmurHash, node hashes, short ids, cuckoo hashes) are arbitrary functions of bounded range. Where collisions matter, their absence is a stated hypothesis.
- Random choices, iteration orders of hash maps and thread schedules are left open: the results hold for all of them. The lot that `Add_` draws is a parameter. Fee scores are compared by exact products where the code rounds them to double precision.
- Clocks, the routability of an address, transaction finality, the result of the block check and the outcome of a script check are inputs.
- Numbers are unbounded; 32-bit and 64-bit limits, wrap-around and truncation are written out where the code depends on them.
- The memory pool is a finite acyclic set of transactions with correct cached totals, positive weights, virtual sizes that follow from weight and signature cost, and a score index that lists each of them once.
- A coin's memory usage is that of its script, with capacity equal to length; a cleared script uses none.

Where code and comments disagree, the code is followed:

- The first swap of a cuckoo insertion uses the second of the eight slots, not the first as the comment at src/cuckoocache.h:419-420 says.
- The bound of 2N - 1 flag bits at src/merkleblock.h:48 fails as soon as a node with a single child is descended into; `MerkleTree.BuildBits` gives the exact number.
- `SpendCoin` can report success on a spent entry, `Add_` can report a new address that it has dropped again, `Check_` adds missing items of `mapAddr` as 0, and the decrement of the extra-pool counter at src/blockencodings.cpp:151-155 may concern a slot that was filled from the mempool, so that counter is an integer here.

## Model

| member | source | states |
|---|---|---|
| CoinsTheorems.RunAgrees | src/coins.cpp:50-504 | For every run of get, add, spend, uncache, flush, push, drop and best-block calls on a stack of any depth: if the run is legal for plain outpoint-to-coin maps (a coin added as new is absent, the database is flushed to only with a best block), every level of the stack answers exactly as the plain map does and records the same best block, and flags and usage counters are right. |
| CoinsTheorems.StepAgrees | src/coins.cpp:50-504 | One legal operation keeps that agreement at every level, also a flush of a cache without a best block of its own into another cache. |
| CoinsTheorems.GetAnswers | src/coins.cpp:67-74 | GetCoin answers like the plain map and changes no answer at any level although it fills every cache it passes. |
| CoinsTheorems.FetchAnswers | src/coins.cpp:50-65 | FetchCoin keeps all answers and the invariant; the cached entry, if any, is the answer, and no entry means the parent has no coin. |
| CoinsTheorems.FetchNeverMarksFresh | src/coins.cpp:57-62 | The branch that marks a fetched spent coin FRESH is dead. |
| CoinsTheorems.UncacheAnswers | src/coins.cpp:497-504 | Uncache changes no answer; an entry without flags is gone and the usage falls by its size, and an entry with a flag stays. |
| CoinsTheorems.GetBestAnswers | src/coins.cpp:424-428 | GetBestBlock gives the first non-null best block down the stack and changes no answer. |
| CoinsTheorems.GetBestAgrees | src/coins.cpp:424-428 | GetBestBlock answers like the plain stack and records what it found at every level it passes. |
| CoinsTheorems.SpendAnswers | src/coins.cpp:369-401 | SpendCoin removes exactly one outpoint from the view, hands out the plain map's coin, and keeps the invariant whether the entry is erased (FRESH) or cleared. |
| CoinsTheorems.SpendSucceedsOnSpentEntry | src/coins.cpp:371-400 | SpendCoin reports success without an unspent coin exactly when a spent entry is still cached. |
| CoinsTheorems.SpendTwice | src/coins.cpp:369-401 | A second SpendCoin reports success if and only if the entry was not FRESH, so that a spent entry had to stay. |
| CoinsTheorems.AddSpendUndone | src/coins.cpp:76-95 | Adding a coin as new and spending it gives back exactly the cache before, entries and usage. |
| CoinsTheorems.OverwriteSpendUndone | src/coins.cpp:79-95 | Overwriting a FRESH coin leaves it FRESH: spending it then leaves what spending it at once would have. |
| CoinsTheorems.AddIgnored | src/coins.cpp:78 | AddCoin ignores exactly the scripts that can never be satisfied, and then changes nothing. |
| CoinsTheorems.OthersUntouched | src/coins.cpp:50-504 | Fetching, adding, spending and uncaching one outpoint touch the entry of no other. |
| CoinsTheorems.AddAnswers | src/coins.cpp:76-95 | A successful AddCoin writes exactly one outpoint; the invariant survives if and only if overwriting was admitted, or the parent has no such coin, or the cached entry was already dirty. |
| CoinsTheorems.AddThrownUsage | src/coins.cpp:79-89 | After the "replaces non-pruned entry" exception no answer has changed, and the usage counter is right if and only if the cached script held no heap memory. |
| CoinsTheorems.AddThrownUsageDrifts | src/coins.cpp:79-89 | A concrete cache in which that exception leaves the usage counter wrong. |
| CoinsTheorems.LegalAddSucceeds | src/coins.cpp:76-95 | A legal AddCoin is either ignored (unspendable) or succeeds and keeps the invariant. |
| CoinsTheorems.LegalFlushSucceeds | src/coins.cpp:434-495 | A legal flush is never refused. |
| CoinsTheorems.FreshNeverMisapplied | src/coins.cpp:434-488 | Under the invariant the "FRESH flag misapplied" error is never raised; a batch is refused only for a null best block at the database. |
| CoinsTheorems.MergeAnswers | src/coins.cpp:434-488 | After BatchWrite the parent answers what the child answered, and no FRESH flag there is wrong against the grandparent. |
| CoinsTheorems.MergeFlags | src/coins.cpp:436-484 | For every outpoint: a clean child entry changes nothing; a dirty one not in the parent is carried over with its own FRESH flag unless FRESH and spent; one in the parent keeps the parent's FRESH flag, and goes if that is set and the coin is spent. |
| CoinsTheorems.FlushSpendUndone | src/coins.cpp:434-495 | A coin created in a cache, flushed into a parent without an entry for it and spent there leaves the parent exactly as it was. |
| CoinsTheorems.FlushAnswers | src/coins.cpp:490-495 | Flush makes the parent's view the child's, leaves the child's answers and everything below the parent alone, and keeps the invariant at every level. |
| CoinsTheorems.FlushBestIff | src/coins.cpp:424-495 | Flush keeps the best-block answer if and only if the flushed cache has its own best block or its parent only inherited one. |
| CoinsCache.CoinsViewCache.FetchCoin | src/coins.cpp:50-65 | Refines Fetch on the whole stack. |
| CoinsCache.CoinsViewCache.GetCoin | src/coins.cpp:67-74 | Refines Get on the whole stack, including the caches it fills. |
| CoinsCache.CoinsViewCache.HaveCoin | src/coins.cpp:414-417 | Answers whether the plain map has the coin. |
| CoinsCache.CoinsViewCache.AddCoin | src/coins.cpp:76-95 | Refines Add, including both exceptions and the entry left behind. |
| CoinsCache.CoinsViewCache.SpendCoin | src/coins.cpp:369-401 | Refines Spend. |
| CoinsCache.CoinsViewCache.Uncache | src/coins.cpp:497-504 | Refines Uncache. |
| CoinsCache.CoinsViewCache.GetBestBlock | src/coins.cpp:424-428 | Refines GetBest. |
| CoinsCache.CoinsViewCache.SetBestBlock | src/coins.cpp:430-432 | Changes the best block of this cache and nothing else. |
| CoinsCache.CoinsViewCache.BatchWrite | src/coins.cpp:434-488 | Consuming the child's map one entry at a time in any order equals the merge of the two maps, or is refused exactly when some FRESH flag was misapplied; then what was consumed is merged, the rest is left, and best block and lower views are untouched. An entry new to the parent is FRESH there exactly if it was in the child, the parent's own entry keeps its flag, and a FRESH spent entry leaves no trace. |
| CoinsCache.CoinsViewCache.MergeEntry | src/coins.cpp:436-484 | One entry of BatchWrite: that outpoint is merged as its flags demand, no other changes, and the usage counter moves with the entries. |
| CoinsCache.CoinsViewCache.Flush | src/coins.cpp:490-495 | On success the whole stack is the flushed stack; the exception leaves the unconsumed entries and the old usage in the cache. |
| CoinsCache.AddCoins | src/coins.cpp:266-270 | Adding a transaction's outputs never throws, keeps the invariant and changes exactly those outpoints with the overwrite check on, for a coinbase, and when none of the outputs is there already. |
| CoinsCache.AddToldRight | src/coins.cpp:266-270 | AddCoin that is told the truth about overwriting, or admits it needlessly, never throws and keeps the invariant. |
| CoinsTheorems.FlagsUpdate | src/coins.h:110-127 | Writing one entry keeps FRESH and DIRTY right if and only if that entry's flags are right against the parent's answer. |
| CoinsCache.CoinsViewDb.BatchWrite | src/txdb.cpp:91-150 | The database takes exactly the dirty entries, and refuses only a null best block, changing nothing. |
| AddrCheck.Run | src/addrman.cpp:98-541 | In every run of address-manager operations with positive times from an empty manager, Check_ returns zero at the start and after each operation. |
| AddrCheck.Step | src/addrman.cpp:98-541 | Every operation keeps the full invariant. |
| AddrCheck.Check | src/addrman.cpp:407-481 | Check_ returns zero if and only if counters, vRandom, both tables, reference counts, time stamps and the items read from mapAddr are right and the key is not null; it adds missing items of mapAddr as 0; after a zero the manager is consistent if and only if mapAddr has no stale item; a consistent manager passes unchanged. |
| AddrCheck.CheckEntries | src/addrman.cpp:409-444 | The loop over entries passes exactly for consistent entries, and then leaves the tried ids and the reference counts in its worklists and an item of mapAddr for each entry. |
| AddrCheck.CheckTried | src/addrman.cpp:446-458 | The loop over the tried table passes and uses up its worklist exactly when that table is right. |
| AddrCheck.CheckNew | src/addrman.cpp:460-471 | The loop over the new table passes and counts down to nothing exactly when table and reference counts are right. |
| AddrCheck.ConsistentMeans | src/addrman.cpp:407-481 | The manager's invariant is what Check_ tests together with a complete mapAddr without stale items. |
| AddrCheck.PlacesFillRandom | src/addrman.cpp:412-434 | As many places as entries and each entry at its own place make vRandom a permutation of the ids. |
| AddrTables.RandomSize | src/addrman.cpp:113-131 | vRandom has one place per entry, and every entry is either new or tried. |
| AddrTables.PutNewSlots | src/addrman.cpp:147-207 | Writing one new slot adds that bucket to the written id's occurrences, takes it from the overwritten id's, and touches no other. |
| AddrTables.CreatedKeeps | src/addrman.cpp:98-111 | Creating an entry keeps all tables consistent. |
| AddrTables.SwappedKeeps | src/addrman.cpp:113-131 | Swapping two places of vRandom keeps all tables consistent and changes only places. |
| AddrTables.DroppedKeeps | src/addrman.cpp:133-145 | Dropping an unreferenced untried entry keeps all tables consistent. |
| AddrTables.SlotClearedKeeps | src/addrman.cpp:147-160 | Emptying a new slot keeps the tables consistent with one reference fewer. |
| AddrTables.SlotFilledKeeps | src/addrman.cpp:193-201 | Filling an empty new slot at its hashed position keeps the tables consistent with one reference more. |
| AddrTables.TriedMovedKeeps | src/addrman.cpp:183-207 | Moving entries in and out of their tried slot keeps the tables consistent. |
| AddrMan.Manager.Find | src/addrman.cpp:71-82 | Finds the id that mapAddr holds for the address, or shows that no entry has it. |
| AddrMan.Manager.Create | src/addrman.cpp:98-111 | Makes one new untried, unreferenced entry with the next id at the end of vRandom, or nothing when ids run out. |
| AddrMan.Manager.SwapRandom | src/addrman.cpp:113-131 | Swaps exactly two places of vRandom and the stored positions of their entries. |
| AddrMan.Manager.Delete | src/addrman.cpp:133-145 | Removes exactly one entry, the last of vRandom taking its place, and keeps all indexes and counters. |
| AddrMan.Manager.ClearNew | src/addrman.cpp:147-160 | Empties one new slot; its holder loses one reference and is deleted with its last one. |
| AddrMan.Manager.MakeTried | src/addrman.cpp:162-208 | The entry leaves every new slot and takes its hashed tried slot; a holder of that slot goes back to the new slot of its own source with one reference, displacing whatever entry is there, and both tables change in no other way. |
| AddrMan.Manager.RemoveFromNew | src/addrman.cpp:164-172 | The entry leaves every new slot and nothing else changes. |
| AddrMan.Manager.MakeRoom | src/addrman.cpp:180-202 | The eviction from a tried slot: the holder returns to the new bucket of its own source, at its hashed position, with one reference. |
| AddrMan.Manager.FindNewBucket | src/addrman.cpp:239-254 | An untried entry always sits in some new bucket, so the "no bucket is found" exit is unreachable. |
| AddrMan.Manager.Good | src/addrman.cpp:210-260 | A known entry becomes tried with fresh statistics, every other entry and both tables are as MakeTried leaves them, and the time conditions survive if and only if the time is positive or the address is unknown. |
| AddrMan.Manager.Add | src/addrman.cpp:262-335 | Reports true exactly for a routable address not known before while ids last, even if the entry is dropped again. An entry is inserted exactly when its slot is free, the holder is terrible, or an entry without references meets one with others; a known one only on news and by the lot that its references demand. The new table then changes in exactly that slot, the bucket being the one of the announcing source; the holder loses a reference, other entries stay, and only terrible untried entries with one reference are lost. |
| AddrMan.Manager.Admit | src/addrman.cpp:264-311 | A known entry is refreshed (time, services) and a new one made with the penalised time; a new entry is always placed, a known one exactly on news while it is untried, below the reference limit and drawn by a lot that is twice as unlikely for each reference. |
| AddrMan.RefreshedForward | src/addrman.cpp:276-281 | A known entry's time only moves forward, by more than an hour for an address seen within a day and more than a day otherwise, and an announcement that much newer after the penalty is taken over. |
| AddrMan.Manager.Place | src/addrman.cpp:313-333 | The entry takes its slot in the bucket of the source exactly when the holder is absent, terrible, or referenced elsewhere while the entry is not; the table changes in no other slot. |
| AddrMan.Manager.Attempt | src/addrman.cpp:337-357 | Changes the statistics of the exact service only: the last try always, the counted attempt only after the last success. |
| AddrTables.TerribleTurns | src/addrman.cpp:36-54 | When an entry is given up: heard of within thirty days, after three attempts without ever an answer or ten with none for a week; not heard of, at once; never within a minute of an attempt. |
| AddrMan.Manager.Connected | src/addrman.cpp:505-523 | Refreshes the time of the exact service when it is more than 20 minutes old, and nothing else. |
| AddrMan.Manager.SetServices | src/addrman.cpp:525-541 | Replaces the service flags of the exact service and nothing else. |
| AddrMan.Manager.GetAddr | src/addrman.cpp:484-503 | Appends the addresses of the entries met in a random order without the terrible ones, until the vector reaches the limit or all are met; only places in vRandom change. |
| AddrMan.StatsTimes | src/addrman.cpp:210-260 | The update of the statistics alone keeps the time conditions of a tried entry only for a positive time. |
| AddrMan.MadeTriedTimes | src/addrman.cpp:210-260 | Becoming tried keeps the time conditions if and only if the time is positive. |
| AddrRoundTrip.RoundTrip | src/addrman.h:301-459 | Unserialize after Serialize of any consistent manager succeeds, loses no entry, renames ids along a bijection, restores both tables under that renaming, and re-establishes the invariant. |
| AddrRoundTrip.RoundTripMatches | src/addrman.h:301-459 | The same on the values of the tables, slot by slot and entry by entry. |
| AddrRoundTrip.WrittenIsLossless | src/addrman.h:301-459 | What Serialize writes is accepted by Unserialize and loses nothing there. |
| AddrRoundTrip.NewSlotMatches | src/addrman.h:335-441 | Every new slot is restored to the renamed holder. |
| AddrRoundTrip.TriedSlotMatches | src/addrman.h:326-423 | Every tried slot is restored to the renamed holder. |
| AddrRoundTrip.EntryMatches | src/addrman.h:351-459 | Every entry is restored with its stored fields. |
| AddrRoundTrip.CountsFit | src/addrman.h:372-382 | A consistent manager never exceeds the table sizes that Unserialize accepts. |
| AddrStream.Serialize | src/addrman.h:301-349 | The stream lists the new and the tried entries in id order and every occupied new slot by the rank of its holder. |
| AddrStream.CountFlipped | src/addrman.h:312-368 | The bucket count written, 0x40000400, is the only one read as 1024 in a stream with a version, and flipping the bit twice gives the count back. |
| AddrStream.Unserialize | src/addrman.h:351-459 | Accepts exactly the readable streams, whatever addresses they repeat; all tables but mapAddr are consistent and entries are as stored; mapAddr is right if and only if no remaining entry shares its address with another loaded one. A tried entry is lost exactly when an earlier one has its slot, the new table is the one the stream stands for, a new entry is lost exactly when that table does not hold it, and nothing of a lossless stream is lost. |
| AddrStream.AddrsRightIff | src/addrman.h:385-453 | After pruning, mapAddr is right if and only if no address of a remaining entry was repeated, because deleting an entry erases its address even if another entry has it. |
| AddrStream.RepeatedAddress | src/addrman.h:351-459 | A stream with two entries for one address that leaves an inconsistent manager. |
| AddrStream.DistinctUndisputed | src/addrman.h:351-459 | A stream without repeated addresses never disputes one. |
| AddrStream.LoadNew | src/addrman.h:384-402 | New entries get ids 0, 1, 2, ...; without usable positions each takes the slot of its own source if no earlier one has. |
| AddrStream.LoadTried | src/addrman.h:404-423 | Tried entries keep their order, and exactly those are kept whose slot no earlier one takes. |
| AddrStream.LoadPositions | src/addrman.h:425-441 | Each stored position is taken in order exactly if it names an entry, its slot is free and the entry has fewer than eight; positions that do not clash are all restored. |
| AddrStream.Prune | src/addrman.h:443-453 | Exactly the untried entries without a reference are removed, the others change only their places in vRandom, and the manager is then consistent if and only if no remaining entry shares its address with another loaded one. |
| CheckQueueTheorems.RunSafe | src/checkqueue.h:70-162 | Every interleaving of one master and any number of workers keeps the invariant: nTodo counts queued and batched checks, each check is in one place and runs at most once. |
| CheckQueueTheorems.InitialRunSafe | src/checkqueue.h:70-162 | From the start, in every interleaving: nTodo is right, no wake-up of the master is lost, the checks pending are exactly those that Add handed over since the master last returned, and the answers given are, one for each return, whether all the checks handed over for it succeed. |
| CheckQueueTheorems.RunAnswers | src/checkqueue.h:70-162 | The same from any reachable state. |
| CheckQueueTheorems.StepRecords | src/checkqueue.h:91-162 | Only Add adds checks, all of its checks; only the master's return answers, once, with whether all pending checks succeed. |
| CheckQueueTheorems.StepKeeps | src/checkqueue.h:70-162 | Every single step keeps the invariant. |
| CheckQueueTheorems.MasterReturns | src/checkqueue.h:91-101 | Wait returns only with nothing pending, and its result is true if and only if every check added since the last Wait succeeds, and then all of them have run. |
| CheckQueueTheorems.CleanUpKeeps | src/checkqueue.h:78-90 | The clean-up of a finished batch keeps conservation, the accumulated result and the notification of the master. |
| CheckQueueTheorems.TakeOrWaitKeeps | src/checkqueue.h:91-120 | Taking a batch, sleeping or returning keeps the invariant. |
| CheckQueueTheorems.BatchFits | src/checkqueue.h:111 | The batch size is at least one, never more than is queued, and otherwise the largest within nBatchSize and an equal share of the queue. |
| CheckQueueTheorems.RunsFresh | src/checkqueue.h:122-126 | A check that is run was never run before. |
| CheckQueueTheorems.AddKeeps | src/checkqueue.h:150-162 | Adding checks keeps the invariant and wakes workers. |
| CheckQueueTheorems.WorkEnabled | src/checkqueue.h:70-128 | While the master is in Wait some thread can always work: no deadlock. |
| CheckQueueTheorems.WorkDecreases | src/checkqueue.h:70-128 | Every step of work brings the end of Wait nearer. |
| CheckQueueTheorems.WorkEnds | src/checkqueue.h:70-147 | Work alone cannot go on longer than a bound fixed by the state. |
| CheckQueueTheorems.WaitReturns | src/checkqueue.h:70-147 | Whatever work is done in whatever order, after at most that many steps no work is left, and then Wait has returned. |
| CheckQueue.BatchedOnce | src/checkqueue.h:112-118 | A check in a batch is an added one, in that batch once and nowhere else. |
| CheckQueue.BatchesApart | src/checkqueue.h:112-118 | Two threads never hold the same check. |
| MinerAssembler.BlockAssembler.AddPackageTxs | src/miner.cpp:338-466 | Terminates on every pool and yields a duplicate-free, ancestor-closed, parents-first block with exact counters whose weight is at most nBlockMaxWeight. Unless it stops nearly full, every entry left out was rejected on the true totals of its remaining package when the block was some prefix of the result, or, if it stops on a low fee, has a remaining package below the minimum fee rate (or a prioritised ancestor in the block). The block and the number of packages follow from the decisions taken, each right for the block it was taken on; the loop gives up exactly when the block is nearly full and more than 1000 different entries in a row found no room; at the end of the pool every entry is in the block or was turned down. |
| MinerAssembler.BlockAssembler.CountedTurn | src/miner.cpp:356-465 | One turn with its counters: failures in a row are the entries refused room since a package was last added, and the loop stops exactly on a low fee or when it is to give up. |
| MinerAssembler.TraceKeeps | src/miner.cpp:359-465 | The loop variables keep agreeing with the decisions taken; no entry is turned down twice without a package added in between. |
| MinerTrace.CrowdedOut | src/miner.cpp:412-428 | Each entry refused room since a package was last added does not fit the block as it is, or was turned down for an earlier block. |
| MinerAssembler.BlockAssembler.Turn | src/miner.cpp:359-465 | One turn of the loop keeps the block, the records and the progress made, always gets closer to the end, and on a low fee leaves only entries that are explained. |
| MinerAssembler.BlockAssembler.Consider | src/miner.cpp:394-464 | The verdict on a candidate is exactly the one its totals deserve; it joins the block with its remaining ancestors, or a modified entry is dropped and remembered. |
| MinerAssembler.BlockAssembler.Judge | src/miner.cpp:398-446 | Low fee, no room, not final or premature witness, or accepted: exactly which, and with which package. |
| MinerAssembler.TotalsBound | src/miner.cpp:398-405 | The totals tested for a package are at least the true size and signature cost of what remains of it, and exact for an entry that has not failed before; its fees too, if no ancestor in the block is prioritised. |
| MinerAssembler.ProgressKeeps | src/miner.cpp:359-465 | Entries the loop is through with stay settled when the block grows. |
| MinerAssembler.BlockAssembler.constructor | src/miner.cpp:68-73 | The weight limit is the option clamped between 4000 and the consensus limit less 4000; the block starts empty with 4000 weight and 400 signature cost reserved. |
| MinerAssembler.BlockAssembler.ResetBlock | src/miner.cpp:95-107 | Starts an empty block with the coinbase reservation. |
| MinerAssembler.BlockAssembler.OnlyUnconfirmed | src/miner.cpp:218-229 | Leaves exactly the transactions that are not in the block. |
| MinerAssembler.BlockAssembler.TestPackageTransactions | src/miner.cpp:245-254 | True exactly if every transaction is final and, without witness support, has no witness. |
| MinerAssembler.BlockAssembler.AddToBlock | src/miner.cpp:256-273 | Appends the transaction and keeps weight, signature cost, fee and count equal to the sums over the block. |
| MinerAssembler.BlockAssembler.Pick | src/miner.cpp:361-396 | The candidate is never in the block, and neither a recorded entry nor a pool entry to come has a better score. |
| MinerAssembler.BlockAssembler.RestIsCheap | src/miner.cpp:407-410 | When the best candidate pays too little, every entry that is neither in the block nor rejected pays less than the minimum rate, as the comment there claims. |
| MinerAssembler.BlockAssembler.IsUnderpaid | src/miner.cpp:407-410 | The candidate itself, unless rejected before or with a prioritised ancestor, truly pays less than is asked for what remains of its package. |
| Miner.UpdatePackagesForAdded | src/miner.cpp:275-300 | Walking the added transactions in any order makes every recorded total right again. |
| Miner.UpdatedIsRight | src/miner.cpp:287-296 | The updated record of a descendant bounds what remains of its package, exactly unless it failed before. |
| Miner.ReinsertedSize | src/miner.cpp:287-293 | A record made afresh for an entry with ancestors in the block over-counts by exactly their size. |
| Miner.SortForBlock | src/miner.cpp:317-326 | The same transactions in ascending order of ancestor count. |
| Miner.SortedExtends | src/miner.cpp:317-326 | Ordering by ancestor count puts every ancestor first. |
| Miner.ExtendKeeps | src/miner.cpp:451-459 | Adding a sorted remaining package keeps the block duplicate-free, ancestor-closed and parents-first. |
| Mempool.WeightWithinSize | src/miner.cpp:231-239 | A package weighs at most four times its virtual size, which is why the size test bounds the weight. |
| Miner.UpdatedFeesExact | src/miner.h:118-130 | A fee total stays exact if and only if the entry is new or the included transaction has no fee delta. |
| Scores.NotBetter | src/miner.h:74-84 | The comparison of packages by fee rate, then hash, is transitive on packages with a size. |
| Scores.BestRecorded | src/miner.h:98-113 | The best of the recorded entries. |
| Mempool.AncestorHasFewer | src/miner.h:89-96 | An ancestor has strictly fewer ancestors than its descendant. |
| Scores.CheapIsBelowRate | src/policy/feerate.cpp:24-39 | A fee below GetFee is below the fee rate, with its rounding and its minimum of one. |
| Scores.FeeRounds | src/policy/feerate.cpp:24-39 | The minimum fee is the rate for the size rounded down, but at least one when anything is asked. |
| Scores.NotBetterBelowRate | src/policy/feerate.cpp:24-39 | What does not score better than a package below the rate is below the rate. |
| Bloom.RecentReported | src/bloom.cpp:249-297 | After any history of inserts since reset, the last two generations' worth of keys and those of the current generation have all their cells set. |
| Bloom.RollingBloomFilter.Contains | src/bloom.cpp:285-297 | True exactly when all cells of the key are set, hence always for the last nElements keys, and only if each of its cells is also one of the last three generations' worth of keys. |
| Bloom.OldForgotten | src/bloom.cpp:249-297 | After any history, a cell that is set is one of a key of the last three generations: older keys have no effect. |
| Bloom.CellReached | src/bloom.cpp:271-275 | Every cell of the filter is that of some hash. |
| Bloom.RollingBloomFilter.Insert | src/bloom.cpp:249-277 | Appends the key to the history, keeps the invariant, and changes exactly the key's cells and, when a generation starts, the cells that bear its number. |
| Bloom.RollingBloomFilter.StartGeneration | src/bloom.cpp:251-266 | The next generation number, with exactly its old cells wiped. |
| Bloom.RollingBloomFilter.Wipe | src/bloom.cpp:259-265 | Clears exactly the cells of one generation. |
| Bloom.RollingBloomFilter.Write | src/bloom.cpp:269-276 | Sets exactly the key's cells to the current generation. |
| Bloom.RollingBloomFilter.Reset | src/bloom.cpp:305-313 | Clears every cell and the history. |
| Bloom.WipedCell | src/bloom.cpp:257-264 | The mask keeps a two-bit cell unless it holds the wiped generation. |
| Bloom.PutCell | src/bloom.cpp:274-275 | The two masked writes set one two-bit cell and leave the others. |
| Bloom.WipeKeeps | src/bloom.cpp:249-266 | Starting a generation wipes only cells written three generations ago. |
| Bloom.NextGenerationKeeps | src/bloom.cpp:251-266 | A full generation becomes the previous one and every key kept stays held. |
| Bloom.WriteKeepsMemory | src/bloom.cpp:267-276 | A written key joins the current generation and every other key stays held. |
| PartialMerkle.Soundness | src/merkleblock.cpp:80-165 | With a collision-free node hash and the right transaction count, whatever bits and hashes yield the block's true nonzero root yield only transactions of the block, each once, at their true positions and in order. |
| PartialMerkle.SoundnessAnyCount | src/merkleblock.cpp:80-165 | The same for every announced transaction count that gives a tree of the same height, for blocks with distinct ids: no match stands at a position the block does not have, because identical branches are refused. |
| PartialMerkle.HeightMatters | src/merkleblock.cpp:80-165 | With another height it fails: announced as one transaction, the root itself is extracted as a match. |
| PartialMerkle.DoubledLast | src/merkleblock.cpp:103-109 | Three transactions announced as four with the last one doubled give no root although the hashes lead to the true one. |
| PartialTree.AcceptedIff | src/merkleblock.cpp:134-165 | A root is extracted if and only if the message is the code of a partial tree for that many transactions without identical halves, filled up to whole bytes, with no hash left over. |
| PartialTree.CarriedIs | src/merkleblock.cpp:80-165 | From the code of a partial tree exactly its root and its matches are extracted. |
| PartialTree.Reads | src/merkleblock.cpp:80-116 | A traversal reads any partial subtree it is given, and is spoilt exactly by identical halves. |
| PartialTree.WasRead | src/merkleblock.cpp:80-116 | A traversal that is not spoilt has read a partial subtree without identical halves. |
| PartialMerkle.RoundTrip | src/merkleblock.cpp:42-165 | Building, byte-packing and extracting gives the root and exactly the matched transactions in order, with at most min(n, 1 + matched * height) hashes. |
| PartialMerkle.Send | src/merkleblock.cpp:42-165 | The same for the code: construct, pack, unpack, extract. |
| MerkleTree.ExtractSound | src/merkleblock.cpp:80-116 | A traversal that arrives at the true hash of a node found only genuine matches under it. |
| MerkleTree.ExtractSoundAny | src/merkleblock.cpp:80-116 | The same for a traversal of a tree with another number of leaves: the two trees branch alike along the way. |
| MerkleTree.ExtractBuild | src/merkleblock.cpp:62-116 | Extracting what was built for a subtree consumes exactly its bits and hashes and gives its hash and matches. |
| MerkleTree.HashesDiffer | src/merkleblock.cpp:42-60 | Subtrees of one level with the same hash start with the same transaction id. |
| MerkleTree.HalvesDiffer | src/merkleblock.cpp:103-109 | With distinct ids the two halves of a node never have the same hash, so a good tree is not flagged. |
| MerkleTree.BuildSmall | src/merkleblock.cpp:62-78 | At most one hash per transaction and one per bit. |
| MerkleTree.BuildPaths | src/merkleblock.cpp:62-78 | At most 1 + matched * height hashes. |
| PartialMerkle.CalcHash | src/merkleblock.cpp:42-60 | The hash by level and position is that of the subtree. |
| PartialMerkle.PartialMerkleTree.TraverseAndBuild | src/merkleblock.cpp:62-78 | Appends exactly the code of the subtree. |
| PartialMerkle.PartialMerkleTree.ParentOfMatch | src/merkleblock.cpp:63-66 | The loop over the shifted range tells whether a leaf under the node is matched. |
| PartialMerkle.PartialMerkleTree.TraverseAndExtract | src/merkleblock.cpp:80-116 | Consumes bits and hashes exactly as the recursion on the subtree does, and flags the same errors. |
| PartialMerkle.PartialMerkleTree.ExtractMatches | src/merkleblock.cpp:134-165 | Applies exactly the size, consumption and error checks; matched ids are stored afresh, their indexes appended to the caller's vector; a spoilt tree never has a root. |
| PartialMerkle.PartialMerkleTree.constructor | src/merkleblock.cpp:118-130 | The stored bits and hashes are the code of the whole tree. |
| PartialMerkle.PartialMerkleTree.CalcHeight | src/merkleblock.cpp:123-126 | The least height with a single node. |
| MerkleTree.BuildBits | src/merkleblock.h:36-49 | N hashes come with 2N - 1 flag bits and one more per only child that is descended into, so the documented bound holds if and only if there is none. |
| PartialMerkle.BitsExceed | src/merkleblock.h:48 | Three transactions with the last one matched need four bits for two hashes. |
| PartialMerkle.PackedUnpacked | src/merkleblock.h:89-106 | Packing bits into bytes and unpacking them gives the bits back, padded with zeros. |
| PartialMerkle.Pack | src/merkleblock.h:101-103 | Byte i holds bits 8i to 8i + 7, lowest first. |
| PartialMerkle.Unpack | src/merkleblock.h:96-98 | Bit p is bit p % 8 of byte p / 8. |
| PartialMerkle.CalcTreeWidth | src/merkleblock.h:67-69 | The shifted sum is the number of nodes of a level, halving upwards. |
| MerkleTree.AfterIsShift | src/merkleblock.h:67-69 | The leaves under a node end at (pos + 1) << height or at the last transaction. |
| BoolEE.ResolveFormula | src/LibBoolEE.cpp:70-146 | Every formula over names other than 0 and 1, written in full or with as few parentheses as possible and with any white space, resolves to its truth value if all its names have a value, and to "variable not found" otherwise. |
| BoolEE.ResolveCorrect | src/LibBoolEE.cpp:70-146 | Any text that derives from the grammar once white space is dropped resolves to its truth value, with & binding tighter than \| and ! tightest, if and only if all its variables have a value; one without is an error wherever it stands. |
| BoolEE.ScanShortens | src/LibBoolEE.cpp:19-68 | When a top-level operator is found every part is shorter than the whole, so the recursion ends on every string. |
| BoolEE.StrayPrefix | src/LibBoolEE.cpp:33-38 | Any number of stray characters in front go unnoticed if and only if a top-level operator follows; otherwise the variable is not found. |
| BoolEE.Unbalanced | src/LibBoolEE.cpp:60-67 | Text with more parentheses of one kind than of the other is refused. |
| BoolEE.UnknownOperatorRefused | src/LibBoolEE.cpp:42-55 | A formula followed by a character that is neither white space nor an operator is refused, whatever comes next. |
| BoolEE.SplitDisj | src/LibBoolEE.cpp:19-68 | Splitting at \| gives exactly the disjuncts. |
| BoolEE.SplitConj | src/LibBoolEE.cpp:19-68 | Splitting a conjunction at & gives exactly the conjuncts. |
| BoolEE.PassUnary | src/LibBoolEE.cpp:23-39 | A negation, name or parenthesis is passed over whole. |
| BoolEE.ResolvesUnary | src/LibBoolEE.cpp:104-129 | Negation, parentheses, constants and names get their value, or "variable not found". |
| BoolEE.ResolvesConj | src/LibBoolEE.cpp:84-146 | Conjunctions get their value, or "variable not found". |
| BoolEE.ResolvesDisj | src/LibBoolEE.cpp:74-146 | Disjunctions get their value, or "variable not found". |
| BoolEE.SingleParse | src/LibBoolEE.cpp:19-68 | The scan with a start position and a parity count equals the scan of pieces of text, with the same errors. |
| BoolEE.ResolveSource | src/LibBoolEE.cpp:70-72 | Removes white space and resolves. |
| BoolEE.ResolveText | src/LibBoolEE.cpp:74-146 | Equals the recursive evaluation, with the same errors in the same order. |
| BoolEE.Combine | src/LibBoolEE.cpp:130-145 | All parts are resolved and joined; the first error wins. |
| BoolEE.RemoveWhitespaces | src/LibBoolEE.cpp:158-166 | The text without its white space. |
| Cuckoo.Cache.Insert | src/cuckoocache.h:392-440 | In every run: live elements sit in one of their eight slots, the current epoch stays within epoch_size + max(1, epoch_size / 16), the epochs age exactly when due, and then the cells are those that refreshing or placing the element leaves, with at most one live element lost, counting the new one. |
| Cuckoo.InsertLoses | src/cuckoocache.h:392-440 | Per element: nothing but the new one is gained, at most the one left in the hand is lost, and the epoch grows by at most one. |
| Cuckoo.Cache.Place | src/cuckoocache.h:394-439 | An element that is there is refreshed where it is found first; any other is placed with at most depth_limit attempts, and live elements are conserved up to the one left in the hand. |
| Cuckoo.FreeIsTaken | src/cuckoocache.h:407-415 | With a collectable slot among its eight an element is stored at once: nothing is moved and nothing lost. |
| Cuckoo.LostAfterSwaps | src/cuckoocache.h:406-439 | An element is lost only after depth_limit swaps, each of one whose eight slots were all in use, with the slot after the one swapped last. |
| Cuckoo.KickedConserves | src/cuckoocache.h:406-439 | Placing conserves live elements up to the one left in the hand. |
| Cuckoo.Cache.EpochCheck | src/cuckoocache.h:289-321 | Counts down, or at zero ages the epochs exactly when the epoch is full and sets the counter to what must still fit; leaves room for one more insert. |
| Cuckoo.Cache.Age | src/cuckoocache.h:305-310 | Old elements become collectable, current ones old. |
| Cuckoo.Cache.CountCurrent | src/cuckoocache.h:297-300 | Counts the live elements of the current epoch. |
| Cuckoo.Cache.Contains | src/cuckoocache.h:467-477 | True exactly if one of the eight slots holds the element; finds every live element, reports nothing never inserted, and erases by the flag of the first such slot only, so that it is still found afterwards. |
| Cuckoo.LiveFound | src/cuckoocache.h:467-477 | A live element is found in one of its eight slots. |
| Cuckoo.Cache.NextLoc | src/cuckoocache.h:430 | The slot after the one swapped last, and the second slot on the first swap. |
| Cuckoo.PlaceConserves | src/cuckoocache.h:407-415 | Placing the hand into a collectable slot loses nothing. |
| Cuckoo.SwapConserves | src/cuckoocache.h:430-438 | Swapping the hand with a live element loses nothing. |
| Cuckoo.AgedEmpties | src/cuckoocache.h:305-310 | After ageing the current epoch is empty. |
| Cuckoo.Hasher.Loc | src/cuckoocache.h:243-253 | The scaled 32-bit hash is always a slot. |
| Cuckoo.Cache.constructor | src/cuckoocache.h:340-353 | Starts with no live element and a whole epoch to go, for every 32-bit size; an epoch is 45 percent of the table as long as 45 times the size fits 32 bits. |
| CuckooFlags.BitPackedFlags.constructor | src/cuckoocache.h:61-68 | All flags start set. |
| CuckooFlags.BitPackedFlags.BitSet | src/cuckoocache.h:92-95 | Sets exactly one flag. |
| CuckooFlags.BitPackedFlags.BitUnset | src/cuckoocache.h:103-106 | Clears exactly one flag. |
| ArithShift.ShiftLeft | src/arith_uint256.cpp:25-39 | Multiplication by a power of two modulo 2^256, for any shift. |
| ArithShift.ShiftRight | src/arith_uint256.cpp:42-56 | Division by a power of two, rounded down, for any shift. |
| Arith.Scale | src/arith_uint256.cpp:59-68 | Multiplication by a 32-bit number modulo 2^256 without 64-bit overflow. |
| Arith.Multiply | src/arith_uint256.cpp:71-84 | The product modulo 2^256 of two different objects; an object multiplied in place by itself becomes zero, because it is cleared before it is read. |
| Arith.AddRow | src/arith_uint256.cpp:75-82 | One row of the product: limbs from j on gain a * b, what exceeds 256 bits is lost. |
| Limbs.LimbFits | src/arith_uint256.cpp:77-79 | Carry plus limb plus product fits 64 bits and its carry fits a limb. |
| ArithDivide.Divide | src/arith_uint256.cpp:87-110 | Shift-and-subtract division gives the floor of the quotient, throws exactly for a zero divisor, and is right when both operands are the same object. |
| ArithDivide.DivideStep | src/arith_uint256.cpp:100-107 | One turn keeps dividend = remainder + quotient * divisor and halves the gap. |
| ArithDivide.SetQuotientBit | src/arith_uint256.cpp:103 | Setting a bit below all set ones adds that power of two. |
| ArithDivide.CompareTo | src/arith_uint256.cpp:113-122 | The sign of the difference of the two numbers. |
| ArithDivide.BitLength | src/arith_uint256.cpp:175-187 | The position of the highest bit plus one, or zero. |
| CompactTarget.SetCompact | src/arith_uint256.cpp:207-225 | The number modulo 2^256; overflow exactly when mantissa * 256^(size - 3) does not fit 256 bits; negative exactly when the sign is set and the number is not zero. |
| CompactTarget.GetCompact | src/arith_uint256.cpp:227-248 | The mantissa and exponent of Encode, with the sign bit exactly for a negative nonzero number. |
| CompactTarget.Join | src/arith_uint256.cpp:243-247 | Both assertions hold and the fields are put together. |
| CompactTarget.RoundTrip | src/arith_uint256.cpp:207-248 | SetCompact after GetCompact gives the number rounded down, its sign, and no overflow. |
| CompactTarget.KnownTargets | src/arith_uint256.cpp:207-221 | The targets and signs of known compact forms. |
| CompactTarget.SurvivesIff | src/arith_uint256.cpp:207-248 | A compact form without overflow comes back unchanged from SetCompact and GetCompact if and only if it is zero or its mantissa has 16 to 23 bits and nothing below the unit. |
| Compact.OverflowExact | src/arith_uint256.cpp:220-223 | The overflow test holds exactly when the number is at least 2^256. |
| Compact.RoundsDown | src/arith_uint256.cpp:207-248 | Decoding an encoding rounds down by less than one part in 2^15. |
| Compact.RoundsOnce | src/arith_uint256.cpp:207-248 | Encoding is idempotent through that round trip. |
| Compact.EncodeFits | src/arith_uint256.cpp:243-244 | The mantissa is below the sign bit and the size below 256. |
| Compact.EncodeInRange | src/arith_uint256.cpp:227-242 | A nonzero number gets a mantissa of 16 to 23 bits. |
| Compact.EncodeUnique | src/arith_uint256.cpp:227-242 | No other exponent brings the mantissa into that range. |
| Arith.Add | src/arith_uint256.h:142-152 | The sum modulo 2^256 without 64-bit overflow, also of an object with itself. |
| Arith.Subtract | src/arith_uint256.h:154-158 | The difference modulo 2^256, and the true one without a borrow. |
| Arith.Negate | src/arith_uint256.h:84-91 | The negation modulo 2^256. |
| Arith.Invert | src/arith_uint256.h:76-82 | 2^256 - 1 minus the number. |
| Arith.Increment | src/arith_uint256.h:180-187 | One more, modulo 2^256. |
| Arith.Decrement | src/arith_uint256.h:197-204 | One less, modulo 2^256. |
| Arith.Assign | src/arith_uint256.h:95-102 | The 64-bit number. |
| CompactTarget.Low64Is | src/arith_uint256.h:252-256 | GetLow64 is the number when it fits 64 bits. |
| CompactTarget.GetBlockProof | src/chain.cpp:121-134 | floor(2^256 / (target + 1)) for a valid nonzero target, zero otherwise, and the division never throws. |
| CompactTarget.ProofIs | src/chain.cpp:128-133 | ~t / (t + 1) + 1 is 2^256 / (t + 1). |
| CompactTarget.TargetBelowTop | src/chain.cpp:121-134 | A target from a compact form is never 2^256 - 1. |
| Chain.GetAncestor | src/chain.cpp:84-108 | The walk over skip pointers finds the same ancestor as the walk over parents, strictly descending; null exactly for a height out of range. |
| Chain.BuildSkip | src/chain.cpp:115-119 | Sets the skip pointer to the ancestor at the skip height, so the tree stays right with the new block. |
| Chain.GetSkipHeight | src/chain.cpp:74-82 | Always lower than the height. |
| Chain.SkipClears | src/chain.cpp:71-82 | An even height skips to itself without its lowest power of two, an odd one to the height below without its two lowest, plus one. |
| Chain.ActiveChain.SetTip | src/chain.cpp:12-22 | Whatever the chain was, it becomes exactly the path to the new tip despite the early exit. |
| Chain.ActiveChain.FindFork | src/chain.cpp:52-61 | The highest block of the chain that the block descends from, or null exactly if there is none. |
| Chain.LastCommonAncestor | src/chain.cpp:155-170 | The highest common ancestor; null only for blocks with none, and the assertion holds. |
| Chain.ActiveChain.GetLocator | src/chain.cpp:24-50 | From the given block, or the tip for null, down to genesis; each entry is an ancestor one step below the last, single steps first and doubling later; empty exactly for null on an empty chain. |
| Chain.ActiveChain.StepBack | src/chain.cpp:36-44 | Looking the ancestor up in the chain or over skip pointers gives the same block. |
| Chain.AncestorTwice | src/chain.cpp:84-108 | Ancestors of ancestors are ancestors. |
| Chain.CommonBelow | src/chain.cpp:155-170 | Below a common ancestor everything is common. |
| Base58.DecodeEncode | src/base58.cpp:22-110 | Decoding an encoding gives back every byte string. |
| Base58.EncodeDecode | src/base58.cpp:22-110 | Encoding a decoding gives back the text. |
| Base58.ConvertBack | src/base58.cpp:22-110 | Changing base and back keeps leading zeros and digits. |
| Base58Codec.EncodeBase58 | src/base58.cpp:72-110 | The code computes that encoding. |
| Base58Codec.DecodeBase58 | src/base58.cpp:22-70 | The code computes that decoding of the text without surrounding white space, and fails exactly for a foreign character or text after white space. |
| Base58Codec.RoundTrip | src/base58.cpp:22-110 | Running the encoder and then the decoder returns the bytes. |
| Base58Codec.AcceptedIff | src/base58.cpp:22-70 | White space, a word and white space decode exactly if the word is in the alphabet. |
| Base58.MulAdd | src/base58.cpp:86-96 | The inner loop multiplies the number in the buffer and adds a digit; no carry is left whenever the result fits. |
| Base58Bounds.EncodeRoom | src/base58.cpp:82 | n bytes fit n * 138 / 100 + 1 digits of base 58. |
| Base58Bounds.DecodeRoom | src/base58.cpp:35 | n digits of base 58 fit n * 733 / 1000 + 1 bytes. |
| Base58.Strchr | src/base58.cpp:39-42 | The place of a character in the alphabet. |
| Base58Codec.Trim | src/base58.cpp:99-102 | Dropping leading zeros leaves the shortest writing of the number. |
| Positional.WrittenUnique | src/base58.cpp:99-102 | A number has one writing without a leading zero. |
| PartialBlock.Reconstruct | src/blockencodings.cpp:19-199 | A block of at most 65536 transactions sent as a compact block and completed with exactly the missing transactions is the original, provided short ids identify the originals; the receiver gets that far exactly when the block is not too large, its coinbase is not null, its short ids differ and no bucket is too full. |
| CompactBlock.SlotsAgree | src/blockencodings.cpp:49-164 | For any message that describes a block, every available slot holds that block's transaction. |
| PartialBlock.PartiallyDownloadedBlock.InitData | src/blockencodings.cpp:49-170 | Says exactly when a message of any size is invalid, when it fails and when it is accepted; then the slots and counters are those that the two passes over candidates leave, and, with at most 65536 slots, prefilled and short-id slots split 0..n-1 between them in order, every available slot has a matching candidate, and mempool_count counts the available slots that are not prefilled. |
| PartialBlock.PartiallyDownloadedBlock.Prefill | src/blockencodings.cpp:59-75 | Succeeds exactly when no transaction is null and every position is in range and leaves no slot uncovered; then prefilled transactions land on distinct slots. |
| PartialBlock.PartiallyDownloadedBlock.MapIds | src/blockencodings.cpp:81-103 | Each short id is given the next free slot, as a 16-bit number, without scanning out of range; fails exactly when a bucket is too full or two ids are equal. |
| PartialBlock.PartiallyDownloadedBlock.NextFree | src/blockencodings.cpp:84-85 | The scan for a free slot ends within the block and its offset within 16 bits. |
| PartialBlock.SlotsFit | src/blockencodings.cpp:81-86 | Every short id keeps its own slot if and only if there are at most 65536 slots. |
| PartialBlock.LeadsToCoinbase | src/blockencodings.cpp:81-86 | In the message for a larger block the short id of transaction 65536 leads to the coinbase slot. |
| PartialBlock.ScanGoesOn | src/blockencodings.cpp:84-85 | With 65536 prefilled transactions no 16-bit offset leads to a free slot. |
| PartialBlock.PartiallyDownloadedBlock.Scan | src/blockencodings.cpp:105-164 | Either loop considers the candidates in order and stops exactly when as many slots are matched as there are short ids. |
| CompactBlock.ConsideredKeeps | src/blockencodings.cpp:109-157 | One candidate: the first match fills the slot, a second one empties it, and the counter follows. |
| CompactBlock.PoolSlot | src/blockencodings.cpp:105-132 | The mempool pass: a slot is filled exactly if one of the candidates looked at has its short id, a second one leaves it to be asked for, and the pass ends early only when every short id is matched. |
| CompactBlock.ExtraSlot | src/blockencodings.cpp:134-164 | The extra pass: a slot not matched takes the first candidate, a filled one keeps what it has, both unless another one is a different transaction; a slot emptied before stays empty. |
| PartialBlock.PartiallyDownloadedBlock.FillBlock | src/blockencodings.cpp:178-220 | With exactly enough transactions the slots are merged with them in order; any other number is invalid; the object is used up unless there were too few, and then exactly the slots before the first gap left have been moved out. |
| CompactBlock.MergeIs | src/blockencodings.cpp:184-199 | The merge succeeds only for the right number of transactions, and its result has the available ones in place and the given ones, in order, elsewhere. |
| CompactBlock.MergeMissing | src/blockencodings.cpp:178-199 | Exactly the missing transactions complete the block. |
| CompactBlock.FreeAt | src/blockencodings.cpp:83-86 | The i-th free slot is not prefilled and later than the one before. |
| CompactBlock.FreeHas | src/blockencodings.cpp:83-86 | Every slot that is not prefilled is the slot of some short id. |
| PartialBlock.MakeMessage | src/blockencodings.cpp:19-29 | The sender's message describes the block: the coinbase prefilled, all others by short id. |

## Left out

- Asset, messaging and wallet branches of `AddCoins` and `SpendCoin`; the asset code they call is not part of this model.
- CoinsCache.CoinsViewDb.BatchWrite: a batch is committed at once; partial batches, their head-block markers and crash recovery are not modelled.
- `Select_` and `GetChance` of the address manager: floating point and probabilistic termination.
- AddrCheck.Check: takes ids between 0 and nIdCount and tables of full size for granted.
- CheckQueueTheorems.WaitReturns: that the scheduler lets enabled threads run is outside the model, as are the destructor and thread interruption.
- MinerAssembler.BlockAssembler.Pick: double-precision rounding of score products is not modelled; with fee deltas a recorded fee total may be off, which the results about fees say.
- Block templates: coinbase construction, header fields and `TestBlockValidity`.
- Sizing of the bloom filter and the depth limit of the cuckoo cache: floating point formulas, taken as parameters. `CBloomFilter` is not modelled.
- Bloom.RollingBloomFilter.Contains: says nothing about the rate of false positives.
- PartialMerkle.PartialMerkleTree.TraverseAndBuild: 32-bit overflow of shifted positions, for trees of more than 2^31 leaves, is not modelled.
- Cuckoo.Cache.Insert: the collection flags are a sequence of booleans there; CuckooFlags shows separately that the packed bytes behave as one. Memory ordering of the atomic flags is outside the model.
- `getdouble`, hexadecimal conversion and the bitwise operators of `base_uint`; `GetBlockProofEquivalentTime`.
- `FindEarliestAtLeast` and the median time of `CBlockIndex`.
- Base58Codec.DecodeBase58: takes a C string, without a NUL character; `EncodeBase58Check` and its checksum are not modelled.
- PartialBlock.PartiallyDownloadedBlock.InitData: whether a hash-table bucket is too full is a parameter; a message with 65536 prefilled transactions and a short id, on which the scan does not end, is excluded.
- Serialisation of compact block messages and the differential indexes of `BlockTransactionsRequest`.
- Amount compression, `limitedmap`, subnet masks and the index key structures: short and easier.
- Cryptographic hashes, proof-of-work functions, signature checking, LevelDB, networking, RPC and command-line code.
