# GridKV in Dafny

GridKV is an embedded, replicated key-value store: every node keeps an in-memory store, learns of the others
through a SWIM-style membership protocol, places keys with a consistent hash ring, stamps writes with a hybrid
logical clock and spreads them by gossip, last write wins.  This project models the algorithms that carry those
promises and proves them for every input, every run or every reachable state.  `dafny verify dfyconfig.toml`
checks all of it.

| file | models |
|---|---|
| `Base.dfy`, `Bytes.dfy` | shared vocabulary: bytes, 64-bit ranges and wrap-around, little-endian integers |
| `RingWalk.dfy`, `HashRing.dfy`, `RingAgreement.dfy` | consistent hash ring: its walk as an order by distance, the ring in place, when rings agree and what a change of one node does |
| `Lifecycle.dfy` | dependency resolution and shutdown order |
| `Hlc.dfy`, `Versions.dfy` | hybrid logical clock, its text form, and the int64 versions packed from it |
| `CasRegister.dfy` | the compare-and-swap loop of concurrent Sets, as a state machine |
| `SyncBuffer.dfy`, `Storage.dfy`, `Shard.dfy`, `MemStorage.dfy` | sync ring, what each operation does to a shard's value, the shard in place, and the store of many shards |
| `SyncCodec.dfy`, `MemberCodec.dfy` | wire formats |
| `Convergence.dfy`, `Gossip.dfy`, `Replication.dfy` | last-write-wins convergence, batches and messages, whole runs of nodes |
| `Membership.dfy` | failure detector, incarnations, and the ring that follows the alive set |
| `TtlCache.dfy`, `Sketch.dfy` | hot-key cache with its linked list, and the count-min sketch behind its eviction |
| `Entropy.dfy` | Bloom digests and the anti-entropy comparison |

Conventions.  Strings are byte sequences (`Text`).  Hash functions, compression and the order in which Go
yields map keys are parameters or non-deterministic choices, so every statement holds for all of them.  Clocks
are inputs: either an argument per call or a function from the number of readings taken so far.  Integer
widths matter where the code relies on them (clock counters, versions, sketch cells, length fields) and are
modelled there with explicit ranges and wrap-around.  State that the code updates in place is a class whose
methods are proved against functions on values; the theorems about runs are lemmas about those functions.

Where the code differs from what it, or its documentation, says, the model follows the code:

- Packed versions order writes only within one window of 2^48 nanoseconds, about 3.3 days
  (`Versions.PackKeepsOrder`, `Versions.WindowEdgeExample`); a comment speaks of 8.9 years.
- A node whose ID holds a colon misreads its own stamps (`Clocks.ReadableExactly`); if what follows the colon is not
  a number its versions are plain clock readings (`Versions.VersionFallsBack`).
- A cache entry whose expiry would leave the positive int64 range never expires (`TtlCaches.SetThenGet`).
- A leave message is meant to mark the sender dead, but it carries no address and the update refuses empty
  addresses, so nothing changes (`Membership.LeaveIsIgnored`).
- Acknowledgements and indirect probes have the layout of pings and share their tag, so on arrival they are
  read as pings (`MemberCodec.ProbeExactly`).
- Starting components computes the dependency order only to check it; components start concurrently.
  Closing does follow the order (`Lifecycle.LifecycleManager.Close`).
- Asynchronous eviction cannot be switched off, so the synchronous branch of `checkAndEvict` is dead code.
- A drained set operation can carry a newer value under its own older version; `Storage.DrainedExactly` says
  exactly when.
- An operation with an empty key that applies to the node ends a gossip batch (`Gossips.BatchOnKey`).
- A pull empties the queues even if the asker's address is not known and nothing is sent (`Gossips.PullLosesOps`).
  A waiting physical delete has no item, so the message leaves it out: it is taken out and reaches nobody.
  `Gossips.PullDeliversExactly` says exactly which operations are delivered.
- A ping that could be sent counts as a sign of life, so a node that never answers can stay alive for ever
  (`Membership.SilentStaysAlive`); `Membership.AliveExactly` and `Membership.SilentFate` say when it is found out.
- A forwarded probe carries the incarnation of the node that asked under the name of the proxy, after which the
  proxy's own contacts can be ignored (`Membership.ForeignIncarnationSticks`).
- The periodic anti-entropy pass compares a store with its own filter and an empty table, and so reports every
  key it has (`Entropy.OneWayReportsAll`).
- Eviction looks at one shard only: a write can be refused, and a background pass can stop, because the shard
  whose turn it is happens to be empty (`MemStorages.RefusedExactly`, `MemStorages.BackgroundMeaning`).

## Model

| member | source | states |
|---|---|---|
| `RingWalks.PrefsByDistance` | internal/cluster/hashring.go:138-199 | the clockwise walk with its skip of seen nodes lists exactly the ring's nodes, once each, by increasing clockwise distance to their nearest virtual node, whatever the sort did with ties |
| `RingAgreement.AgreementExactly` | internal/cluster/hashring.go:95-117 | all rings built from one node list give the same preference list for a key hash if and only if no two nodes tie at that hash |
| `RingAgreement.AgreementForAllKeys` | internal/cluster/hashring.go:95-117 | agreement over all key hashes holds if and only if virtual nodes of different nodes never share a hash |
| `RingAgreement.TieIsArbitrary` | internal/cluster/hashring.go:95-117 | for any two tied nodes there is another legal ring of the same nodes with a different preference list |
| `RingAgreement.OrderDoesNotMatter` | internal/cluster/hashring.go:73-120 | node lists with the same elements, in any order and with repeats, give equal preference lists wherever no two nodes tie |
| `RingAgreement.MinimalDisruption` | internal/cluster/hashring.go:95-182 | the preference list after removing node x is the old list with x deleted, wherever no two nodes tie; read backwards, the same for a join |
| `RingAgreement.ReplicaListChange` | internal/cluster/hashring.go:122-182 | for two rings that differ in x alone: a replica list without x is unchanged, one with x loses it and gains at most the next node, and a key x did not own keeps its owner |
| `RingAgreement.RingsAgree` | internal/cluster/hashring.go:73-120 | any two sorted arrangements of the same nodes' virtual nodes agree where there is no tie |
| `RingWalks.PrefsMeaning` | internal/cluster/hashring.go:138-182 | n replicas are exactly min(n, node count) distinct nodes, and a prefix of every longer request |
| `RingWalks.SortByHash` | internal/cluster/hashring.go:109-112 | the result is sorted by hash and a permutation of the input |
| `RingWalks.RuneBack` | internal/cluster/hashring.go:98-101 | the number of a virtual node can be read back from its UTF-8 form; only numbers that are no code points are replaced |
| `RingWalks.NamesDistinct` | internal/cluster/hashring.go:98-101 | the hashed name of a virtual node determines its node and its rune, whatever colons node IDs have |
| `RingWalks.MeetOnlyByHash` | internal/cluster/hashring.go:98-107 | two virtual nodes of different nodes, or of one node below the surrogates, share a position only where the hash function maps two different texts to one value |
| `HashRings.DistinctFrom` | internal/cluster/hashring.go:168-176 | the GetN loop returns exactly the first n entries of the preference list |
| `HashRings.HashRing.constructor` | internal/cluster/hashring.go:56-67 | empty ring at version 0, default number of virtual nodes when none is given |
| `HashRings.HashRing.Expand` | internal/cluster/hashring.go:95-106 | one entry per node and virtual-node number, hashed from the node's text |
| `HashRings.HashRing.Update` | internal/cluster/hashring.go:73-120 | accepts exactly strictly newer versions; then holds a sorted arrangement of exactly the given nodes, else nothing changes |
| `HashRings.HashRing.FindNode` | internal/cluster/hashring.go:184-199 | binary search finds the first position at or after the hash, wrapping to 0, -1 on an empty ring |
| `HashRings.HashRing.Get` | internal/cluster/hashring.go:122-136 | the head of the preference list, the empty string on an empty ring |
| `HashRings.HashRing.GetN` | internal/cluster/hashring.go:138-182 | the first n entries of the preference list, nothing for n <= 0 |
| `HashRings.HashRing.GetNMeaning` | internal/cluster/hashring.go:138-182 | for any valid ring object: distinct nodes by distance, exact count, prefix of longer requests |
| `Lifecycle.TopologicalResolvable` | internal/utils/lifecycle/lifecycle.go:170-207 | an order with dependencies first exists only if nothing declared is missing and there is no cycle |
| `Lifecycle.PathGoesBack` | internal/utils/lifecycle/lifecycle.go:170-207 | every dependency path moves strictly towards the front of such an order |
| `Lifecycle.Resolver.Visit` | internal/utils/lifecycle/lifecycle.go:175-198 | the recursive visit terminates, keeps dependencies before dependents, and reports only real missing names and real cycles |
| `Lifecycle.LifecycleManager.Register` | internal/utils/lifecycle/lifecycle.go:50-58 | appends a component and replaces its declared dependencies, unless none are given |
| `Lifecycle.LifecycleManager.ResolveOrder` | internal/utils/lifecycle/lifecycle.go:170-207 | succeeds if and only if every declared dependency is registered and there is no cycle; then lists each registered name once, dependencies first |
| `Lifecycle.LifecycleManager.Start` | internal/utils/lifecycle/lifecycle.go:66-125 | succeeds exactly when not yet started, resolvable and every component starts |
| `Lifecycle.LifecycleManager.Close` | internal/utils/lifecycle/lifecycle.go:133-168 | closes every registered name once, each before anything it depends on; nothing if not started or not resolvable |
| `Lifecycle.ReverseStops` | internal/utils/lifecycle/lifecycle.go:152-166 | the reverse of a dependency order stops dependents first |
| `Clocks.TickAdvances` | internal/utils/hlc/hlc.go:64-95 | a local event moves the clock forward if and only if the wall clock is ahead or the counter does not wrap |
| `Clocks.Causality` | internal/utils/hlc/hlc.go:64-171 | in every interleaving of local events and merges, under any wall clock, an issued stamp exceeds everything shown before and every remote stamp merged before |
| `Clocks.AdvancesExactly` | internal/utils/hlc/hlc.go:64-171 | every local event of a run advances the clock if and only if no counter wraps in it |
| `Clocks.SmallCountersNoWrap` | internal/utils/hlc/hlc.go:64-171 | a bound on received counters and the number of events rules wrapping out |
| `Clocks.WrapExample` | internal/utils/hlc/hlc.go:107-171 | a remote text that says a counter of 2^64-1, merged under a stalled wall clock, turns the clock back |
| `Clocks.NeverAhead` | internal/utils/hlc/hlc.go:64-171 | the clock never shows a time beyond the largest wall or remote time seen |
| `Clocks.TimeIsLatestSeen` | internal/utils/hlc/hlc.go:64-171 | over every run the time shown is exactly the largest of the starting time, the wall readings of the local events and the remote times received |
| `Clocks.IssuesLeast` | internal/utils/hlc/hlc.go:64-95 | a local event issues the least stamp after the one shown and not behind the wall clock; with the counter full and the wall clock behind, the counter starts over |
| `Clocks.CounterRestarts` | internal/utils/hlc/hlc.go:64-95 | in every run, a local event is never behind its wall reading, one that moves the time takes that reading with counter 0, and one that does not takes the next counter, modulo 2^64 |
| `Clocks.MergeIsLater` | internal/utils/hlc/hlc.go:151-171 | a merge shows the later of the two stamps, whole |
| `Clocks.PrintParse` | internal/utils/hlc/hlc.go:64-171 | what parsing makes of a printed stamp: itself if and only if its counter is below 2^63 |
| `Clocks.ReadableExactly` | internal/utils/hlc/hlc.go:64-171 | every issuable stamp is recovered from its text if and only if the node ID has no colon |
| `Clocks.ColonInIdFixesTime` | internal/utils/hlc/hlc.go:107-171 | with a colon in the node ID the time read back does not depend on the stamp |
| `Clocks.AppendInt` | internal/utils/hlc/hlc.go:182-205 | the digit loop appends the decimal form of every int64, the smallest included |
| `Clocks.ParseText` | internal/utils/hlc/hlc.go:107-150 | the scanning parser computes the parse function, wrap-around of overlong digit strings included |
| `Clocks.HLC.Now` | internal/utils/hlc/hlc.go:64-95 | one local step, printed; what the step is over whole runs is said by `TimeIsLatestSeen`, `IssuesLeast` and `CounterRestarts` |
| `Clocks.HLC.Update` | internal/utils/hlc/hlc.go:107-171 | one merge of the parsed remote stamp; unparsable text changes nothing |
| `Versions.PackText` | internal/cluster/writer.go:630-695 | the scanner computes the packed version of a clock text |
| `Versions.PackOrder` | internal/cluster/writer.go:680-695 | the order of packed versions in terms of time offset in the window and saturated counter |
| `Versions.PackKeepsOrder` | internal/cluster/writer.go:680-695 | for stamps under 2^48 ns apart with 16-bit counters, packing keeps the clock order if and only if both are in one window |
| `Versions.WindowEdgeExample` | internal/cluster/writer.go:680-695 | at every window edge one nanosecond makes the version smaller |
| `Versions.SaturationExactly` | internal/cluster/writer.go:680-695 | in one nanosecond distinct counters give distinct versions exactly below 65535 |
| `Versions.IssuedVersionsIncrease` | internal/cluster/writer.go:211-223 | versions from one clock increase along any run inside a window with 16-bit counters |
| `Versions.OwnVersion` | internal/cluster/writer.go:211-223 | printing a stamp and packing the text gives the packed stamp |
| `Versions.VersionFallsBack` | internal/cluster/writer.go:630-695 | with a colon and then a non-digit in the node ID, every version is the clock reading that stands in for unreadable text |
| `Versions.AssignAdvances` | internal/cluster/writer.go:211-223 | a remembered key gets a greater version exactly unless its last one is the largest int64 |
| `Versions.AssignsLeast` | internal/cluster/writer.go:211-223 | a write gets the least version not below the packed stamp and above the last one remembered; after the largest int64 the smallest |
| `Versions.RememberedVersionsIncrease` | internal/cluster/writer.go:211-243 | over any run, across any window edge, two writes of a key remembered in between get strictly increasing versions |
| `Versions.NextWriteIncreasesExactly` | internal/cluster/writer.go:211-243 | over every run, two successive writes of a key get increasing versions if and only if: it is still remembered and its version was not the largest int64, or it was forgotten and the clock's own version is greater |
| `Versions.ForgottenExample` | internal/cluster/writer.go:225-243 | with 10000 other keys remembered a write can be forgotten at once, and the next one across a window edge gets a smaller version |
| `Versions.TombstoneWins` | internal/cluster/writer.go:323-333 | a tombstone's version is positive and beats the given one exactly unless that is the largest int64 |
| `Versions.TombstoneLeast` | internal/cluster/writer.go:323-333 | a tombstone gets the least positive version not below the packed stamp and above the given one; after the largest int64 it gets 1 |
| `Versions.Writer.NextVersion` | internal/cluster/writer.go:211-243 | the version assigned, the clock's step, and what may be remembered afterwards, the trimming past 10000 keys included |
| `Versions.Writer.Forget` | internal/cluster/writer.go:225-243 | drops exactly n entries and keeps the others as they were |
| `Versions.Writer.NextTombstone` | internal/cluster/writer.go:323-333 | the tombstone's version and the clock's step |
| `CasRegister.RunInv` | internal/mem_storage/mem_storage.go:320-398 | the protocol invariant holds in every reachable state, in every interleaving of any number of Sets |
| `CasRegister.VersionNeverDecreases` | internal/mem_storage/mem_storage.go:320-398 | the stored version never decreases and a stored key stays stored |
| `CasRegister.ReturnedIsCovered` | internal/mem_storage/mem_storage.go:320-398 | a Set returns only once its version or a greater one is stored |
| `CasRegister.MaximumStored` | internal/mem_storage/mem_storage.go:320-398 | when all Sets have returned, an item of the greatest version is stored |
| `CasRegister.RetriesBounded` | internal/mem_storage/mem_storage.go:320-398 | of N Sets each retries at most N-1 times, once per store of another, and takes at most 3N steps |
| `CasRegister.WaitFree` | internal/mem_storage/mem_storage.go:320-398 | a Set scheduled 3N times has returned, whatever the others did |
| `CasRegister.Linearizable` | internal/mem_storage/mem_storage.go:320-398 | in every interleaving the slot is what atomic Sets leave, performed in the order in which the Sets return; that order lists each returned Set once |
| `CasRegister.ConcurrentSetsAreAtomic` | internal/mem_storage/mem_storage.go:320-398 | so concurrent Sets of a key leave the item that the same Sets leave when they run one after another in that order, which is how every other operation takes a Set |
| `SyncBuffers.SyncRing.Add` | internal/mem_storage/mem_storage.go:657-696 | the masked ring is a queue of the newest operations up to its capacity; a full one drops exactly its oldest |
| `SyncBuffers.SyncRing.Drain` | internal/mem_storage/mem_storage.go:765-797 | returns every pending operation in order and leaves the ring empty |
| `SyncBuffers.SyncRing.Clear` | internal/mem_storage/mem_storage.go:841-862 | nothing is pending afterwards, though the slots keep their contents |
| `SyncBuffers.KeepsNewest` | internal/mem_storage/mem_storage.go:657-696 | after any run of adds the ring holds the newest operations, in order |
| `Storage.CompactExpand` | internal/mem_storage/mem_storage.go:293-317 | for a faithful compressor, what is stored reads back as what was given |
| `Storage.PutOk` | internal/mem_storage/mem_storage.go:354-410 | a Set keeps list and counter covering everything stored; the counter drifts up by exactly the key's length on an overwrite, and by nothing otherwise; an item that lands makes its key the most recent |
| `Storage.ReadOk` | internal/mem_storage/mem_storage.go:414-440 | a read keeps them too; a lazily expired item leaves the counter too high by exactly its size |
| `Storage.DeleteOk` | internal/mem_storage/mem_storage.go:466-504 | a delete leaves the key if and only if a newer item than its positive version is there, leaves every other key, and accounts exactly |
| `Storage.RemoveIsClean` | internal/mem_storage/mem_storage.go:722-755 | removing the expired keys one by one, in whatever order, gives one result: exactly the expired items gone, with exact accounting |
| `Storage.CompleteOk` | internal/mem_storage/mem_storage.go:765-814 | whatever expires during a drain, nothing is lost, reordered or changed but in its value |
| `Storage.SetsQueued` | internal/mem_storage/mem_storage.go:657-696 | over every run of Sets, however much the ring drops, every waiting operation is some Set's, the store holds its version or a newer one, and its own item if it still holds its version |
| `Storage.DrainedExactly` | internal/mem_storage/mem_storage.go:782-811 | what a drain sends for a waiting operation after any run of Sets, with nothing expired: its own Set's key, version and expiry with the value stored last; that is the Set's own item if and only if no newer version was stored since or the newest has the same value |
| `Storage.DrainMixesVersions` | internal/mem_storage/mem_storage.go:782-811 | after two Sets of a key the first drained operation has its own version and the second one's value |
| `Storage.EvictLeastRecent` | internal/mem_storage/mem_storage.go:585-629 | exactly the stored keys behind a cut of the list go, at most n, fewer only if the list is used up, and the cut is no deeper than needed |
| `Storage.CutByRecency` | internal/mem_storage/mem_storage.go:585-642 | every key kept was touched more recently than every key evicted |
| `Storage.SizeRemove` | internal/mem_storage/mem_storage.go:528-536 | the true size of a store splits off any one of its keys |
| `Storage.SizeIsBytesHeld` | internal/mem_storage/mem_storage.go:528-536 | the true size is the bytes of all keys and stored values and 176 for each item |
| `Shards.Shard.Store` | internal/mem_storage/mem_storage.go:320-410 | data, list, counter and queue after a Set, and what the global counter moves by |
| `Shards.Shard.Load` | internal/mem_storage/mem_storage.go:414-464 | hit, miss and lazy expiry with their effect on the whole shard |
| `Shards.Shard.DeleteKey` | internal/mem_storage/mem_storage.go:466-504 | a newer item than a given positive version is kept; else exact removal and a queued delete |
| `Shards.Shard.TouchLRU` | internal/mem_storage/mem_storage.go:632-642 | the key moves or enters at the front; list and map stay in step, the list in order of use |
| `Shards.Shard.RemoveFromLRU` | internal/mem_storage/mem_storage.go:645-653 | the key leaves list and map |
| `Shards.Shard.EvictBatch` | internal/mem_storage/mem_storage.go:585-629 | the loop computes eviction from the old end |
| `Shards.Shard.CleanExpired` | internal/mem_storage/mem_storage.go:722-755 | the loop computes the cleaning, in any order of the expired keys |
| `Shards.Shard.Keys` | internal/mem_storage/mem_storage.go:817-838 | lists the unexpired keys once each and drops the others from the data only |
| `Shards.Shard.DrainSync` | internal/mem_storage/mem_storage.go:782-811 | empties the queue and completes each operation from what is stored when it is read, expiry included |
| `Shards.Shard.Clear` | internal/mem_storage/mem_storage.go:841-862 | an empty shard |
| `MemStorages.MakeLimits` | internal/mem_storage/mem_storage.go:181-217 | a batch size between 1 and 100 whatever is configured, and a threshold within the maximum for a percentage up to 100 |
| `MemStorages.LimitsMeaning` | internal/mem_storage/mem_storage.go:181-217 | the default limits in bytes, and percentages of the maximum rounded down |
| `MemStorages.ShardCount` | internal/mem_storage/mem_storage.go:164-177 | at least one shard and at least as many as asked for |
| `MemStorages.ShardCountMeaning` | internal/mem_storage/mem_storage.go:164-177 | the smallest power of two that covers what is asked for, or eight per processor between 256 and 4096 |
| `MemStorages.StepOk` | internal/mem_storage/mem_storage.go:268-504 | every operation keeps every shard in order and with its own keys only, and the global counter the sum of the shards' |
| `MemStorages.NeverUndercounts` | internal/mem_storage/mem_storage.go:354-504 | over every sequence of writes, reads, deletes, eviction passes, cleanings, listings, drains and resets the global counter is the sum of the shards' counters and never below the true size of everything stored |
| `MemStorages.ContentsAt` | internal/mem_storage/mem_storage.go:260-262 | a key is found in the shard its hash names and nowhere else |
| `MemStorages.HomesInTurn` | internal/mem_storage/mem_storage.go:260-262 | equal hashes share a shard and consecutive ones take the shards in turn |
| `MemStorages.ReadAnswers` | internal/mem_storage/mem_storage.go:414-464 | a read answers with the item held, exactly as it was before compression, until its expiry time is past; then that it is stale; not found for a key that is not held |
| `MemStorages.WriteThenRead` | internal/mem_storage/mem_storage.go:268-464 | after a write that is stored and newer than what was held, a read at any time up to the expiry answers with exactly that item, value included, and after it that it is stale |
| `MemStorages.DeleteThenRead` | internal/mem_storage/mem_storage.go:466-504 | after a delete nothing is held, unless a newer item than the positive version given was there, which stays; other keys are untouched |
| `MemStorages.ChangesAreQueued` | internal/mem_storage/mem_storage.go:657-696 | a newer item and a removal are queued for the peers as the last operation, and what changes nothing is not |
| `MemStorages.SweepHolds` | internal/mem_storage/mem_storage.go:722-862 | the cleaner and the key listing leave exactly what has not expired, a reset nothing |
| `MemStorages.ResetEmpties` | internal/mem_storage/mem_storage.go:841-862 | after a reset nothing is held, listed, waiting or counted in any shard |
| `MemStorages.RefusedExactly` | internal/mem_storage/mem_storage.go:540-559 | a write is refused for want of memory if and only if the counter, the key, the stored bytes and 176 together exceed both maximum and threshold and the shard whose turn it is holds nothing |
| `MemStorages.WriteCosts` | internal/mem_storage/mem_storage.go:540-629 | a write that fits costs other keys nothing; otherwise only keys of the shard whose turn it is can go |
| `MemStorages.WriteEvicts` | internal/mem_storage/mem_storage.go:540-629 | then exactly five of them go, or all there are if fewer |
| `MemStorages.StoredMeans` | internal/mem_storage/mem_storage.go:268-290 | a write that is not refused leaves its item or a version at least as new, and eviction for it took at most the old end of one shard |
| `MemStorages.BackgroundMeaning` | internal/mem_storage/mem_storage.go:887-913 | a pass starts only above the threshold; it ends at the target, after ten batches' worth of keys or at a shard that holds nothing; it takes keys only by least recent use of their shard, and above threshold and target it takes none if and only if the next shard is empty |
| `MemStorages.MemStorage.constructor` | internal/mem_storage/mem_storage.go:163-257 | an empty store with the configured limits and number of shards, its shards sharing nothing |
| `MemStorages.MemStorage.EvictBatchLRU` | internal/mem_storage/mem_storage.go:585-629 | a batch changes only the next shard in rotation |
| `MemStorages.MemStorage.CheckAndEvict` | internal/mem_storage/mem_storage.go:540-559 | computes the room-making function on the objects |
| `MemStorages.MemStorage.Set` | internal/mem_storage/mem_storage.go:268-290 | computes the write: empty key, nil item, refused, or last write wins on what eviction left, in the key's shard |
| `MemStorages.MemStorage.Get` | internal/mem_storage/mem_storage.go:414-464 | computes the read, all outcomes; what they are in terms of writes is said by `ReadAnswers` and `WriteThenRead` |
| `MemStorages.MemStorage.DeleteKey` | internal/mem_storage/mem_storage.go:466-504 | computes the delete, all outcomes |
| `MemStorages.MemStorage.RunAsyncEviction` | internal/mem_storage/mem_storage.go:887-913 | the loop computes the pass |
| `MemStorages.MemStorage.CleanExpired` | internal/mem_storage/mem_storage.go:722-762 | the loop over shards computes the cleaning |
| `MemStorages.MemStorage.Keys` | internal/mem_storage/mem_storage.go:817-838 | exactly the keys left in the store, once each |
| `MemStorages.MemStorage.GetSyncBuffer` | internal/mem_storage/mem_storage.go:765-814 | the waiting operations of all shards, completed, in order; every queue is empty afterwards |
| `MemStorages.MemStorage.Clear` | internal/mem_storage/mem_storage.go:841-862 | an empty store again |
| `SyncCodec.SurvivesExactly` | internal/cluster/codec.go:151-260 | an encoded operation decodes to itself if and only if its key is under 65536 bytes, its type known and its expiry absent or positive |
| `Bytes.ByteAt` | internal/cluster/codec.go:151-188 | integers are written lowest byte first: byte i has weight 256^i |
| `SyncCodec.OpLayout` | internal/cluster/codec.go:151-188 | the offset and contents of every field of an encoded operation |
| `SyncCodec.RoundTrip` | internal/cluster/codec.go:45-148 | decoding an encoded batch gives exactly the operations that have an item, in order |
| `SyncCodec.TruncationSafe` | internal/cluster/codec.go:118-148 | any byte prefix of an encoded batch decodes to a prefix of that list |
| `SyncCodec.Serialize` | internal/cluster/codec.go:45-115 | the buffer-building encoder computes the format |
| `SyncCodec.AppendFrame` | internal/cluster/codec.go:77-92 | reserving four bytes and writing the length back gives a framed payload |
| `SyncCodec.EncodeOpStreaming` | internal/cluster/codec.go:151-188 | appends exactly one encoded operation |
| `SyncCodec.DecodeOne` | internal/cluster/codec.go:192-260 | the offset-based decoder computes the decoding function, truncated input included |
| `SyncCodec.Deserialize` | internal/cluster/codec.go:118-148 | the batch decoder stops at the first incomplete frame and keeps a hole for a malformed payload |
| `MemberCodec.ConnectExactly` | internal/cluster/codec.go:317-535 | a connect message decodes to itself through the shared tag if and only if its ID is non-empty and its address has at least 3 bytes, the first not zero |
| `MemberCodec.ClusterSyncExactly` | internal/cluster/codec.go:317-743 | a cluster-sync message decodes to itself if and only if it has at most 1000 members and all addresses are of that form, short empty ones included |
| `MemberCodec.Unambiguous` | internal/cluster/codec.go:477-704 | no two well-formed messages of the two kinds share an encoding |
| `MemberCodec.InfoLayout` | internal/cluster/codec.go:612-646 | the offset and contents of every field of an encoded member |
| `MemberCodec.ReadString` | internal/cluster/codec.go:366-395 | the length-prefixed string at an offset, 0 as next offset on failure |
| `MemberCodec.ReadConnect` | internal/cluster/codec.go:499-535 | computes the decoding function of connect messages |
| `MemberCodec.ReadInfo` | internal/cluster/codec.go:648-685 | computes the decoding function of one member and the offset after it |
| `MemberCodec.ReadClusterSync` | internal/cluster/codec.go:706-743 | computes the decoding function of cluster-sync messages |
| `MemberCodec.ReadMessage` | internal/cluster/codec.go:317-345 | the guess between the two kinds and its fallbacks compute the shared decoding function |
| `MemberCodec.ProbeExactly` | internal/cluster/codec.go:306-316 | a message with the ping tag decodes to itself if and only if it is a ping with a recipient or a probe without a target; any other that has a recipient is read as a ping |
| `MemberCodec.ReadFields` | internal/cluster/codec.go:419-435 | computes the fields common to the three messages of the ping tag |
| `MemberCodec.ReadProbe` | internal/cluster/codec.go:306-316 | the three attempts compute the decoding function, and never yield an acknowledgement |
| `Convergence.Final` | internal/mem_storage/mem_storage.go:320-398 | after any writes a key holds a winning item if there is one, else what was there |
| `Convergence.ConvergesAt` | internal/cluster/gossip.go:457-481 | two replicas that start with the same item of a key and see the same writes to it, in any order and with any repetition, end with the same item of it, whatever else they hold and see |
| `Convergence.ConvergesExactly` | internal/mem_storage/mem_storage.go:320-398 | every replica ends with the same item of a key if and only if writes tied at the winning version carry one item |
| `Convergence.ReplicasConverge` | internal/cluster/gossip.go:457-481 | so whole stores that start equal and see the same writes end equal |
| `Convergence.Idempotent` | internal/cluster/gossip.go:457-481 | applying any of the writes again changes nothing, ties or not |
| `Convergence.FirstWinnerStays` | internal/mem_storage/mem_storage.go:367-375 | of tied winners the one that comes first in the stream stays |
| `Gossips.BatchOnKey` | internal/cluster/gossip.go:425-484 | as long as no write meets a full store and a key is not found expired, a batch is last write wins on that key by the writes before the first refused operation, and it succeeds if and only if there is none; repeats that are skipped need no room |
| `Gossips.ReplicasExactly` | internal/cluster/gossip.go:434-453 | on every ring exactly min(n, node count) nodes replicate a key, none of the others is nearer to it, and with n at least the node count all do |
| `Gossips.OthersKeysIgnored` | internal/cluster/gossip.go:434-465 | a pushed batch changes nothing on a node that replicates none of its keys |
| `Replication.RunIsWrites` | internal/cluster/gossip.go:425-569 | over every run of messages and the node's own writes, reads, drains and cleanings in which no write meets a full store and a key is not found expired or removed, the store holds for that key what last write wins makes of the run's writes |
| `Replication.RunShows` | internal/cluster/gossip.go:425-569 | and what it shows for that key depends on the items written alone, not on compression |
| `Replication.RunReads` | internal/cluster/gossip.go:425-569 | so a read after such a run answers with the item that last write wins leaves, value included, or that it is missing or expired |
| `Replication.EventualConsistency` | internal/cluster/gossip.go:425-569 | two nodes that show the same item of a key and whose runs carry the same writes to it, batched, ordered and repeated in any way, show the same item of it in the end - whatever else they replicate, hold, receive or compress |
| `Replication.ReadsAgree` | internal/cluster/gossip.go:425-569 | and reads of the key at one time answer the same on both nodes |
| `Replication.PushReachesReplicas` | internal/cluster/gossip.go:425-512 | a newer write pushed to any node the ring names as a replica, with room, is what a read there answers; with as many replicas as nodes, on every node of the ring |
| `Replication.RepeatIsSkipped` | internal/cluster/gossip.go:468-473 | an operation that was applied is skipped when it comes again, so repeats need no room |
| `Replication.WriterAndReplica` | internal/cluster/writer.go:179-209 | a node that stores its own write and a replica that is pushed it show the same item of the key afterwards if they did before, and it is the one written if that is newer |
| `Gossips.PushCarries` | internal/cluster/gossip.go:257-380 | an encoded push carries the operations that have an item |
| `Gossips.PullCarries` | internal/cluster/gossip.go:391-423 | so does a pull request, which brings the sender's own operations, from a node whose ID has no colon |
| `Gossips.PullLosesOps` | internal/cluster/gossip.go:527-552 | a pull from a node whose address is not known leaves every queue empty and sends nothing |
| `Gossips.PullDeliversExactly` | internal/cluster/gossip.go:527-552 | an operation that a pull takes out of the store is delivered if and only if the asker's address is known and the operation has an item |
| `Gossips.PullAnswersSender` | internal/cluster/gossip.go:516-552 | for a pull as it is sent, what was waiting goes to the node that asked and to no other |
| `Gossips.Gossip.IsReplica` | internal/cluster/gossip.go:434-453 | the cached replica test answers as the ring does, and the cache stays right; which nodes that makes replicas is said by `ReplicasExactly` |
| `Gossips.Gossip.ApplyAt` | internal/cluster/gossip.go:457-481 | computes one operation of a batch exactly, expiry, eviction and refusal included |
| `Gossips.Gossip.ApplyOps` | internal/cluster/gossip.go:425-484 | the loop computes the batch exactly, in every case |
| `Gossips.Gossip.HandleMessage` | internal/cluster/gossip.go:490-569 | computes the handling of any message exactly: the store afterwards, the answer to the sender, the reply to a pull |
| `Membership.StepInv` | internal/cluster/member.go:186-646 | every handler, ping pass and timer keeps ring and table in step, forgets no member and lowers no incarnation |
| `Membership.RingFollowsMembership` | internal/cluster/cluster.go:194-211 | over every run with strictly increasing clock readings the ring's nodes are the alive members whenever there are any, members are never forgotten, incarnations never decrease |
| `Membership.ReportIsRecorded` | internal/cluster/member.go:583-646 | a report with an address that is not below the recorded incarnation is recorded exactly, address, incarnation and state, for new and known nodes alike, and touches no other entry; any other leaves the table alone |
| `Membership.ConnectJoins` | internal/cluster/member.go:325-352 | a node that connects at a current incarnation is alive at its address and on the ring; an address under three bytes is refused |
| `Membership.ContactRevives` | internal/cluster/member.go:258-323 | a ping or acknowledgement at a current incarnation makes a known node alive and puts it on the ring, whatever was thought of it; from an unknown node it changes nothing |
| `Membership.ListIsRecorded` | internal/cluster/member.go:460-480 | a member list leaves a node as its entry of the highest incarnation says, the last of equals, unless something newer was known |
| `Membership.ListLeavesAlone` | internal/cluster/member.go:460-480 | a member list never touches the receiver itself or a node it names only with unusable addresses |
| `Membership.StartsAlone` | internal/cluster/member.go:85-131 | a manager starts with itself alive at incarnation 0 and alone on the ring |
| `Membership.LeaveSelfMarksDead` | internal/cluster/member.go:690-710 | a node that leaves is dead in its own table, and off its ring exactly when another node is alive |
| `Membership.TurnMovesExactly` | internal/cluster/member.go:186-235 | a turn of a ping pass moves a node if and only if it is another, not dead, and silent longer than the failure timeout; to dead if suspected, else to suspect |
| `Membership.OneMovePerPass` | internal/cluster/member.go:186-235 | no pass takes a node from alive to dead |
| `Membership.DeathNeedsSuspicion` | internal/cluster/member.go:186-553 | over every run a node that was alive and is dead was suspected in between, unless an event said outright that it is dead |
| `Membership.ContactRecorded` | internal/cluster/member.go:583-646 | an accepted contact leaves a record at most one second old |
| `Membership.DetectorAccuracy` | internal/cluster/member.go:186-646 | whatever happens in between, a pass within the failure timeout less one second of an accepted contact does not change that node's state |
| `Membership.BoundIsTight` | internal/cluster/member.go:557-581 | one nanosecond later it can |
| `Membership.SilentStaysAlive` | internal/cluster/member.go:211-232 | over every run of passes whose pings to a node go out and which follow each other within the failure timeout less one second, the node stays alive and on the ring though it never answers |
| `Membership.AliveExactly` | internal/cluster/member.go:186-235 | over every run of passes that visit it, a node is alive at the end if and only if at each of its turns its record was not older than the failure timeout |
| `Membership.SilentFate` | internal/cluster/member.go:186-235 | when no ping to it goes out, over every such run it is suspected at the first pass later than the failure timeout after its record and dead from the next on |
| `Membership.LatePassesFindOut` | internal/cluster/member.go:186-235 | if the run begins later than that, its state is decided by the number of passes alone: suspect after one, dead after two |
| `Membership.ForeignIncarnationSticks` | internal/cluster/member.go:405-429 | once a contact of a node is taken at a foreign, higher incarnation, no later contact at its own changes anything, whatever happens in between |
| `Membership.TimerKillsExactly` | internal/cluster/member.go:511-521 | the delayed callback kills if and only if the node is still suspected and silent longer than the suspect timeout |
| `Membership.LeaveIsIgnored` | internal/cluster/member.go:354-362 | a leave message changes nothing |
| `Membership.SameIncarnationFlips` | internal/cluster/member.go:583-646 | at equal incarnation the later message decides a node's state |
| `Membership.MemberMgr.constructor` | internal/cluster/member.go:85-131 | starts with itself alive and on the ring |
| `Membership.MemberMgr.OnMembershipChange` | internal/cluster/cluster.go:194-211 | the ring gets exactly the alive members at the next clock reading, if there are any |
| `Membership.MemberMgr.UpdateNodeInfo` | internal/cluster/member.go:583-646 | refines the update function: stale incarnations, address checks, one-second throttle, callback; what it records is said by `ReportIsRecorded` |
| `Membership.MemberMgr.Mark` | internal/cluster/member.go:482-553 | refines the marking function for suspect and dead |
| `Membership.MemberMgr.Refresh` | internal/cluster/member.go:557-581 | refines the throttled refresh |
| `Membership.MemberMgr.PingTurn` | internal/cluster/member.go:186-235 | refines one turn of a pass |
| `Membership.MemberMgr.PingAll` | internal/cluster/member.go:186-235 | refines a pass in any order of the members |
| `Membership.MemberMgr.HandleClusterSync` | internal/cluster/member.go:460-480 | refines the merge of a received member list |
| `Membership.MemberMgr.Handle` | internal/cluster/member.go:238-256 | refines the step function for every event |
| `TtlCaches.VictimMeaning` | internal/utils/cache/ttl_cache.go:207-233 | the victim is the least recently used entry, or else the one nearest the end that is colder than the newcomer; never the head unless it is alone |
| `TtlCaches.SetKeeps` | internal/utils/cache/ttl_cache.go:176-254 | a Set keeps keys distinct and the size bounded and puts the newcomer first |
| `TtlCaches.SetCosts` | internal/utils/cache/ttl_cache.go:176-254 | another key loses its place if and only if the cache is full of other keys and it is the victim |
| `TtlCaches.RunShape` | internal/utils/cache/ttl_cache.go:93-303 | over every run of operations keys are distinct and the size is at most maxSize |
| `TtlCaches.RunCurrent` | internal/utils/cache/ttl_cache.go:93-303 | over every run everything cached is the latest Set of its key, not deleted or cleared since |
| `TtlCaches.ReadsLatest` | internal/utils/cache/ttl_cache.go:93-154 | so a read returns only that value, and only unexpired |
| `TtlCaches.HitsExactly` | internal/utils/cache/ttl_cache.go:93-154 | a read hits if and only if the key is listed with no expiry or one that is not past, and answers the value listed |
| `TtlCaches.ReadReorders` | internal/utils/cache/ttl_cache.go:93-154 | a hit puts the key first and keeps the order of the others, an expired key is dropped, a miss changes nothing |
| `TtlCaches.SetThenGet` | internal/utils/cache/ttl_cache.go:93-254 | after a Set in any run a read answers its value up to now + ttl and not after; for good if ttl is not positive or the sum leaves the positive int64 range |
| `TtlCaches.StaysListed` | internal/utils/cache/ttl_cache.go:93-303 | a listed key stays listed if and only if the operation is not a Clear, its Delete, a read past its expiry or a Set whose victim it is |
| `TtlCaches.StaysCached` | internal/utils/cache/ttl_cache.go:93-303 | so over every run a key stays cached until such an operation |
| `TtlCaches.ListedIsRead` | internal/utils/cache/ttl_cache.go:93-154 | and while it is, reads answer its latest Set, unless expired |
| `TtlCaches.ShardSizeMeaning` | internal/utils/cache/ttl_cache.go:57-90 | the share of a shard, with the number of shards the smallest power of two that covers what is asked for |
| `TtlCaches.CacheShard.constructor` | internal/utils/cache/ttl_cache.go:57-90 | an even share of the size among a power of two of shards, at least one entry, with the defaults for sizes and counts that are not positive |
| `TtlCaches.CacheShard.AddToFront` | internal/utils/cache/ttl_cache.go:362-375 | prev and next stay inverse along head to tail; the entry is in front |
| `TtlCaches.CacheShard.RemoveEntry` | internal/utils/cache/ttl_cache.go:377-391 | likewise without the entry, wherever it was |
| `TtlCaches.CacheShard.MoveToFront` | internal/utils/cache/ttl_cache.go:393-402 | likewise with the entry in front and the others in order |
| `TtlCaches.CacheShard.Get` | internal/utils/cache/ttl_cache.go:93-154 | list, map and sketch after a read, and that it returns only the latest unexpired Set of its history; when it hits is said by `HitsExactly` and `StaysCached` |
| `TtlCaches.CacheShard.PickVictim` | internal/utils/cache/ttl_cache.go:207-233 | the walk along prev finds the victim, by the sketch's estimates |
| `TtlCaches.CacheShard.Set` | internal/utils/cache/ttl_cache.go:176-254 | list, map and sketch after a write, eviction included; empty key or closed cache change nothing |
| `TtlCaches.CacheShard.Delete` | internal/utils/cache/ttl_cache.go:157-173 | removes exactly the key, and says whether it was there |
| `TtlCaches.CacheShard.Clear` | internal/utils/cache/ttl_cache.go:283-303 | empties the shard, even a closed one |
| `TtlCaches.CacheShard.Bounded` | internal/utils/cache/ttl_cache.go:207-233 | the map never holds more than maxSize entries |
| `Sketches.CellsExact` | internal/utils/cache/tinylfu.go:56-84 | after every run each cell is exactly the aged count of the keys that share it, saturation included |
| `Sketches.NeverUnderestimates` | internal/utils/cache/tinylfu.go:34-84 | the estimate is at least the key's exact aged count and at most that of all accesses, and exact if some row keeps the key apart from all others |
| `Sketches.ExactExactly` | internal/utils/cache/tinylfu.go:34-84 | it is exact if and only if in some row the keys sharing the cell add nothing |
| `Sketches.ExactUntilAged` | internal/utils/cache/tinylfu.go:34-72 | until the first ageing it is exact if and only if some row keeps the key apart from every other accessed key |
| `Sketches.CellsInStride` | internal/utils/cache/tinylfu.go:44-51 | the first row counts a key at its hash and each further row a fixed stride on, for widths that divide 2^64 as the one in use does |
| `Sketches.TogetherExactly` | internal/utils/cache/tinylfu.go:44-51 | two keys are counted together in every row if and only if they are in the first two |
| `Sketches.CountMinSketch.constructor` | internal/utils/cache/tinylfu.go:20-31 | all cells zero |
| `Sketches.CountMinSketch.EstimateKey` | internal/utils/cache/tinylfu.go:34-53 | the running minimum is the estimate |
| `Sketches.CountMinSketch.IncrementKey` | internal/utils/cache/tinylfu.go:56-72 | one cell per row goes up, saturating; no other changes |
| `Sketches.CountMinSketch.Reset` | internal/utils/cache/tinylfu.go:75-84 | every cell is halved |
| `Entropy.SetBit` | internal/cluster/entropy.go:73-76 | setting a bit of the filter sets that bit and no other |
| `Entropy.FilterKeys` | internal/cluster/entropy.go:154-168 | exactly the keys with the prefix, in order |
| `Entropy.RangeExactly` | internal/cluster/entropy.go:154-168 | the keys in a range are the listed ones that begin with the range key, without repeats if there were none |
| `Entropy.Digest` | internal/cluster/entropy.go:61-90 | a filter bit is set if and only if some key has it; the table holds exactly the positive versions |
| `Entropy.FilterBits` | internal/cluster/entropy.go:61-76 | bit b of byte i is set if and only if the hash of some key, modulo 8192, is 8i + b |
| `Entropy.Sync` | internal/cluster/entropy.go:92-152 | the reported local keys in order, then exactly the remote table's keys that cannot be read here; any filter length |
| `Entropy.CollisionsDoNotMatter` | internal/cluster/entropy.go:99-141 | whatever the hash, which local keys are reported depends only on what the two stores hold |
| `Entropy.SyncExactlyAt` | internal/cluster/entropy.go:92-152 | per key, the answer is right if and only if the other store does not hold it at a non-positive version that is not newer |
| `Entropy.SyncExactly` | internal/cluster/entropy.go:92-152 | given another store's digest, exactly the keys held on one side only or older here are reported, if and only if every version the other store holds is positive or newer than one held here |
| `Entropy.NoRepeats` | internal/cluster/entropy.go:92-152 | no key is reported twice if and only if every listed key in the remote table can still be read |
| `Entropy.ZeroVersionMissed` | internal/cluster/entropy.go:82-86 | a key held only remotely at version 0 is missed |
| `Entropy.OneWayReportsAll` | internal/cluster/entropy.go:239-250 | the periodic pass reports exactly all keys of its own store |

## Left out

- Concurrency other than the compare-and-swap loop of Sets: every other operation is modelled as if it ran alone, under its lock.
- CasRegister.RunInv: no deletes, evictions or expiry run beside the Sets, as the retry bound would not hold with them.
- MemStorages.ShardCount: rounding up to a power of two is repeated doubling; the code's bit operations give the same for counts up to 2^63. Negative shard counts are left out.
- Counters kept for display.
- Replication.EventualConsistency: says nothing of a key that a run finds expired, evicts or physically deletes.
- Gossip sending: target choice, retries and back-off. The drain that answers a pull runs in the background; it is modelled as running at once.
- TtlCaches.CacheShard.Set: one shard of the cache, entries always freshly allocated; the pool that recycles entry objects and the choice of shard by hash are left out, and so are hit and miss counts.
- SyncBuffers.SyncRing.Add: positions are unbounded and the slot is the remainder by the capacity; the code's 64-bit positions and mask agree with that as the capacity is a power of two.
- SyncCodec.RoundTrip: nil and empty values are the same value, as the format does not tell them apart.
- Clocks.HLC.Now: the cached text of the last stamp is left out, as it is never valid when it is looked at.
- Membership.MemberMgr.Handle: indirect probes, acknowledgement forwarding and everything sent are left out; whether a ping was sent is an input, as is each clock reading; pings and acknowledgements are one event, a contact, as both handlers treat the sender alike.
- The leave message's format, a node ID and an incarnation under a tag of its own.
- Lifecycle.LifecycleManager.Start: the concurrent starting of components, their time-outs and clean-up are one input, whether all succeeded.
- RingWalks.SortByHash: an insertion sort stands for the library's sort; only its contract is used.
- Entropy.Sync: the store is what its key listing and reads answer, so the lazy expiry those cause is not modelled here.
- Quorum and speculative reads, read repair, hinted hand-off, checkpoints, BatchSet and BatchGet, statistics, network transport and connection pools, executors, configuration, logging and the public wrapper.
