# ummap-io: models and proofs

ummap-io gives a program a memory mapping whose pages are filled and written back in user
space, from any storage driver, under eviction policies and memory quotas chosen by the
program. This project models the parts of it that carry the risk and proves what they
promise.

* **The page cache** (`SegmentCache`, `CacheRuns`, `CacheRedirect`, `MemoryDriver`, `Mapping`).
  A mapping is a table of segments with three status bits, a page table, a memory copy and a
  storage. `SegmentCache` defines every operation on values; the class `Mapping.Mapping`
  performs them in place, loop by loop, and is proved to do exactly that.
* **The whole library under one thread** (`PolicyKinds`, `MappedProgram`): many mappings, each
  with its cache, and policies of any kind shared by any of them. A fault notifies the policies,
  the policies choose victims, evictions notify the other policies. The main result,
  `MappedProgram.SystemIsPlain`, says that a program cannot tell the mappings from plain byte
  arrays: not by the bytes its loads return, and not by what is left at the end.
* **The same cache under concurrency** (`ConcurrentCache`, `ConcurrentLimits`): faults, flushes,
  evictions, dropClean and markCleanAsDirty are cut into their single visible effects and
  interleaved with stores of the program in every order, in both modes.
* **Locks** (`LockOrder`, `LockHolds`): what every operation takes and releases, why no set of
  threads can block each other, and which mutexes are held at which point.
* **Eviction policies** (`Ring`, `StorageTable`, `PolicyLists`, `FifoPolicy`, `LifoPolicy`,
  `WindowPolicy`, `PolicyAgreement`). The FIFO policy is proved on its linked ring and its byte
  counter; the others on the sequence the ring stands for. `StorageTable` is the decoding of an
  element's address. `PolicyAgreement` composes the local FIFO policies of all mappings with
  the one they share.
* **Quotas** (`Quota`, `QuotaRuns`, `QuotaReach`, `QuotaAborts`, `QuotaAverage`, `LifoQuota`,
  `InterProc`): balancing inside one process, and the table that processes share, with crashes.
* **Parsers** (`Uri`, `HumanUnits`): each has a regular expression and a hand-written form
  that are meant to be the same parser.
* **Maximum bipartite matching** (`BipartiteMatching`): the one-pass augmenting search of the
  googlemock copy that the repository builds with.

## What turned out not to hold

Where the code does not meet what one would expect of it, the model keeps the code and a lemma
gives the exact condition.

* `flush(bool)` passes the unaligned size, and aborts unless the size is a whole number of
  segments (`CacheRuns.WholeFlushAccepted`).
* Without thread safety a load opens the page before it reads storage, also for a read fault,
  and a flush does not protect the page: both can lose a store. From a new mapping every run
  shows exactly the stores if and only if the mode is thread-safe or no segment has a byte that
  can be loaded or written (`ConcurrentLimits.NoLostWriteExactly`).
* A read fault that arrives after a write fault on the same segment leaves it dirty and
  read-only; a write fault on such a segment, and on no other, returns without opening it, and
  no store gets through until a flush (`ConcurrentLimits.ReadFaultAfterWriteFault`,
  `ConcurrentLimits.WriteFaultOpens`, `ConcurrentLimits.StuckUntilFlush`).
* After a switch of the driver with no action on clean segments, later runs go on from what is
  shown exactly when every clean resident byte equals the new storage
  (`CacheRedirect.SwitchNoActionSound`), and from what was shown before exactly when every clean
  stored byte does (`CacheRedirect.SwitchNoActionKeepsOld`).
* Mapping again after a flush gives back the view except where a segment is still virtual
  zeros over a storage that is not zero (`CacheRuns.RemapRoundTrip`).
* A local limit below one segment makes the assertion in the global policy fail
  (`PolicyAgreement.TouchFailsExactly`).
* Balancing a quota evicts up to half of what the largest member holds above the average in one
  round, but the buffer of shrinkMemory is full at 128 victims, which stops the process. A comment
  in the source says that this takes different segment sizes; with one size an ordinary touch is
  enough. An update is stopped if and only if its first round is
  (`QuotaAborts.UpdateAbortsExactly`), and the exact bound for whole runs is
  `QuotaAborts.RunsAbortExactly`: two members sharing 1000 segments are already beyond it
  (`QuotaAborts.OrdinaryAbort`).
* Without a quota a touch overruns that buffer only when a policy serves segments of which one
  size is more than 127 times another (`PolicyKinds.OverrunsExactly`).
* The header says that each policy gets at least the average share. With one segment size, over
  all states on which a run calls update, this holds exactly when there is one policy, no segment
  fits the quota, or the size divides the average (`QuotaAverage.AverageGuarantee`).
* The LIFO eviction loop ends exactly when the touched segment fits the limit
  (`LifoPolicy.LoopLeavesExactly`).
* A touch of a LIFO member never updates the quota, because a local flag shadows the one that is
  tested. Members of one segment size stay within the quota if and only if the whole segments
  that fit their limits do (`LifoQuota.LimitsExactly`), which from an empty quota means if and
  only if there is at most one (`LifoQuota.LifoQuotaExactly`). Both speak of runs that are not
  stopped.
* A window policy evicts the segment just touched exactly when the fixed part is full without it
  and it exceeds the sliding part (`PolicyKinds.SparesExactly`).
* A segment of the fixed window can be demoted when segment sizes are mixed
  (`WindowPolicy.FixedStaysExactly`, `WindowPolicy.MixedSizesDemote`).
* A join that reuses the slot of a dead process counts it without uncounting the dead one, so
  the process counter is the number of occupied slots plus those reuses, for good
  (`InterProc.CountersOrdered`, `InterProc.ReusedReached`, `InterProc.ReusedStays`).
* The two URI parsers differ on a path holding `://` and on a question mark without a first
  pair, and nowhere else on accepted input (`Uri.ParsersAgreeExactly`).
* The comment on `fromHumanMemSize` calls the regular expression stricter; the two size
  parsers accept the same strings (`HumanUnits.ParsersAgree`).

## Model

| member | source | states |
|---|---|---|
| SegmentCache.SegmentsRoundUp | src/core/Mapping.cpp:40-120 | the number of segments and the mapped size are the size rounded up to whole segments, as the constructor computes them |
| SegmentCache.SegmentIsQuotient | src/core/Mapping.cpp:262-324 | the one segment whose byte range holds an offset is the quotient the fault handler computes |
| SegmentCache.FreshView | src/core/Mapping.cpp:40-120 | a new mapping is consistent and shows its storage, or zeros when the first read is skipped |
| SegmentCache.FaultInvisible | src/core/Mapping.cpp:262-324 | a fault the processor raises keeps the invariant, the view, the storage and all other segments, and opens its segment for the access |
| SegmentCache.UnmapInvisible | src/core/Mapping.cpp:589-604 | giving back a clean segment keeps the invariant and the view |
| SegmentCache.WriteBackInvisible | src/core/Mapping.cpp:566-587 | writing back a dirty segment keeps the view and leaves it clean |
| SegmentCache.WrittenBackAt | src/core/Mapping.cpp:429-435 | a write back changes exactly the storage bytes of its segment inside the size, also for the short last segment |
| SegmentCache.FlushSegmentInvisible | src/core/Mapping.cpp:560-606 | flushing one segment keeps view and invariant, leaves it clean and, on request, unmapped |
| CacheRuns.WholeFlushAccepted | src/core/Mapping.cpp:413-419 | flush(bool) passes the argument check if and only if the size is a multiple of the segment size; the aligned size always passes |
| CacheRuns.FlushBounds | src/core/Mapping.cpp:523-550 | an accepted range is a range of whole existing segments |
| CacheRuns.FlushAcceptsExactly | src/core/Mapping.cpp:525-529 | the argument check passes if and only if the range is from the start of an existing segment to the start or end of a segment |
| CacheRuns.FlushRangeInvisible | src/core/Mapping.cpp:523-620 | a flush of any range, evicting or not, keeps invariant, view and the storage outside the window |
| CacheRuns.EvictAllInvisible | src/core/Mapping.cpp:639-657 | any list of evictions keeps the view and closes exactly the listed segments |
| CacheRuns.DropCleanInvisible | src/core/Mapping.cpp:441-474 | dropClean keeps invariant and view |
| CacheRuns.MarkInvisible | src/core/Mapping.cpp:480-510 | markCleanAsDirty keeps invariant and view |
| CacheRuns.WriteThrough | src/core/Mapping.cpp:282-317 | a store on an open page changes that byte of the view and nothing else; one in the padding changes nothing |
| CacheRuns.StepRefines | src/core/Mapping.cpp:220-657 | every operation is a step of a flat array and leaves storage outside the window alone |
| CacheRuns.RunRefines | src/core/Mapping.cpp:220-657 | so is every run of access attempts, flushes, evictions, dropClean and markCleanAsDirty |
| CacheRuns.ReadReturnsFlatByte | src/core/Mapping.cpp:220-324 | a read that gets through after any run returns the byte of the flat array |
| CacheRuns.OneFaultSuffices | src/core/Mapping.cpp:262-324 | whatever is evicted after a fault, the access is granted if and only if that is not the segment itself |
| CacheRuns.ReadFaultOnDirtyBreaksMirror | src/core/Mapping.cpp:288-312 | after a read fault protection mirrors status if and only if the segment was not dirty |
| CacheRuns.FlushRangeAt | src/core/Mapping.cpp:523-620 | what a flush leaves, byte by byte and status by status, from any state |
| CacheRuns.FlushDurable | src/core/Mapping.cpp:523-620 | after a flush every flushed segment is clean and its storage bytes are the view, except virtual zeros |
| CacheRuns.StepFlushes | src/core/Mapping.cpp:523-620 | the flush operation, by byte offset: in its range every dirty byte is on storage and nothing is dirty, and nothing is resident after an unmapping one; outside nothing changes |
| CacheRuns.StepFlushDurable | src/core/Mapping.cpp:523-620 | so in its range whatever will be read from storage is there as the program saw it, under the same view |
| CacheRuns.StepEvicts | src/core/Mapping.cpp:639-657 | an eviction is an unmapping flush of exactly its segment |
| CacheRuns.RemapRoundTrip | src/core/GlobalHandler.cpp:267-288 | flushing all and mapping again gives back the view if and only if every segment is stored, dirty, or zeros over zeros |
| CacheRuns.NeedReadStays | src/core/Mapping.cpp:566-587 | once a segment has to be read from storage, no run makes it virtual zeros again |
| CacheRedirect.CopyRoundsAt | src/core/Mapping.cpp:713-753 | the copy writes memory or storage bytes of the covered range into the target and nothing outside |
| CacheRedirect.CowInvisible | src/core/GlobalHandler.hpp:91-115 | after copy-on-write the view and status are unchanged and the invariant holds against the new storage |
| CacheRedirect.CowThenRun | src/core/GlobalHandler.hpp:91-115 | every run after a copy-on-write continues the old flat array on the new storage |
| CacheRedirect.DropCleanAt | src/core/Mapping.cpp:441-474 | dropClean closes and zeroes exactly the mapped clean segments |
| CacheRedirect.MarkAt | src/core/Mapping.cpp:480-510 | markCleanAsDirty marks and opens exactly the mapped clean segments, and on a mapping that is not writable none |
| CacheRedirect.StepDrops | src/core/Mapping.cpp:441-474 | as an operation dropClean leaves resident exactly the dirty ones of the resident segments |
| CacheRedirect.StepMarks | src/core/Mapping.cpp:480-510 | as an operation markCleanAsDirty makes every resident segment of a writable mapping dirty and open, and changes nothing else |
| CacheRedirect.SwitchDropsClean | src/core/GlobalHandler.hpp:118-158 | after a switch with drop-clean a dirty segment keeps its view and every other one shows the new storage, or zeros where the first read is still to be skipped |
| CacheRedirect.SwitchMarksThenFlush | src/core/GlobalHandler.hpp:118-158 | after a switch with mark-clean-dirty, a full flush leaves the new storage with the old view of every resident segment and its own bytes elsewhere |
| CacheRedirect.SwitchNoActionSound | src/core/GlobalHandler.hpp:118-158 | after a switch with no action every later run continues the bytes shown at that moment if and only if the new storage holds every clean resident byte |
| CacheRedirect.SwitchNoActionKeepsOld | src/core/GlobalHandler.hpp:118-158 | and it continues the bytes shown before the switch if and only if the new storage holds every clean stored byte, resident or not |
| CacheRedirect.SwitchNoActionThenEvict | src/core/GlobalHandler.hpp:118-158 | otherwise the view of a clean resident byte changes at its next eviction |
| MemoryDriver.MemoryDriver.constructor | src/drivers/MemoryDriver.cpp:25-34 | a buffer of the size filled with the value |
| MemoryDriver.MemoryDriver.Pwrite | src/drivers/MemoryDriver.cpp:72-91 | the buffer is the old one with the written range replaced |
| MemoryDriver.MemoryDriver.Pread | src/drivers/MemoryDriver.cpp:94-113 | the target is the old one with the read range replaced; the buffer is unchanged |
| Mapping.Mapping.constructor | src/core/Mapping.cpp:40-120 | the new object stands for the fresh cache of that geometry |
| Mapping.Mapping.SkipFirstRead | src/core/Mapping.cpp:664-668 | clears the needRead bit of every segment and nothing else |
| Mapping.Mapping.LoadAndSwapSegment | src/core/Mapping.cpp:220-251 | both the new-page and the in-place path load the same segment and open it |
| Mapping.Mapping.OnSegmentationFault | src/core/Mapping.cpp:262-324 | refuses exactly the accesses outside the mapping or its protection; otherwise performs the fault step |
| Mapping.Mapping.FlushPages | src/core/Mapping.cpp:523-620 | refuses exactly the ranges the argument check refuses; otherwise performs the flush step, with the effect on every byte of memory and storage stated by offset |
| Mapping.Mapping.EvictSegment | src/core/Mapping.cpp:639-657 | performs the eviction step, with the effect on every byte of its segment stated |
| Mapping.Mapping.DropCleanPages | src/core/Mapping.cpp:441-474 | performs dropClean |
| Mapping.Mapping.MarkDirty | src/core/Mapping.cpp:480-510 | performs markCleanAsDirty |
| Mapping.Mapping.Attempt | src/core/Mapping.cpp:262-324 | one access of the processor: completes when granted, returning the byte, and otherwise faults and evicts |
| Mapping.Mapping.Execute | src/core/Mapping.cpp:220-657 | any sequence of operations on the object refines the run on values |
| Mapping.Mapping.CopyMappedPart | src/core/Mapping.cpp:713-753 | the copy loop performs all rounds up to the limit on the target buffer |
| Mapping.Mapping.CopyOnWrite | src/core/Mapping.cpp:765-784 | copies with the size of the mapping, then redirects the driver |
| Mapping.Mapping.SwitchDriver | src/core/GlobalHandler.hpp:118-158 | redirects the driver and applies the clean action |
| Mapping.CowIsolates | src/public-api/ummap.cpp:419-451 | copy-on-write followed by any operations never touches the old storage, and the view is the old one under the later stores |
| ConcurrentCache.StepInvisible | src/core/Mapping.cpp:282-317 | every single effect of every thread keeps the invariant, and only a store of the program changes a view |
| ConcurrentCache.RunInvisible | src/core/Mapping.cpp:551-615 | no lost write: under every interleaving each segment shows exactly the stores, in order |
| ConcurrentCache.UnlockedSegmentSafe | src/core/Mapping.cpp:551-657 | in thread-safe mode, a segment whose mutex is free is mapped and dirty if writable, equals storage if clean, and shows the stores |
| ConcurrentCache.ClearedIsDurable | src/core/Mapping.cpp:575-587 | when a flush clears the dirty bit, storage holds the view at that instant |
| ConcurrentLimits.NoLostWriteExactly | src/core/Mapping.cpp:220-251 | from a new mapping every run shows exactly the stores if and only if the mode is thread-safe or every segment is empty, inaccessible, or zeros nobody may write |
| ConcurrentLimits.InPlaceLoadLosesWrite | src/core/Mapping.cpp:229-246 | without thread safety the in-place load of any non-empty segment loses a store, in every new mapping |
| ConcurrentLimits.UnprotectedFlushLosesWrite | src/core/Mapping.cpp:575-602 | without thread safety the flush of any writable segment loses a store, in every new mapping whose first read is skipped |
| ConcurrentLimits.WriteFaultOpens | src/core/Mapping.cpp:282-317 | a write fault leads to an open page unless the segment is dirty and read-only, and then it does nothing |
| ConcurrentLimits.OneOwnStep | src/core/Mapping.cpp:282-317 | a thread inside an operation has one next effect, so its own run is determined |
| ConcurrentLimits.ReadFaultCompletes | src/core/Mapping.cpp:282-317 | in both modes the own steps of an idle thread end a read fault with the page open on the bytes shown before, and the segment as dirty as it was |
| ConcurrentLimits.WriteFaultCompletes | src/core/Mapping.cpp:282-317 | and a write fault with the page writable on the bytes shown before, unless the segment is dirty and read-only |
| ConcurrentLimits.FlushCompletes | src/core/Mapping.cpp:560-606 | and a flush with the segment clean, its dirty bytes on storage and, when it unmaps, not resident |
| ConcurrentLimits.DropCompletes | src/core/Mapping.cpp:441-474 | and dropClean with the segment resident if and only if it is dirty |
| ConcurrentLimits.MarkCompletes | src/core/Mapping.cpp:480-510 | and markCleanAsDirty with a resident segment of a writable mapping dirty |
| ConcurrentLimits.StuckUntilFlush | src/core/Mapping.cpp:288-312 | over every run without a flush of it such a segment stays dirty and read-only, and no store to it gets through |
| ConcurrentLimits.FlushFrees | src/core/Mapping.cpp:560-606 | a flush by any idle thread ends that, and the next write fault opens the page |
| ConcurrentLimits.ReadFaultAfterWriteFault | src/core/Mapping.cpp:288-312 | in every new writable mapping two faults in that order leave any segment so |
| LockOrder.ProgramNeat | src/core/Mapping.cpp:284-323 | every operation takes quota, then segment, then policy mutexes in one strict order and gives all back |
| LockOrder.MaskNeat | src/core/Mapping.cpp:555-558 | the mutexes of a flush, taken by ascending index, respect the order |
| LockOrder.WaitsHigher | src/core/PolicyQuotaLocal.cpp:57-83 | a thread holding what another waits for can itself only wait for something higher |
| LockOrder.DeadlockFree | src/policies/FifoPolicy.cpp:89-145 | in every reachable state with a busy thread, some thread can go on |
| LockOrder.GetMutexRange | src/core/Mapping.cpp:380-407 | the selected mutexes are exactly those of the segments of the range |
| LockHolds.OperationLocks | src/core/Mapping.cpp:284-323 | every mutex an operation has to take is taken under what it has to be taken under: a fault its segment mutex; notified policies under the victim's segment mutex; rounds of a quota under the quota mutex |
| LockHolds.FlushHolds | src/core/Mapping.cpp:555-558 | at one point a flush holds all selected mutexes and no other |
| LockHolds.FlushHoldsRange | src/core/Mapping.cpp:380-407 | with the mask of getMutexRange these are the mutexes of all segments of the range and of no other |
| LockHolds.SweepHolds | src/core/Mapping.cpp:446-447 | at one point dropClean and markCleanAsDirty hold all mutexes of the mapping |
| LockHolds.LoneThread | src/policies/FifoPolicy.cpp:89-145 | a thread alone performs every operation to its end, holding at each point what the events so far say |
| BipartiteMatching.MaxBipartiteMatchState.TryAugment | extern-deps/googletest-release-1.10.0/googlemock/src/gmock-matchers.cc:182-206 | ends; keeps left and right inverse; on success the node is matched and nobody loses a partner; on failure the marked nodes are closed under alternating paths |
| BipartiteMatching.MaxBipartiteMatchState.Augment | extern-deps/googletest-release-1.10.0/googlemock/src/gmock-matchers.cc:130-150 | trying each left node once leaves a dead end that holds every neighbour of every unmatched node |
| BipartiteMatching.MaxBipartiteMatchState.Collect | extern-deps/googletest-release-1.10.0/googlemock/src/gmock-matchers.cc:151-161 | the returned pairs are those of the table, and form a matching |
| BipartiteMatching.CoverBound | extern-deps/googletest-release-1.10.0/googlemock/src/gmock-matchers.cc:130-161 | with such a dead end no matching is larger |
| BipartiteMatching.FindMaxBipartiteMatching | extern-deps/googletest-release-1.10.0/googlemock/src/gmock-matchers.cc:228-230 | returns a matching, ordered by left node, at least as large as every matching |
| BipartiteMatching.CoverBySize | extern-deps/googletest-release-1.10.0/googlemock/src/gmock-matchers.cc:420-459 | a matching covers a side if and only if its size reaches that side |
| BipartiteMatching.FindPairing | extern-deps/googletest-release-1.10.0/googlemock/src/gmock-matchers.cc:420-459 | succeeds if and only if one matching meets all the flags |
| Ring.ListElement.constructor | src/common/ListElement.cpp:22-25 | a new element is a ring of its own |
| Ring.ListElement.RemoveFromList | src/common/ListElement.cpp:42-49 | the element is alone and the others are the same ring without it |
| Ring.ListElement.InsertAfter | src/common/ListElement.cpp:76-90 | the ring gains the element right after this one |
| Ring.ListElement.InsertBefore | src/common/ListElement.cpp:97-111 | the ring gains the element right before this one |
| Ring.ListElement.PopNext | src/common/ListElement.cpp:118-127 | takes the first element off, or returns null on an empty list |
| Ring.ListElement.PopPrev | src/common/ListElement.cpp:134-143 | takes the last element off, or returns null on an empty list |
| Ring.RingAlone | src/common/ListElement.cpp:56-69 | an element is alone if and only if its ring has one node, in a list otherwise |
| Ring.RingRotates | src/common/ListElement.cpp:42-49 | a ring can be read from any of its nodes |
| Ring.InsertThenRemove | src/common/ListElement.cpp:42-90 | removal undoes insertion |
| PolicyLists.ShortestSuffix | src/policies/FifoPolicy.cpp:116-139 | the loop leaves a total within the limit, one survivor more would exceed it, and the bytes are conserved |
| PolicyLists.SurvivorsMaximal | src/policies/FifoPolicy.cpp:116-139 | no longer newest part fits the limit |
| PolicyLists.TouchedTotal | src/policies/FifoPolicy.cpp:96-114 | a touch lists the segment once and adds its size exactly when it was absent |
| PolicyLists.RemoveTotal | src/policies/FifoPolicy.cpp:154-179 | removing lowers the total by the size exactly when the segment was listed |
| PolicyLists.TouchedSurvives | src/policies/FifoPolicy.cpp:104-139 | the touched segment is not among the victims if and only if it fits the limit |
| PolicyLists.AtMostOneVictim | src/policies/FifoPolicy.cpp:116-139 | with one segment size and a respected limit a touch evicts at most one segment |
| PolicyLists.TouchOrdered | src/policies/FifoPolicy.cpp:96-139 | a touch keeps the list ordered by last touch |
| PolicyLists.RunOrdered | src/policies/FifoPolicy.cpp:49-225 | after every run the list is ordered by last touch, duplicate-free and within the last limit |
| PolicyLists.RemoveSegmentsMember | src/policies/FifoPolicy.cpp:49-75 | freeing a mapping removes exactly its segments |
| FifoPolicy.FifoPolicy.constructor | src/policies/FifoPolicy.cpp:26-30 | an empty policy with equal static and dynamic limits |
| FifoPolicy.FifoPolicy.AllocateElementStorage | src/core/Policy.cpp:73-114 | refuses exactly when one segment, or one segment per mapping, does not fit; otherwise adds the elements of the mapping unlisted |
| StorageTable.GetStorageInfo | src/core/Policy.cpp:120-154 | the range test and pointer subtraction return the array and index of every element address, and fail exactly outside all ranges |
| StorageTable.EncodingInjective | src/core/Policy.cpp:120-123 | no two elements have one address |
| FifoPolicy.FifoPolicy.GetStorageInfo | src/core/Policy.cpp:132-154 | finds the one storage and index of an element |
| FifoPolicy.FifoPolicy.GetStorageOf | src/core/Policy.cpp:163-192 | finds the storage of a mapping |
| FifoPolicy.FifoPolicy.EvictDown | src/policies/FifoPolicy.cpp:116-139 | the loop on the ring ends, evicts exactly the oldest segments needed, and aborts if and only if they are 128 or more |
| FifoPolicy.FifoPolicy.NotifyTouch | src/policies/FifoPolicy.cpp:78-151 | ring and counter become the touched list cut to the limit; the victims are the rest, oldest first |
| FifoPolicy.FifoPolicy.ShrinkMemory | src/policies/FifoPolicy.cpp:182-225 | ring and counter become the list cut to the limit |
| FifoPolicy.FifoPolicy.NotifyEvict | src/policies/FifoPolicy.cpp:154-179 | ring and counter lose that segment |
| FifoPolicy.FifoPolicy.FreeElementStorage | src/policies/FifoPolicy.cpp:49-75 | ring and counter lose all segments of the mapping, and the registry loses the mapping |
| FifoPolicy.FifoPolicy.Unregister | src/core/Policy.cpp:199-212 | the registry loses exactly that entry |
| PolicyKinds.TouchExchanges | src/policies/FifoWindowPolicy.cpp:96-187 | in FIFO, LIFO and window policies alike a touch lists the segment and removes exactly its victims, other listed segments, each once |
| PolicyKinds.SparesExactly | src/policies/FifoWindowPolicy.cpp:133-176 | FIFO and LIFO always spare the touched segment; a window if and only if it is placed in the fixed part or fits the sliding one |
| PolicyKinds.EvictsNoMore | src/policies/FifoPolicy.cpp:116-139 | in every kind of policy a touch that evicts ends within the limit and would not without its last victim |
| PolicyKinds.OverrunsExactly | src/policies/FifoPolicy.cpp:130-134 | segments between two sizes never overrun the victim buffer of a touch, in any kind of policy, if and only if the larger size is at most 127 times the smaller |
| MappedProgram.EvictKeeps | src/core/Mapping.cpp:639-657 | an eviction meets every isInList assertion, keeps all views, and leaves the other victims and the touched segment as they were |
| MappedProgram.TouchOneKeeps | src/core/Mapping.cpp:319-323 | a touch of any kind of policy and all its evictions keep the agreement of all policies, as sets, and every view; it can be stopped only by such a difference in size |
| MappedProgram.AccessKeeps | src/core/Mapping.cpp:262-324 | an access completes after at most one fault, with the victims the policies really choose, given limits of one segment; it can be stopped only if a policy serves two mappings of which one has segments more than 127 times as large |
| MappedProgram.SystemIsPlain | src/core/Mapping.cpp:220-657 | over every program on any mappings and policies no assertion fails and no access faults for ever; the loads return and the mappings show what plain byte arrays would, unless a policy with such a difference in size overruns its victim buffer |
| MappedProgram.OneSizeNeverStops | src/policies/FifoPolicy.cpp:130-134 | with one segment size per policy every program runs to its end, with the loads and bytes of plain arrays |
| MappedProgram.ResidentListed | src/policies/FifoPolicy.cpp:78-179 | after every program from new mappings a resident or listed segment is listed by every policy of its mapping |
| MappedProgram.FlushInstruction | src/core/Mapping.cpp:523-620 | a flush instruction of a program ends, and puts on storage what its range shows |
| MappedProgram.SweepInstructions | src/core/Mapping.cpp:441-510 | after dropClean exactly the dirty segments are resident; after markCleanAsDirty exactly the segments that were dirty, or resident in a writable mapping, are dirty |
| PolicyAgreement.LocalVictims | src/core/Mapping.cpp:639-657 | what a local touch evicts is listed in the global policy and belongs to that mapping |
| PolicyAgreement.KeptIsRemoval | src/policies/FifoPolicy.cpp:116-139 | cutting a list is the same as removing its victims one by one, as the other policy does |
| PolicyAgreement.TouchSafe | src/core/Mapping.cpp:319-323 | a touch of local then global policy meets every isInList assertion and restores the agreement |
| PolicyAgreement.TouchedStaysMapped | src/core/Mapping.cpp:319-323 | neither policy evicts the segment just touched; it is mapped and the newest of both lists |
| PolicyAgreement.TouchWithRoom | src/policies/FifoPolicy.cpp:96-139 | with room in both policies a touch evicts nothing |
| PolicyAgreement.FreeExactly | src/policies/FifoPolicy.cpp:49-75 | freeing a mapping removes exactly its segments from the shared policy and its own |
| PolicyAgreement.StepSafe | src/policies/FifoPolicy.cpp:78-179 | every step keeps local lists equal to the global list restricted to their mapping |
| PolicyAgreement.RunSafe | src/policies/FifoPolicy.cpp:78-179 | over every run no assertion fails and the agreement holds |
| PolicyAgreement.ResidencyBounded | src/policies/FifoPolicy.cpp:78-179 | after every run from the start mapped segments are listed in both policies and resident bytes <= listed bytes <= limit |
| PolicyAgreement.TouchFailsExactly | src/policies/FifoPolicy.cpp:154-179 | the assertion fails if and only if the segment is new to the global list and larger than the local limit |
| Quota.LargestAboveAverage | src/core/PolicyQuotaLocal.cpp:66-86 | over the quota the largest member exceeds the average, so the subtraction cannot underflow |
| Quota.RoundDecreases | src/core/PolicyQuotaLocal.cpp:66-86 | each round that is not stopped lowers the total and grows no member |
| Quota.ShrinkExactly | src/policies/FifoPolicy.cpp:182-225 | shrinking keeps the longest newest part that fits; exactly what is cut leaves the lists of the sharing members |
| Quota.UpdatedFits | src/core/PolicyQuotaLocal.cpp:52-89 | update is stopped by a full victim buffer or ends within the quota, for any members, also when they share segments |
| Quota.UpdatedFair | src/public-api/ummap.h:360-362 | unless update is stopped, without sharing a member at or below the average is untouched, and a shrunk one stays above the average minus its largest segment |
| QuotaAborts.UpdateAbortsExactly | src/policies/FifoPolicy.cpp:182-225 | with one segment size update is stopped if and only if the quota is exceeded and half the excess of the largest member over the average, rounded up to segments, is 128 or more |
| QuotaAborts.RunsAbortExactly | src/core/PolicyQuotaLocal.cpp:52-89 | no run of at most n members that join empty is stopped if and only if n is at most 1 or half of what a full quota exceeds its n-th part by is less than 128 segments |
| QuotaAborts.OrdinaryAbort | src/policies/FifoPolicy.cpp:211-213 | two members of one segment size sharing 1000 segments have a run that is stopped |
| QuotaReach.Reach | src/core/PolicyQuota.cpp:48-68 | runs from an empty quota reach every way to share what fits it |
| QuotaReach.ReachedFit | src/core/PolicyQuota.cpp:114-130 | in every reached state each member is within its limit and each limit within the quota |
| QuotaReach.RegisterExactly | src/core/PolicyQuota.cpp:48-68 | joining with what still fits: everyone keeps their segments, with the whole quota as limit |
| QuotaReach.UnregisterExactly | src/core/PolicyQuota.cpp:75-105 | leaving a quota that holds: that member is gone and the others keep their segments, with the whole quota as limit |
| QuotaReach.ForgetExactly | src/policies/FifoPolicy.cpp:49-75 | exactly the freed segments leave that member, the order of the others stays, and no other member changes |
| QuotaRuns.StepWithin | src/policies/FifoPolicy.cpp:147-150 | every registration, touch, eviction or free is stopped or keeps the total within the quota |
| QuotaRuns.QuotaAlwaysHolds | src/core/PolicyQuota.cpp:48-105 | so is or does every run |
| QuotaRuns.PolicyQuotaLocal.GetUsedMemory | src/core/PolicyQuotaLocal.cpp:32-43 | the sum over the members |
| QuotaRuns.PolicyQuotaLocal.SearchMax | src/core/PolicyQuotaLocal.cpp:66-76 | the first of the largest members |
| QuotaRuns.PolicyQuotaLocal.Update | src/core/PolicyQuotaLocal.cpp:52-89 | the loop ends, and is stopped exactly when a round has 128 victims or more; otherwise it yields the balanced members |
| QuotaRuns.PolicyQuotaLocal.UpdateNotifyLimit | src/core/PolicyQuota.cpp:114-130 | every member gets the whole quota as its limit |
| QuotaRuns.PolicyQuotaLocal.NotifyTouch | src/policies/FifoPolicy.cpp:78-151 | a touch of a member, the update it triggers, and both ways to be stopped |
| QuotaRuns.PolicyQuotaLocal.Perform | src/core/PolicyQuota.cpp:48-105 | each operation on the object is the step, with its outcome, and keeps the quota |
| QuotaAverage.AverageGuarantee | src/public-api/ummap.h:360-362 | every member that had the average keeps it, in every state on which a run of n members of one segment size calls update, if and only if n is 1, the size exceeds the quota, or it divides the average |
| InterProc.CountersOrdered | src/core/PolicyQuotaInterProc.cpp:59-83 | processes is the occupied slots plus the reused dead ones, and occupied slots are at least the live members |
| InterProc.ReusedReached | src/core/PolicyQuotaInterProc.cpp:65-75 | a crash followed by a join leaves two counted processes where one is alive |
| InterProc.ReusedStays | src/core/PolicyQuotaInterProc.cpp:65-75 | no run takes such a count back |
| InterProc.OwnsOneSlot | src/core/PolicyQuotaInterProc.cpp:93-122 | each live member is in exactly one slot, the one the destructor finds |
| InterProc.MemberCounted | src/core/PolicyQuotaInterProc.cpp:179-195 | a live member never divides by zero |
| InterProc.JoinedExactly | src/core/PolicyQuotaInterProc.cpp:59-83 | a join takes the first slot that is free or dead, a new one exactly when all belong to live processes, and changes no other |
| InterProc.LeaveExactly | src/core/PolicyQuotaInterProc.cpp:93-122 | a leave frees exactly the slot of its process and uncounts it |
| InterProc.JoinThenLeave | src/core/PolicyQuotaInterProc.cpp:59-122 | joining and leaving again restores the counter, the members and the slots of all live processes |
| InterProc.SweepExactly | src/core/PolicyQuotaInterProc.cpp:125-155 | a sweep frees exactly the slots of dead processes and lowers the counter by their number |
| InterProc.UpdateShare | src/core/PolicyQuotaInterProc.cpp:179-195 | an update gives its process the largest quota that the counted processes can all have, and leaves the others theirs |
| InterProc.CounterExact | src/core/PolicyQuotaInterProc.cpp:59-155 | when every occupied slot is live the counter is the live members plus the reused slots |
| InterProc.RunKeeps | src/core/PolicyQuotaInterProc.cpp:59-155 | the invariant holds over every interleaving of starts, crashes, joins, leaves, sweeps and updates |
| InterProc.QuotasFit | src/core/PolicyQuotaInterProc.cpp:179-195 | once all live members have updated since the last join their quotas sum to at most the total |
| InterProc.MemoryFits | src/core/PolicyQuotaInterProc.cpp:179-195 | and what all of them hold after balancing to their quotas sums to at most the total |
| InterProc.ExactShares | src/core/PolicyQuotaInterProc.cpp:179-195 | over every run without reused or dead slots each member that updated since the counter changed has exactly the n-th part of the total, n the live members |
| InterProc.SharesCountReused | src/core/PolicyQuotaInterProc.cpp:179-195 | with reused slots the part by the live members and those slots |
| InterProc.SharedTable.constructor | src/core/PolicyQuotaInterProc.cpp:42-58 | an empty table |
| InterProc.SharedTable.Join | src/core/PolicyQuotaInterProc.cpp:59-83 | takes the first free or dead slot, or a new one, and counts itself |
| InterProc.SharedTable.Leave | src/core/PolicyQuotaInterProc.cpp:93-122 | frees its slot, uncounts itself and reports whether it was found |
| InterProc.SharedTable.SignalAll | src/core/PolicyQuotaInterProc.cpp:125-155 | frees and uncounts exactly the dead, signals exactly the other live processes |
| InterProc.SharedTable.PerProcessQuota | src/core/PolicyQuotaInterProc.cpp:179-195 | the largest quota that all counted processes can have within the total |
| WindowPolicy.RunKeeps | src/policies/FifoWindowPolicy.cpp:96-261 | every run keeps the windows disjoint, the sliding one within its size and the fixed one less than one segment above its size |
| WindowPolicy.NewRunKeeps | src/policies/FifoWindowPolicy.cpp:29-36 | so does every run of a new policy, whatever its sizes |
| WindowPolicy.RunOrdered | src/policies/FifoWindowPolicy.cpp:96-261 | after every run of a new policy both windows are ordered by last touch |
| WindowPolicy.PlacedExactly | src/policies/FifoWindowPolicy.cpp:96-176 | a touched segment is fixed if and only if the fixed window has room without it, and slides otherwise if it fits |
| WindowPolicy.FixedStaysExactly | src/policies/FifoWindowPolicy.cpp:96-176 | a touch keeps a segment fixed if and only if it is another one or the fixed window without it has room |
| WindowPolicy.FixedForGood | src/policies/FifoWindowPolicy.cpp:96-261 | a fixed segment of the largest size stays fixed through every run until it is evicted from outside or freed |
| WindowPolicy.MixedSizesDemote | src/policies/FifoWindowPolicy.cpp:96-176 | with two sizes a fixed segment can lose its place by being touched |
| WindowPolicy.FifoWindowPolicy.constructor | src/policies/FifoWindowPolicy.cpp:29-36 | two empty windows; the fixed size is the 64-bit difference, which wraps when the sliding part is larger than the whole |
| WindowPolicy.FifoWindowPolicy.NotifyTouch | src/policies/FifoWindowPolicy.cpp:96-187 | lists, flags and both counters become the touched windows; aborts exactly on 128 victims or more |
| WindowPolicy.FifoWindowPolicy.NotifyEvict | src/policies/FifoWindowPolicy.cpp:190-221 | the window tagged by the flag loses the segment, its counter the bytes |
| WindowPolicy.FifoWindowPolicy.FreeElementStorage | src/policies/FifoWindowPolicy.cpp:59-93 | lists and both counters lose exactly the segments of the mapping |
| WindowPolicy.FifoWindowPolicy.ShrinkMemory | src/policies/FifoWindowPolicy.cpp:224-267 | only the sliding window is cut, to its own size |
| LifoPolicy.TouchFits | src/policies/LifoPolicy.cpp:101-136 | the touched segment is listed within the limit and one survivor more would not fit |
| LifoPolicy.TouchedNotEvicted | src/policies/LifoPolicy.cpp:101-136 | the touched segment is never a victim of its own touch |
| LifoPolicy.NewestLeaveFirst | src/policies/LifoPolicy.cpp:101-136 | in an ordered list every victim was touched later than every survivor |
| LifoPolicy.TouchOldestFirst | src/policies/LifoPolicy.cpp:75-148 | a touch keeps the list ordered by last touch, the touched segment last |
| LifoPolicy.RunOldestFirst | src/policies/LifoPolicy.cpp:75-222 | after every run of touches, shrinks and removals the list is ordered by last touch, duplicate-free and within the last limit |
| LifoPolicy.VictimsAreNewest | src/policies/LifoPolicy.cpp:101-136 | after every run what a touch evicts was touched later than every other segment that stays |
| LifoPolicy.LoopLeavesExactly | src/policies/LifoPolicy.cpp:101-136 | the loop condition can become false if and only if the segment fits the limit |
| LifoQuota.LimitsExactly | src/policies/LifoPolicy.cpp:75-148 | members of one segment size keep the quota over every run of touches and evictions that is not stopped if and only if the whole segments that fit their limits do |
| LifoQuota.LifoQuotaExactly | src/core/PolicyQuota.cpp:48-130 | from an empty quota every run with at most n members is stopped or keeps it if and only if n is at most 1 |
| LifoQuota.LifoEscapesQuota | src/policies/LifoPolicy.cpp:75-148 | with two members or more some run of registrations and touches, each of its own mapping, exceeds the quota |
| LifoQuota.TouchExactly | src/policies/LifoPolicy.cpp:75-148 | a touch of a member keeps the most of its oldest other segments that fit beside the touched one |
| LifoQuota.TouchOthers | src/policies/LifoPolicy.cpp:75-148 | exactly what it cuts leaves the lists of the sharing members |
| LifoPolicy.LifoPolicy.NotifyTouch | src/policies/LifoPolicy.cpp:75-148 | list and counter become the survivors followed by the segment; aborts exactly on 128 victims or more |
| LifoPolicy.LifoPolicy.ShrinkMemory | src/policies/LifoPolicy.cpp:179-222 | list and counter become the list cut to the limit |
| Uri.NoRegexParse | src/uri/Uri.cpp:62-118 | the loop with its look-ahead and terminating zero is the state machine, failing where the source stops |
| Uri.RegexParams | src/uri/Uri.cpp:121-166 | the loop over the matched parameters is the scan |
| Uri.LastWins | src/uri/Uri.cpp:62-118 | of several pairs with one key the last one stays |
| Uri.MatchUnique | src/uri/Uri.cpp:18-18 | all matches of one text give the same result |
| Uri.AlphabetsAre | src/uri/Uri.cpp:18-18 | the characters allowed in type, path, key and value, one by one |
| Uri.ParsersAgreeExactly | src/uri/Uri.cpp:62-166 | on accepted text the hand-written parser returns the same if and only if the path holds no :// and a question mark is followed by a pair; otherwise it stops |
| Uri.ParsersInvertPrinting | src/uri/Uri.cpp:62-166 | both parsers applied to a printed URI return its type, path and last-wins parameters |
| HumanUnits.FromHumanMemSize | src/common/HumanUnits.cpp:28-64 | the loop splits digits from unit letters and fails where the source stops |
| HumanUnits.ParsersAgree | src/common/HumanUnits.cpp:20-103 | both parsers accept the same strings and return the same value, overflow included |
| HumanUnits.ValueIs | src/common/HumanUnits.cpp:28-64 | absent overflow a printed number with the k-th unit is read as that number times the k-th power of 1024 |
| HumanUnits.FactorIs | src/common/HumanUnits.cpp:42-64 | the k-th of the letters K, M, G and T means the k-th power of 1024, no letter bytes |
| HumanUnits.DecimalInvertsPrint | src/common/HumanUnits.cpp:28-64 | reading a printed number gives the number |

## Left out

- The operating system calls: mmap, mprotect, mremap, madvise, signals, shm_open and kill are effects on an abstract page table, memory and set of processes.
- Other storage back ends, partial reads and writes, and driver synchronisation: storage is a byte array read and written in full; sharing one buffer between two memory drivers is excluded by a precondition.
- The direct-mapped mode of drivers and directMmapCow, which bypass the segment table.
- copyExtraNotMappedPart: copy-on-write is modelled with the size its callers pass.
- The sync flag of flush, prefetch, and the execute bit of the protection.
- GlobalHandler::flush address rounding and the umflush and umsync wrappers.
- deferSignal, runDeferedSignal and the SIGUSR1 handler.
- MappingRegistry, PolicyRegistry, the C API casts, the rw-wrapper, htopml, listings, and the choice of a driver from a URI: lookups and plumbing that would only add easy members.
- The rest of googletest and googlemock, including MatchMatrix::NextGraph and Randomize.
- Mapping.Mapping.SkipFirstRead: states what it clears, not that it is invisible, because it is sound only before the first touch, where FreshView covers it.
- Mapping.Mapping.Execute: one thread and no mutex; interleavings are in ConcurrentCache, on values.
- Mapping.Mapping.constructor: requires a storage that covers the window; the source accepts a shorter one and fails at the first access beyond it.
- Mapping.Mapping.OnSegmentationFault: without the notifications of the policies, which MappedProgram composes on values.
- Mapping.Mapping.FlushPages: without the sync flag and the mutexes.
- Mapping.Mapping.EvictSegment: without the notifications of the other policies, which MappedProgram composes on values.
- ConcurrentCache.RunInvisible: pread and pwrite of one segment are single steps, and a segment has as many bytes in memory as on storage.
- MappedProgram.SystemIsPlain: the mappings exist from the start and each has its own storage; no quota (QuotaRuns has it, without the caches); the policies are values, tied to the objects by the contracts of their classes.
- LockOrder.DeadlockFree: locks are an abstract list of events per operation, tied to the code by the shape of each operation, not derived from the methods.
- PolicyAgreement.RunSafe: FIFO policies without quota, one local policy per mapping, limits of at least one segment; the abort on 128 victims is not an outcome there. MappedProgram states the agreement, as sets, for every kind of policy and with that outcome.
- FifoPolicy.FifoPolicy.NotifyTouch: the evictions and the quota update that follow it are composed in PolicyAgreement and QuotaRuns.
- FifoPolicy.FifoPolicy.Unregister: removes that mapping; the loop of the source steps past the element it erased.
- QuotaAborts.RunsAbortExactly: members join empty and have one segment size, not larger than the quota.
- QuotaRuns.QuotaAlwaysHolds: FIFO members, as lists and limits; LIFO members never trigger the update and FIFO-window members ignore the dynamic limit.
- Quota.UpdatedFits: members are values, so the order in which evictions reach other policies is fixed.
- InterProc.SharedTable.Join: requires a slot to be left, because the source does not check the end of its table.
- InterProc.RunKeeps: process ids are not recycled, and no process dies while it holds the spin lock.
- WindowPolicy.FifoWindowPolicy.NotifyTouch: the two rings are sequences; linking is proved for FIFO only. Its evictions are composed in MappedProgram; it does not respect a quota.
- FifoPolicy.FifoPolicy.GetStorageInfo: searches by element; the address arithmetic is in StorageTable.
- LifoQuota.LifoQuotaExactly: one segment size, not larger than the quota; when such runs are stopped is not decided.
- InterProc.MemoryFits: the members of each process are FIFO lists, and no update of theirs was stopped.
- LifoPolicy.LifoPolicy.NotifyTouch: requires the segment to fit the limit, because otherwise the loop of the source does not end; the ring is a sequence.
- HumanUnits.ParsersAgree: atol is any function of the digits that reads no digits as zero, so its behaviour out of range is left open.
