# Verified models of Miri's algorithms

Miri interprets Rust programs and detects undefined behaviour. Seven of its self-contained algorithms
are modelled here, with proofs of what they promise.

* **The data-race detector** (`src/concurrency/data_race.rs`). `ShadowCells` and `Detector` give every
  check and hook as a function of the old state; `MemoryCells` and `GlobalStates` are the classes that
  update clocks and tables in place, each method tied to one of those functions. `HappensBefore`
  declares the edges of happens-before on traces without any clock. `EventSets` is a machine in which
  clocks are sets of positions and joins are unions; `SetsAreHappensBefore` shows that its sets are the
  declared pasts, and `ClockRefinement`, `ClockSteps` and `Runs` that the detector refines it.
  `CellHistory`, `FastTrack`, `Exactness`, `Verdicts`, `RecordedSizes` and `RaceTheorems` then show that
  a constant-size cell gives the verdict of the full history. `RaceReports` and `ReportsInRuns` are about the message,
  `ReleaseSequences` about the synchronization clock of a location, `ClockDomination` about why one
  timestamp can stand for a clock, `BlockDetection` about checking ranges block by block, and
  `LocalClocks` and `BackdatedLocals` about locals without an address. `ConcreteRuns` follows the
  detector along given traces, which `FalseAlarm` and `MixedSizes` use for their examples.
* **The run-length map** (`src/data_structures/dedup_range_map.rs`) that holds the shadow cells:
  `RangeMaps`, `DedupRangeMaps`.
* **The square root of soft floats** (`src/math.rs`): `SquareRoots` is the digit loop on integers,
  `SoftFloats` its meaning over the reals, correct rounding as in section 5.4.1 of IEEE 754-2019.
* **The Windows command line** (`src/eval.rs`): `CommandLines`, with Microsoft's parsing rules as the
  specification.
* **The page allocator** (`src/alloc/isolated_alloc.rs`): `AllocationPages`, `IsolatedAllocs`.
* **The pool of reusable addresses** (`src/alloc_addresses/reuse_pool.rs`): `ReusePools`.
* **The choice of the next thread** (`src/concurrency/scheduler.rs`): `Schedulers`.

`Wrappers`, `Actions` and `PowersOfTwo` hold what several of these share. `dafny verify dfyconfig.toml`
checks everything.

## Reading the detector's theorems

A trace is a list of actions (`Actions.Action`). It is well formed when the interpreter could produce
it: only running threads act, joins wait for termination, names are fresh. The detector starts in the
state of `GlobalState::new`, before a second thread exists, and its model contains both the reuse of
vector indices and the test that would switch detection off; `Runs.GuardsNeverPass` shows that neither
can ever succeed. The header comment of the source describes index reuse as if it happened.

The exactness theorems hold for every well-formed trace, with weak-memory emulation off. A check
compares with the thread's clock before the access itself acquires anything; only the write half of a
read-modify-write is checked after its read half has acquired. `RaceDefinition.OrderedAtCheck` states
this order, and `RaceTheorems.ReportsExactly` is exact for it: an access is reported if and only if it
races, or clashes in size. The latter is the detector's test for atomics of mixed sizes, which the race
definition of the header comment does not mention: another size (or more than one) is on record for the
location, and some atomic access is not ordered although one of the two writes
(`RaceDefinition.SizesClash`, with `RaceDefinition.RecordedSize` saying what is on record).
It never happens while the atomic accesses between two non-atomic writes of a location have one size
(`KeptSizesPass`).

Against happens-before proper nothing is missed (`NoMiss`), and an ordered access is reported if and
only if one of two conditions holds of the cell and the clocks before the access (`FalseAlarmIff`):
`SavedByOwnAcquire`, where the access would be ordered once it has acquired from the location itself,
or `RefusedForSize`, where only the size test objects. `FalseAlarm` and `MixedSizes` give traces where
these happen, so the header's promise of no false positives is not kept there. Happens-before has the
edges that the detector gives it; in particular SC fences are ordered after all earlier SC fences.

`RaceReports.FailureIsBlamed` holds for all clocks and every cell that has not recorded an access of no
bytes (`ReleaseSequences.SizesStaySane`: none does), except for one assertion inside the
message text, which fails exactly when a store hides behind unordered loads of several sizes before the
access; `MixedSizes.MixedLoadsBreakTheMessage` is a run that leads there.

## Model

| member | source | states |
|---|---|---|
| RaceTheorems.ReportsExactly | src/concurrency/data_race.rs:604-695 | after any run without a report, whatever the access sizes, the next access is reported if and only if it races with an earlier access in the order the check uses, or fails the mixed-size test in that order, both declared on the trace alone, with the orderings that release and acquire listed one by one: no miss, no earlier false alarm |
| RaceTheorems.PassesIffRaceFree | src/concurrency/data_race.rs:18-21 | a whole run passes if and only if no access in it races with an earlier one in the order of the checks, or clashes with one in size |
| RaceTheorems.KeptSizesPass | src/concurrency/data_race.rs:471-502 | if the atomic accesses between consecutive non-atomic writes of each location have one size, a run passes if and only if no access in it races |
| RaceTheorems.MessagePassing | src/concurrency/data_race.rs:1500-1572 | whatever pair of a release and an acquire it is, through loads, stores, read-modify-writes, release sequences or fences: an access whose conflicting accesses were all handed over by such a pair passes |
| RaceTheorems.NoMiss | src/concurrency/data_race.rs:18-21 | after any run without a report, every race of the definition (different threads, one non-atomic, one a write, unordered by the declared happens-before) is reported |
| RaceTheorems.FalseAlarmIff | src/concurrency/data_race.rs:504-522 | the exact condition for reporting an access that happens-before does order: its own acquire would cover the last non-atomic write, or only the size test refuses it |
| FalseAlarm.ReportsOrderedLoad | src/concurrency/data_race.rs:15-16 | such a false alarm exists: a well-formed trace whose last acquire load is reported though nothing races; the header comment promises otherwise |
| Verdicts.CellVerdict | src/concurrency/data_race.rs:604-695 | on one cell, for all sizes: an access passes if and only if every conflicting access of the history is seen and, should another size be recorded, every atomic access that matters then; only the write half of a read-modify-write profits from its own acquire |
| Verdicts.OrderedIsSeen | src/concurrency/data_race.rs:18-21 | being ordered at the check, defined by the declared edges, is membership in the event sets |
| RecordedSizes.RunRecords | src/concurrency/data_race.rs:471-502 | after every passing run the size that each cell records is the one that the trace says is on record: reset by non-atomic writes, set by writes and ordered loads, lost by an unordered load of another size |
| Exactness.RunCells | src/concurrency/data_race.rs:265-290 | after every passing run each cell summarises its location's history: the last non-atomic write with its thread, timestamp and type, per thread the latest read, atomic read and atomic write since, and the recorded size or that there were several |
| Exactness.EntriesOnlyRise | src/concurrency/vector_clock.rs:214-236 | in every run, whichever vector entry an access sets, it is not lowered: the assertion on that never fails |
| Exactness.StepCells | src/concurrency/data_race.rs:1574-1640 | what each step of the detector does to the cells, and when it fails |
| Exactness.SlotClosed | src/concurrency/data_race.rs:131-159 | the pasts that clocks stand for are closed under happens-before |
| Exactness.EarlierIsBefore | src/concurrency/data_race.rs:688-694 | in a race-free trace everything at a location is before each later non-atomic write, so the write may drop the vectors |
| CellHistory.SummaryDecides | src/concurrency/data_race.rs:644-662 | comparing one per-thread vector with a clock decides about every access it summarises |
| CellHistory.EpochDecides | src/concurrency/data_race.rs:445-450 | comparing the single write epoch decides about the last non-atomic write |
| FastTrack.EpochCovers | src/concurrency/data_race.rs:688-694 | seeing the last non-atomic write means having seen all accesses that it made the cell forget |
| FastTrack.ReadVerdict | src/concurrency/data_race.rs:640-665 | a non-atomic read passes iff all conflicting accesses are seen |
| FastTrack.WriteVerdict | src/concurrency/data_race.rs:667-695 | a non-atomic write passes iff all conflicting accesses are seen |
| FastTrack.LoadVerdict | src/concurrency/data_race.rs:504-536 | an atomic load passes iff the size test lets it and all conflicting accesses are seen by the clock before its acquire |
| FastTrack.StoreVerdict | src/concurrency/data_race.rs:538-570 | an atomic store passes iff the size test lets it and all conflicting accesses are seen |
| FastTrack.RmwVerdict | src/concurrency/data_race.rs:572-602 | a read-modify-write passes iff the size test lets it, all writes are seen before and all reads after its own acquire |
| FastTrack.SizeVerdict | src/concurrency/data_race.rs:471-502 | the size test asks about every atomic access of the history that the new one would have to be ordered with, including those the cell has forgotten |
| Runs.ClockIsHappensBefore | src/concurrency/data_race.rs:1727-1957 | in every reachable state, in every slot holding a clock: timestamp covered iff the position is in the past that the declared edges give to the slot |
| Runs.EarlyIsEverywhere | src/concurrency/data_race.rs:1729-1793 | what precedes the first thread creation is in every thread's past |
| Runs.OwnTimestampIsPrivate | src/concurrency/data_race.rs:1785-1792 | once two threads exist, no foreign thread, fence, termination, token, location or SC-fence clock has reached a thread's current timestamp |
| Runs.GuardsNeverPass | src/concurrency/data_race.rs:1695-1725 | in no reachable state is a vector index reused or detection switched off again |
| Runs.RunSettles | src/concurrency/data_race.rs:1655-1957 | the clocks-and-sets invariant holds after every passing run |
| ClockRefinement.NoReuse | src/concurrency/data_race.rs:1841-1854 | the reuse test fails because a terminated thread's last timestamp was never released |
| ClockRefinement.NoSwitchOff | src/concurrency/data_race.rs:1799-1825 | the switch-off test fails because it asks the joined thread's clock, not the joiner's |
| ClockSteps.StepSettles | src/concurrency/data_race.rs:1727-1957 | one step of the detector refines one step of the event-set machine |
| ClockSteps.Creates | src/concurrency/data_race.rs:1729-1793 | thread creation refines: the child starts from its creator's past |
| ClockSteps.Terminates | src/concurrency/data_race.rs:1841-1854 | termination refines: the termination clock is the thread's past |
| ClockSteps.Joins | src/concurrency/data_race.rs:1799-1825 | joining refines: the termination clock is acquired |
| ClockSteps.ReleasesClock | src/concurrency/data_race.rs:1943-1957 | handing out the own clock before the increment refines publishing the past |
| ClockSteps.AcquiresClock | src/concurrency/data_race.rs:1934-1938 | acquiring a handed-out clock refines set union |
| ClockSteps.Loads | src/concurrency/data_race.rs:504-536 | loads refine: acquire or pend what the location holds |
| ClockSteps.Stores | src/concurrency/data_race.rs:538-570 | stores refine: overwrite what the location holds |
| ClockSteps.ReadsModifiesWrites | src/concurrency/data_race.rs:572-602 | read-modify-writes refine: acquire, then extend what the location holds |
| ClockSteps.FencesAcquiring | src/concurrency/data_race.rs:1856-1870 | acquire fences refine: what loads left pending enters the past |
| ClockSteps.FencesReleasing | src/concurrency/data_race.rs:1856-1904 | release, acquire-release and SC fences refine, the SC fence through the global fence clock |
| SetsAreHappensBefore.SetsMatch | src/concurrency/data_race.rs:131-159 | for every trace, slot and position: the event set equals the declared past |
| SetsAreHappensBefore.HbOfNew | src/concurrency/data_race.rs:504-602 | what a new position is ordered after, in terms of the declared edges |
| SetsAreHappensBefore.PastIsBefore | src/concurrency/data_race.rs:18-21 | a position in a thread's past happens before the thread's next step |
| HappensBefore.HbTransitive | src/concurrency/data_race.rs:18-21 | the declared happens-before is transitive |
| HappensBefore.HbIsReachability | src/concurrency/data_race.rs:18-21 | the declared happens-before is reachability along declared edges |
| HappensBefore.SyncIsBefore | src/concurrency/data_race.rs:1500-1572 | every release is before every acquire that reads from its release sequence, for every listed ordering of stores, loads, read-modify-writes and fences |
| ClockDomination.RunDominates | src/concurrency/data_race.rs:433-450 | in every reachable state a clock that reached a thread's timestamp of some step covers that thread's whole clock at that step |
| ClockDomination.StepDominates | src/concurrency/data_race.rs:1727-1957 | every step keeps that domination for every clock there is |
| ReleaseSequences.SyncIsReleaseSequence | src/concurrency/data_race.rs:538-602 | after any history the synchronization clock is the least upper bound of what the last plain store and each later read-modify-write published |
| ReleaseSequences.SyncStep | src/concurrency/data_race.rs:552-602 | what each kind of access does to the synchronization clock; non-atomic writes reset it |
| ReleaseSequences.SizesStaySane | src/concurrency/data_race.rs:471-502 | no history of nonempty accesses ever records size zero |
| ShadowCells.SyncEffects | src/concurrency/data_race.rs:504-602 | loads acquire and keep, stores replace, read-modify-writes acquire and extend |
| ShadowCells.LoadEffect | src/concurrency/data_race.rs:471-619 | a load fails iff the size test or the last non-atomic write is against it; it records itself and the size, or that sizes differ |
| ShadowCells.StoreEffect | src/concurrency/data_race.rs:471-638 | a store fails iff the size test, a non-atomic write or a non-atomic read is against it; it records itself and its size |
| ShadowCells.RmwEffect | src/concurrency/data_race.rs:1545-1571 | a read-modify-write in terms of the cell before it: its size test and checks use the clock before acquiring for writes and the one after for reads |
| ShadowCells.AtomicTests | src/concurrency/data_race.rs:471-638 | the three tests that together decide every atomic access |
| VectorClocks.LeqPointwise | src/concurrency/vector_clock.rs:352-372 | the early-exit comparison of canonical clocks is the pointwise order |
| VectorClocks.Extensional | src/concurrency/vector_clock.rs:135-148 | canonical clocks with equal entries are equal |
| VectorClocks.JoinIsLeastUpperBound | src/concurrency/vector_clock.rs:202-211 | join is the least upper bound |
| VectorClocks.SetAtIndex | src/concurrency/vector_clock.rs:214-236 | sets one entry, changes no other, when that does not lower the entry |
| VectorClocks.Increment | src/concurrency/vector_clock.rs:189-197 | raises one entry by one, changes no other |
| RaceReports.FindGtIndexFinds | src/concurrency/data_race.rs:1078-1105 | finds an index where the left clock is larger iff the left clock is not below the right one; the invariant panic is unreachable |
| RaceReports.CascadeBlames | src/concurrency/data_race.rs:1115-1165 | the cascade names an unordered access in every reportable state, and reaches neither unreachable branch nor the read-read panic |
| RaceReports.CascadeOrder | src/concurrency/data_race.rs:1115-1165 | who is blamed when there is a choice: atomic accesses by non-atomic ones, then the last non-atomic write, then non-atomic reads, then sizes; writes before reads, the lowest index first; several sizes are quoted as zero |
| RaceReports.MessageFailsAsBefore | src/concurrency/data_race.rs:369-382 | the message assertion fails after a failed check if and only if the cell and the clock before the access say so |
| RaceReports.FailureIsBlamed | src/concurrency/data_race.rs:1115-1197 | after every failed check, size mismatches and half-done read-modify-writes included: an unordered access is named, except that the message assertion fails iff a store was unordered behind mixed-size loads before the access |
| MixedSizes.MixedLoadsBreakTheMessage | src/concurrency/data_race.rs:369-382 | the message assertion does fail: a well-formed trace without a report whose next load is reported with that assertion failing |
| MixedSizes.RefusedForSizeAlone | src/concurrency/data_race.rs:471-502 | and that load races with nothing: the size test alone refuses it |
| ReportsInRuns.ReportsNameARace | src/concurrency/data_race.rs:1115-1197 | in every run, whatever the sizes: the report gives the type of the reported access and names, by thread and type (of a non-atomic write: which of the four), an earlier access that races with the reported one, or clashes with it in size when a size is quoted, and that was not ordered before it; the quoted size is the one on record; the message assertion fails exactly in the one case |
| MemoryCells.ThreadClockSet.ApplyReleaseFence | src/concurrency/data_race.rs:135-137 | only the release-fence clock changes, to the current clock |
| MemoryCells.ThreadClockSet.ApplyAcquireFence | src/concurrency/data_race.rs:142-144 | joins the pending acquire-fence clock into the clock |
| MemoryCells.ThreadClockSet.JoinWith | src/concurrency/data_race.rs:156-158 | joins another thread's clock into this one |
| MemoryCells.MemoryCellClocks.CheckedAtomic | src/concurrency/data_race.rs:471-502 | updates the atomic metadata in place exactly as the specification says |
| MemoryCells.MemoryCellClocks.ReadDetect | src/concurrency/data_race.rs:606-619 | the atomic read check in place, tied to the specification the verdicts are about |
| MemoryCells.MemoryCellClocks.WriteDetect | src/concurrency/data_race.rs:621-638 | the atomic write check in place |
| MemoryCells.MemoryCellClocks.LoadAcquire | src/concurrency/data_race.rs:507-519 | acquire load: check, then join into the thread's clock |
| MemoryCells.MemoryCellClocks.LoadRelaxed | src/concurrency/data_race.rs:524-536 | relaxed load: check, then join into the pending clock |
| MemoryCells.MemoryCellClocks.StoreRelease | src/concurrency/data_race.rs:540-550 | release store in place |
| MemoryCells.MemoryCellClocks.StoreRelaxed | src/concurrency/data_race.rs:554-570 | relaxed store in place |
| MemoryCells.MemoryCellClocks.RmwRelease | src/concurrency/data_race.rs:574-586 | release write half in place |
| MemoryCells.MemoryCellClocks.RmwRelaxed | src/concurrency/data_race.rs:590-602 | relaxed write half in place |
| MemoryCells.MemoryCellClocks.Rmw | src/concurrency/data_race.rs:1545-1571 | both halves; a failing second half leaves the first half's changes |
| MemoryCells.MemoryCellClocks.NonAtomicReadDetect | src/concurrency/data_race.rs:640-665 | the non-atomic read check in place |
| MemoryCells.MemoryCellClocks.NonAtomicWriteDetect | src/concurrency/data_race.rs:667-695 | the non-atomic write check in place, forgetting reads and atomics |
| GlobalStates.GlobalState.constructor | src/concurrency/data_race.rs:1658-1683 | the initial global state |
| GlobalStates.GlobalState.ThreadCreatedHook | src/concurrency/data_race.rs:1729-1793 | creation in place equals the detector's step, for any choice among reusable indices |
| GlobalStates.ReuseHandsOver | src/concurrency/data_race.rs:1747-1763 | a reused index would pass to the new thread, its last owner keeping the termination clock but no index |
| GlobalStates.ReuseSynchronizes | src/concurrency/data_race.rs:1747-1792 | a reused index's clock would move on, be joined with the creator's, and both would move on |
| GlobalStates.GlobalState.FindVectorIndexReuseCandidate | src/concurrency/data_race.rs:1697-1725 | takes out some candidate that every index which is no candidate has caught up with, or nothing if there is none |
| GlobalStates.GlobalState.ThreadJoinedHook | src/concurrency/data_race.rs:1799-1825 | joining in place equals the detector's step; detection goes off exactly when one thread is left and the joined thread's index has seen every last timestamp |
| GlobalStates.GlobalState.ThreadTerminatedHook | src/concurrency/data_race.rs:1841-1854 | termination in place equals the detector's step |
| GlobalStates.GlobalState.AtomicFenceHook | src/concurrency/data_race.rs:1856-1904 | fences in place equal the detector's step |
| GlobalStates.GlobalState.ReleaseClock | src/concurrency/data_race.rs:1943-1957 | hands out the clock before moving on |
| GlobalStates.GlobalState.AcquireClock | src/concurrency/data_race.rs:1934-1938 | joins a clock into the active thread's |
| GlobalStates.GlobalState.ValidateAtomicLoad | src/concurrency/data_race.rs:1500-1640 | an atomic load in place equals the detector's step on its cell, the increment after success included; nothing happens before the second thread exists |
| GlobalStates.GlobalState.ValidateAtomicStore | src/concurrency/data_race.rs:1523-1541 | an atomic store in place equals the detector's step on its cell |
| GlobalStates.GlobalState.ValidateAtomicRmw | src/concurrency/data_race.rs:1545-1571 | both halves in place equal the detector's step on the cell |
| GlobalStates.ReachableIsWellIndexed | src/concurrency/data_race.rs:1959-1985 | the index lookups of the hooks succeed in every reachable state |
| BlockDetection.VClockAlloc.constructor | src/concurrency/data_race.rs:1030-1074 | kind by kind: every byte of new user or stack memory starts with a write by the allocating thread at its timestamp, every byte of other memory with one at time zero by the main thread |
| BlockDetection.NewByteVerdict | src/concurrency/data_race.rs:1038-1066 | the first access to a new byte of user or stack memory, of whatever kind, passes iff its thread has seen the allocation; allocating other memory never makes an access fail |
| BlockDetection.NewRangeVerdict | src/concurrency/data_race.rs:1038-1074 | so a range of new memory is refused at its first byte, or passes whole |
| BlockDetection.AllocatesByte | src/concurrency/data_race.rs:1038-1074 | allocating byte by byte in the detector gives the cells of a new allocation of that kind |
| BlockDetection.VClockAlloc.ReadNonAtomic | src/concurrency/data_race.rs:1219-1260 | checking the blocks of a range equals checking its bytes one by one: verdict, first failing byte, and resulting array |
| BlockDetection.VClockAlloc.WriteNonAtomic | src/concurrency/data_race.rs:1269-1309 | the same for writes |
| BlockDetection.RangeReadIsByteSteps | src/concurrency/data_race.rs:1219-1260 | byte-wise reading is a series of detector steps, which stops at the first failing byte and has changed exactly the bytes before it |
| BlockDetection.RangeWriteIsByteSteps | src/concurrency/data_race.rs:1269-1309 | the same for byte-wise writing |
| BlockDetection.BlocksAgreeWithSteps | src/concurrency/data_race.rs:1235-1258 | so the block-wise check and the detector's byte steps have the same verdict, fail at the same byte, and leave the same bytes in the whole allocation |
| LocalClocks.FrameState.LocalWrite | src/concurrency/data_race.rs:1337-1365 | records a write, or a local going live, without a cell |
| LocalClocks.FrameState.LocalRead | src/concurrency/data_race.rs:1367-1384 | records a read without a cell |
| LocalClocks.FrameState.LocalMovedToMemory | src/concurrency/data_race.rs:1386-1410 | gives all bytes of the local's allocation its deferred clocks, and forgets them |
| LocalClocks.DeferredIsInMemory | src/concurrency/data_race.rs:1320-1410 | a local used by its owner from a recorded write on would have passed every check in memory, and its cell differs at most in a stale read stamp not after the last write |
| LocalClocks.AlikeForever | src/concurrency/data_race.rs:640-695 | states whose cells differ so give the same verdicts for every continuation by any threads |
| LocalClocks.DeferringIsInvisible | src/concurrency/data_race.rs:1336-1411 | deferring such a local's clocks changes no later verdict |
| BackdatedLocals.BackdatedIsInMemory | src/concurrency/data_race.rs:1361-1381 | a local first written while detection was off: its backdated clocks describe the cell it would have in memory, but for a write stamp that everyone has seen |
| BackdatedLocals.CloseForever | src/concurrency/data_race.rs:604-695 | states whose cells differ so give the same verdicts for every continuation |
| BackdatedLocals.BackdatingIsInvisible | src/concurrency/data_race.rs:1386-1410 | backdating changes no later verdict once every thread has seen the allocation |
| BackdatedLocals.EarlyIsKnown | src/concurrency/data_race.rs:1729-1793 | and in every run every thread has seen what came before the first thread creation |
| DedupRangeMaps.DedupRangeMap.constructor | src/data_structures/dedup_range_map.rs:32-36 | a map of one block, or none if empty |
| DedupRangeMaps.DedupRangeMap.Size | src/data_structures/dedup_range_map.rs:38-41 | the size is the length of the denoted array |
| DedupRangeMaps.DedupRangeMap.FindOffset | src/data_structures/dedup_range_map.rs:44-60 | binary search finds the block containing an offset |
| DedupRangeMaps.DedupRangeMap.Lookup | src/data_structures/dedup_range_map.rs:44-60 | that block holds the offset's data |
| DedupRangeMaps.DedupRangeMap.Iter | src/data_structures/dedup_range_map.rs:69-89 | yields exactly the adjoining blocks that overlap the range |
| DedupRangeMaps.DedupRangeMap.SplitIndex | src/data_structures/dedup_range_map.rs:109-130 | splits a block without changing the denoted array; does nothing at its edges |
| DedupRangeMaps.DedupRangeMap.ScanAndMerge | src/data_structures/dedup_range_map.rs:166-217 | the scan of iter_mut: keeps the denoted array, finds the block reaching the end, and merges at least the first three runs of equal blocks |
| DedupRangeMaps.DedupRangeMap.IterMut | src/data_structures/dedup_range_map.rs:141-227 | same denoted array, still a gap-free tiling, at most two more blocks, the yielded blocks cover exactly the range, and the first three of them differ from their successors |
| DedupRangeMaps.DedupRangeMap.MergeAdjacentThorough | src/data_structures/dedup_range_map.rs:230-245 | same denoted array, no equal neighbours |
| RangeMaps.Overwrite | src/data_structures/dedup_range_map.rs:141-227 | new data in yielded blocks changes exactly their offsets |
| RangeMaps.CanonicalUnique | src/data_structures/dedup_range_map.rs:230-245 | maps without equal neighbours that denote the same array are equal |
| RangeMaps.CanonicalShortest | src/data_structures/dedup_range_map.rs:230-245 | and as short as any map that denotes it |
| RangeMaps.CanonicalDecides | src/data_structures/dedup_range_map.rs:230-245 | so merged forms of one size are equal iff they denote the same array |
| SquareRoots.TryBit | src/math.rs:423-448 | one iteration keeps the remainder equation and both bounds of the root |
| SquareRoots.StaysRooting | src/math.rs:409-448 | after every iteration: rem * d is what is left, and the root is the largest on the bits tried |
| SquareRoots.StaysSmall | src/math.rs:409-448 | every intermediate value stays below four bits more than the precision |
| SquareRoots.RootMantissaIsNearest | src/math.rs:450-454 | the rounded root has exactly prec + 1 bits and is the nearest integer, never by a tie |
| SquareRoots.SqrtMantissa | src/math.rs:409-454 | the loop in bounded unsigned arithmetic computes that root without overflow or lost bits |
| SoftFloats.Sqrt | src/math.rs:380-459 | all categories: zeros and NaNs unchanged, negatives NaN, infinity infinite, normal numbers rooted with a normal result |
| SoftFloats.CorrectlyRounded | src/math.rs:389-457 | the result is nearer to the real square root than any other number of the precision, at any exponent |
| CommandLines.WriteBody | src/eval.rs:713-735 | the nested loops write the escaped inside of a quoted argument |
| CommandLines.CommandString | src/eval.rs:674-745 | the whole line with its NUL, and when it panics |
| CommandLines.NulsShow | src/eval.rs:741-743 | the interior-NUL panic happens iff some argument contains a NUL |
| CommandLines.PlainStaysBare | src/eval.rs:696-712 | an argument is written as it stands iff it is nonempty and has no quote, space or tab; any other stands in quotes |
| CommandLines.BlanksStayBare | src/eval.rs:704-736 | in quotes, what has no quote and does not end in a backslash is written as it stands |
| CommandLines.LineGrows | src/eval.rs:690-698 | the line is the program name, always in quotes, and one space before each further argument |
| CommandLines.ParseBody | src/eval.rs:704-736 | reading the escaped inside of quotes gives back the argument, for all runs of backslashes |
| CommandLines.ParsePlain | src/eval.rs:700-702 | an unquoted argument is read as it stands |
| CommandLines.ParseProgramName | src/eval.rs:679-695 | the quoted program name is read as it stands, backslashes included |
| CommandLines.ParsesBack | src/eval.rs:664-745 | parsing the line by Microsoft's rules gives back the argument list |
| CommandLines.Injective | src/eval.rs:664-745 | no two argument lists have the same line |
| AllocationPages.NormalizedLayout | src/alloc/isolated_alloc.rs:53-58 | the size is the first multiple of four from the wanted one on, the alignment at least four |
| AllocationPages.NormalizedIsLeast | src/alloc/isolated_alloc.rs:50-58 | the normalized layout is the least that can stand for the wanted one: no smaller size, and its alignment divides that of every other |
| AllocationPages.SlackSuffices | src/alloc/isolated_alloc.rs:63-80 | n - 1 extra pages always leave room for the block after aligning its address |
| AllocationPages.SlackIsLeast | src/alloc/isolated_alloc.rs:70-80 | and fewer pages would not: some page-aligned address would leave too little |
| AllocationPages.HugeBytes | src/alloc/isolated_alloc.rs:63-80 | a huge block maps its own pages and, if aligned beyond a page, its alignment less one page |
| AllocationPages.FreshPageHasRoom | src/alloc/isolated_alloc.rs:127-134 | a request that is not huge fits a fresh page |
| AllocationPages.PlaceOnPage | src/alloc/isolated_alloc.rs:142-177 | an aligned offset with free bits is an aligned block inside the page |
| AllocationPages.RoomIsFree | src/alloc/isolated_alloc.rs:150-159 | an offset is taken for room iff it is aligned and the bytes from there on are on the page and overlap no live block |
| AllocationPages.PageGains | src/alloc/isolated_alloc.rs:158-172 | setting the bits keeps the page exact: set bits are the disjoint union of the live blocks |
| AllocationPages.PageLoses | src/alloc/isolated_alloc.rs:275-283 | clearing the bits keeps the page exact |
| AllocationPages.NoBitsNoBlocks | src/alloc/isolated_alloc.rs:247-256 | a page has no set bit iff it has no live block |
| IsolatedAllocs.IsolatedAlloc.FindRoom | src/alloc/isolated_alloc.rs:152-176 | the first aligned free run, or nothing iff there is none |
| IsolatedAllocs.IsolatedAlloc.AllocSmall | src/alloc/isolated_alloc.rs:142-177 | takes the lowest room of a page; fails iff the page has none |
| IsolatedAllocs.IsolatedAlloc.AddPage | src/alloc/isolated_alloc.rs:180-199 | adds an empty page |
| IsolatedAllocs.IsolatedAlloc.AllocHuge | src/alloc/isolated_alloc.rs:205-224 | maps a region of its own and returns the first aligned block in it |
| IsolatedAllocs.IsolatedAlloc.Allocate | src/alloc/isolated_alloc.rs:110-136 | adds exactly one live block: from half a page in size, or beyond half a page in alignment, in a mapping of exactly the pages and slack needed; else at the lowest room of the first page with any, and on a new page iff no held page has room; the final unwrap cannot fail |
| IsolatedAllocs.IsolatedAlloc.AllocatedIsUsable | src/alloc/isolated_alloc.rs:93-104 | the returned memory is aligned as asked and apart from every other live block |
| IsolatedAllocs.IsolatedAlloc.LiveIsSafe | src/alloc/isolated_alloc.rs:10-31 | live blocks are aligned, pairwise disjoint, and inside held memory |
| IsolatedAllocs.IsolatedAlloc.NothingLeaks | src/alloc/isolated_alloc.rs:231-258 | memory is held only for live blocks; all lists are empty once everything is freed |
| IsolatedAllocs.IsolatedAlloc.DeallocSmall | src/alloc/isolated_alloc.rs:263-286 | finds the block's page by address and frees exactly its bits |
| IsolatedAllocs.IsolatedAlloc.DeallocHuge | src/alloc/isolated_alloc.rs:288-306 | finds the one region holding the block; the recorded size matches |
| IsolatedAllocs.IsolatedAlloc.Dealloc | src/alloc/isolated_alloc.rs:231-258 | removes exactly the freed block, and gives back a page with nothing live on it |
| ReusePools.ReusePool.Subpool | src/alloc_addresses/reuse_pool.rs:50-56 | the subpool of an alignment, created if missing |
| ReusePools.ReusePool.AddAddr | src/alloc_addresses/reuse_pool.rs:58-88 | inserts before the first entry not before it in size and thread, or when there are 64 replaces that entry, or the last; other subpools stay, and every subpool stays sorted, aligned and at most 64 long |
| ReusePools.ReusePool.TakeAddr | src/alloc_addresses/reuse_pool.rs:91-137 | removes one entry of the wanted size and alignment, of another thread only if allowed, and returns its address, with its clock exactly if it is another thread's; returns nothing iff there is no such entry |
| ReusePools.InsertedOk | src/alloc_addresses/reuse_pool.rs:76-87 | insertion at the partition point, or replacement there when full, keeps the order and the bound |
| ReusePools.InsertedInPlace | src/alloc_addresses/reuse_pool.rs:76-87 | where the new entry goes, and which entry a full subpool gives up for it; every other one keeps its place |
| ReusePools.RangeIsEligible | src/alloc_addresses/reuse_pool.rs:109-124 | the range from begin to end is exactly the eligible entries |
| ReusePools.TakeIsSound | src/alloc_addresses/reuse_pool.rs:125-134 | a take keeps every subpool sorted, bounded and aligned and touches no other one; what it removes is aligned |
| ReusePools.TakeAnswers | src/alloc_addresses/reuse_pool.rs:109-136 | what comes out answers the request in size, thread and clock, and nothing comes out iff no entry does |
| ReusePools.AnyCanBeTaken | src/alloc_addresses/reuse_pool.rs:129-131 | every entry that answers can be the one drawn |
| ReusePools.NothingTwice | src/alloc_addresses/reuse_pool.rs:58-137 | over every run no donation, with its address, size, thread and clock, is handed out at its alignment, or still stored, more often than it was made |
| ReusePools.TakerGetsDonation | src/alloc_addresses/reuse_pool.rs:42-44 | after every run, whoever takes an address gets one donated with that size and alignment, and with another thread's address exactly the clock it was donated with |
| Schedulers.CandidatesRotate | src/concurrency/scheduler.rs:128-137 | the candidates are the rotated thread list, each thread once, the active one last |
| Schedulers.FirstEnabled | src/concurrency/scheduler.rs:137-141 | the first enabled thread of a list, or none if none is enabled |
| Schedulers.ThreadManager.Schedule | src/concurrency/scheduler.rs:90-157 | keeps a running thread, else picks the first (or the chosen) enabled candidate, and ends the yield |
| Schedulers.PickAdvances | src/concurrency/scheduler.rs:128-141 | every pick is the waiting thread or strictly lessens its cyclic distance |
| Schedulers.PickedInTime | src/concurrency/scheduler.rs:128-132 | a thread that stays enabled is picked within n picks, even while threads are added |

## Left out

- Timestamps and sizes are unbounded: the panic on overflow of a 32-bit vector clock, and address and size overflow in the allocator, are not modelled.
- Spans, read types, type names, thread names and the explanation of retags: they only feed message texts.
- Weak-memory emulation: an atomic load always reads the location's own synchronization clock, and the clocks of SC reads and writes are dropped.
- Atomic operations that cover several shadow blocks: the theorems about runs have one cell per atomic access.
- DedupRangeMaps.DedupRangeMap.ScanAndMerge: how many more runs it merges after the first three, as successes extend its budget, is in its body but not in its contract.
- The exemption of CPU-local allocations and the switch that lets internal accesses race: plain filters before the checks.
- VectorClocks.SetAtIndex: where the original asserts that an entry never decreases, the model leaves the clock as it is; `Exactness.EntriesOnlyRise` shows that no run gets there.
- VectorClocks.LeqPointwise: covers the less-or-equal comparison; the strict and partial comparisons of vector clocks are not used by the detector.
- DedupRangeMaps.DedupRangeMap.IterMut: returns the index range of the blocks it yields; handing out references into the map is left to the callers, which assign to the blocks.
- LocalClocks.DeferringIsInvisible: its history starts with a recorded write; a local first written while detection was off is the subject of `BackdatedLocals.BackdatingIsInvisible`.
- SoftFloats.Sqrt: subnormal numbers are taken normalised, as the original makes them before the loop; the sign and payload of a new NaN are not modelled.
- SquareRoots.SqrtMantissa: the width of the unsigned type is a parameter; with 128 bits it covers every precision up to 124 fraction bits.
- CommandLines.CommandString: works on characters; the final encoding to UTF-16 is not part of this model, and panics are results.
- IsolatedAllocs.IsolatedAlloc.Allocate: mapping memory is an oracle that returns a page-aligned region apart from all held ones; failure of mmap, unmapping and zeroing of bytes are left out, and sizes are nonzero.
- ReusePools.ReusePool.AddAddr: the random decision whether to remember an address is a parameter, like every random decision here.
- Schedulers.ThreadManager.Schedule: deadlines, host I/O, GenMC, the debugger and `schedule_switch_thread_and_cpu` are not part of this model; which threads are enabled is given.
- The rest of `src/math.rs` (host floats, random error, clamping) and the address map in `src/alloc_addresses/mod.rs`.
- Borrow tracking, diagnostics, the user interface and cargo-miri.
