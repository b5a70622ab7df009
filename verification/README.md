# A Dafny model of parts of asupersync

The project models, and proves correct, the hardest self-contained algorithms and protocols of
the repository:

- the hierarchical **timer wheel** of the runtime: four levels of 256 slots with their occupancy
  bitmaps, cascades, the overflow heap, skipped ticks and coalescing (`WheelClock`, `WheelBitmap`,
  `WheelStorage`, `WheelTurn`, `WheelReach`, `WheelAdvance`, `WheelDeadline`, `WheelDrain`,
  `WheelOrder`, `WheelCopies`, `WheelCoalesce`, `WheelGroup`, `WheelRuns`, `WheelRanges`,
  `WheelBook`, `TimerWheel`), and the three reference stores its benchmark compares with (`TimerSpec`,
  `TimerStores`, `BTreeTimers`, `TimerRuns`);
- the **WebSocket frame codec**, an incremental decoder over a growing buffer (`WsBytes`, `WsUtf8`,
  `WsWire`, `WsFrame`, `WsStream`, `WsRoundTrip`, `WsTraffic`);
- **persistent homology** of square complexes over GF(2): building the complex, the boundary matrix,
  column reduction, and what the pairs mean (`Gf2`, `SquareComplex`, `ComplexBuilder`, `Persistence`,
  `Homology`, `HomologyBasis`, `Components`, `Grid`, `DiamondChain`, `LatticeHomology`);
- the **drop-oldest queue** of the OTLP exporter under every interleaving of its atomic accesses
  (`OtlpQueue`, `OtlpMachine`, `OtlpRuns`, `OtlpLoss`);
- the **producer/consumer protocol** over the scheduler's global queue, safety and termination
  (`Mpmc`, `MpmcLiveness`);
- the **rejection loops** driven by a wrapping linear congruential generator, whose termination rests
  on the generator's full period (`Lcg`, `LossPlacement`, `DecodeReceived`);
- three small ones: line-end scanners (`CrlfScan`), owner switches of generated traces
  (`OwnerSwitches`) and the freshness receipt (`ClaimReceipt`).

`Arithmetic`, `Counting`, `Iteration`, `Minimum`, `Sorting` and `Wrappers` hold what the others share.
`dafny verify dfyconfig.toml` checks the whole project.

Objects whose methods update their fields are classes here; loops are loops with invariants, proved
against specification functions; concurrent code is a transition system with one step per atomic
access, and its theorems quantify over all schedules.

Where code and documentation disagree the code is modelled:

- `src/time/wheel.rs` says a timer goes to the coarsest level that can represent it; the code takes
  the finest whose span covers it.
- `next_deadline` is documented as the earliest pending deadline. The scan stops at the first level
  that holds a live timer, and a coarser level can hold an earlier one. `ReportsEarliestIff` says
  for which configurations the documentation is right, and `EarlierWhere` for all of them where a
  timer can be that is earlier than the one reported.
- With coalescing `next_deadline` means to keep callers from sleeping past the moment at which a
  group may fire. It looks at the current window only; `ImmediateIff` says what it does achieve and
  `SleepsPastIff` exactly when a group may fire before the deadline reported.
- A wheel range under one tick can leave due timers in the overflow. A range and a longest timer both
  beyond the span of the levels can make the refill loop go round for ever. `CollectsAllIff` and
  `RefillCirclesIff` say exactly for which configurations.
- `len` of the lock-free queue can read as a huge number, and an enqueue can lose its item while
  answering that nothing was dropped; `EmptyReadsHugeIff` and `SilentLossIff` say that two threads
  are what it takes, and `QuietRun` what holds regardless.
- `cancel` of the ordered-map timer store drops the newest waker at the deadline, not the cancelled
  one; `CancelFaithfulIff` and `CancelExpiredIff` say when that is harmless, and `FaithfulRunIff` that
  nothing else goes wrong on any run.

## Model

| member | source | states |
|---|---|---|
| `TimerWheel.TimerWheel.CollectExpired` | src/time/wheel.rs:632-636 | after any history of calls and for every `now`: only live timers due by the cutoff fire, each once, and exactly those leave the book of live timers; all of them do for every configuration for which `CollectsAllIff` says that they can; the cutoff is `now`, or with coalescing the least multiple of the window after `now` if at least one timer and at least the minimum group are due by then |
| `TimerWheel.TimerWheel.Synchronize` | src/time/wheel.rs:476-481 | moves the clock up to `now`, never back, loses or fires no timer, and leaves the wheel as turning it tick by tick would; for every configuration under which the refill loop ends |
| `TimerWheel.TimerWheel.InsertValidated` | src/time/wheel.rs:524-541 | adds one timer under a vacant id with a fresh generation and disturbs no other |
| `TimerWheel.TimerWheel.Register` | src/time/wheel.rs:489-498 | a deadline more than the maximum duration ahead is clamped to it, any other is kept |
| `TimerWheel.TimerWheel.TryRegister` | src/time/wheel.rs:504-520 | refuses exactly the deadlines more than the maximum duration ahead, and then changes nothing |
| `TimerWheel.TimerWheel.Cancel` | src/time/wheel.rs:551-566 | succeeds exactly for the id and generation of a live timer and removes that timer only |
| `TimerWheel.TimerWheel.NextDeadline` | src/time/wheel.rs:570-629 | with coalescing the current time is reported if and only if a collection now would fire something; otherwise the first pending timer in the order ready list, levels from the finest up with timers a full turn ahead first, overflow, and by deadline within each; that is the earliest pending deadline (or the current time once it has passed) for the configurations that `ReportsEarliestIff` names, and for any while all timers are on one level and none is a full turn ahead |
| `TimerWheel.TimerWheel.GroupSizeAt` | src/time/wheel.rs:952-1025 | the number of timers that a collection at that time fires |
| `TimerWheel.TimerWheel.DrainAt` | src/time/wheel.rs:874-946 | for any configuration: only timers due by the cutoff fire, each once, and exactly those leave the book |
| `TimerWheel.TimerWheel.Len` | src/time/wheel.rs:442-444 | the number of live timers |
| `TimerWheel.TimerWheel.constructor` | src/time/wheel.rs:403-427 | an empty wheel with its hands at the given time, for any configuration |
| `WheelRanges.ReportsEarliestIff` | src/time/wheel.rs:568-629 | without coalescing, after every run the earliest pending deadline is reported if and only if the range is at most 256 ms or the longest timer shorter than that, and the range is above zero or the longest timer is zero |
| `WheelRanges.LongRangeOversleeps` | src/time/wheel.rs:570-629 | for every configuration with a longer range and longer timers three calls on a fresh wheel lead to a later deadline being reported although an earlier one is pending one level up |
| `WheelRanges.NoRangeReportsPast` | src/time/wheel.rs:621-627 | with a range of zero and timers ahead two calls on a fresh wheel lead to a deadline in the past being reported |
| `WheelRanges.CollectsAllIff` | src/time/wheel.rs:632-636 | after every run a collection leaves no due timer pending if and only if the range is at least one tick, exceeds the longest timer, no timer is ever ahead, or coalescing is on |
| `WheelRanges.ShortRangeMisses` | src/time/wheel.rs:646-655 | for every other configuration a registration and a collection in the same tick leave a due timer pending |
| `WheelRanges.RefillCirclesIff` | src/time/wheel.rs:804-818 | some timer that registration lets in makes one round of the refill loop, at the first tick, leave the storage as it was and go on, if and only if the range exceeds the span of the four levels and the longest timer reaches a tick beyond it |
| `WheelRanges.DueIsReady` | src/time/wheel.rs:750-802 | in every state at rest a stored timer that is due is on the ready list, if what is less than a tick away is never in the overflow |
| `WheelRanges.PastIsReady` | src/time/wheel.rs:750-818 | in every state at rest a stored timer whose deadline is past by the wheel's clock is on the ready list, for every range but zero |
| `WheelRuns.RunFit` | src/time/wheel.rs:476-946 | after every run of operations in any order each entry is where its level, slot and range say, and none is further ahead than the longest timer |
| `WheelReach.PlaceInReach` | src/time/wheel.rs:638-683 | an entry no further ahead than the longest timer goes to the same place under the configured range as under its reach, which ends at the span of the levels and just past the longest timer |
| `WheelReach.TurnInReach` | src/time/wheel.rs:750-788 | so does a whole turn of the wheel |
| `WheelReach.ReleasedAlike` | src/time/wheel.rs:804-818 | and after a tick an overflow entry is released under the one if and only if it is under the other, unless both limits go beyond the span |
| `WheelBook.CollectedSound` | src/time/wheel.rs:874-946 | a collection keeps all invariants, and on the book it removes exactly what it fires |
| `WheelBook.CollectedInOrder` | src/time/wheel.rs:911-936 | a collection fires the live entries due by the cutoff in the order they were gathered, the ready list first |
| `WheelBook.CutoffBooked` | src/time/wheel.rs:881-909 | the entries gathered and counted by the code are the timers of the book that are due by the end of the window, each once |
| `WheelBook.BookCutoffRule` | src/time/wheel.rs:881-909 | what the cutoff is, without naming how it is computed: now without a window; with one, the least multiple of the window after now if at least one timer and at least the minimum group are due by then, else now |
| `WheelCoalesce.Boundary` | src/time/wheel.rs:890-898 | the end of a window is the least multiple of the window after the time |
| `WheelBook.GroupSizeBooked` | src/time/wheel.rs:952-1025 | `coalescing_group_size` is the number of timers of the book due by the cutoff of a collection |
| `WheelBook.ImmediateIff` | src/time/wheel.rs:570-581 | with coalescing, the current time is reported if and only if a collection at that time would fire something |
| `WheelBook.SleepsPastIff` | src/time/wheel.rs:573-579 | with coalescing, a collection before the earliest deadline would already fire something if and only if at least the minimum group is due by the end of the window just before that deadline |
| `WheelGroup.DrainReady` | src/time/wheel.rs:874-946 | takes the window entries out, counts the live ones and drains up to the cutoff, as the specification function does |
| `WheelGroup.DrainedInReach` | src/time/wheel.rs:874-946 | a collection under any range is one under the reach, and keeps everything in order |
| `WheelGroup.CoalescingGroupSize` | src/time/wheel.rs:952-1025 | counting over the ready list, the slots the window reaches and the overflow is counting what a collection would gather |
| `WheelGroup.GatheredAll` | src/time/wheel.rs:820-872 | with a window nothing due by its end is left behind in any level or in the overflow |
| `WheelCoalesce.PromoteWindow` | src/time/wheel.rs:820-872 | the scan of the slots and the heap takes out what the specification function takes out, in the same order |
| `WheelCoalesce.PromoteExactly` | src/time/wheel.rs:820-872 | exactly the entries due by the boundary are taken out |
| `WheelCoalesce.PromoteCopies` | src/time/wheel.rs:820-872 | no entry is lost or doubled on the way |
| `WheelCoalesce.PromoteAtRest` | src/time/wheel.rs:820-872 | what stays is still in order |
| `WheelCopies.TicksCopies` | src/time/wheel.rs:685-818 | however far the wheel turns, no entry is stored more often than before |
| `WheelCopies.DrainCopies` | src/time/wheel.rs:915-936 | nor by draining |
| `WheelDrain.DrainList` | src/time/wheel.rs:915-936 | fires the live due entries in order, keeps the live others, drops the dead |
| `WheelDrain.DrainStored` | src/time/wheel.rs:915-936 | what is stored after draining was stored before or was listed and not due |
| `WheelDeadline.ShortRangeReports` | src/time/wheel.rs:570-629 | with a range above zero and up to 256 ms the scan order finds the earliest pending deadline in every state at rest |
| `WheelDeadline.ReportedPending` | src/time/wheel.rs:583-629 | for any range, what is reported is the deadline of a pending timer, or the current time if one has passed |
| `WheelOrder.ReportedFirst` | src/time/wheel.rs:583-629 | for any range and in every state at rest the report is the first pending timer in that order |
| `WheelOrder.EarlierWhere` | src/time/wheel.rs:583-629 | for any range, if a time after now is reported it is a pending timer's deadline, and every pending timer with an earlier one is on a coarser level, or on the same level while the reported one is a full turn ahead of the hand |
| `WheelOrder.OneLevelEarliest` | src/time/wheel.rs:599-619 | with all pending timers on one level and none a full turn ahead the earliest is reported |
| `WheelOrder.ReadyEarliest` | src/time/wheel.rs:583-597 | and so it is, for any range, while a live timer is on the ready list |
| `WheelAdvance.AdvanceTo` | src/time/wheel.rs:685-704 | jumping from one busy tick to the next leaves exactly the storage that turning the wheel one tick at a time leaves, also when the range goes beyond the levels |
| `WheelAdvance.TurnAlike` | src/time/wheel.rs:750-818 | one tick under the configured range is one under the reach, up to the refill |
| `WheelAdvance.TicksInReach` | src/time/wheel.rs:685-704 | however many ticks pass, no entry is further ahead than the longest timer |
| `WheelAdvance.QuietTicks` | src/time/wheel.rs:685-704 | a stretch of ticks at which no slot is reached and no overflow entry comes into range is one jump with realigned cursors |
| `WheelAdvance.TicksKeep` | src/time/wheel.rs:685-818 | however many ticks pass, every entry is where it fits and no live one is lost |
| `WheelAdvance.NextSkipTick` | src/time/wheel.rs:706-741 | no slot is reached and no overflow entry comes into range before the returned tick; unless it is the limit, a slot is reached at it or an overflow entry can be within range one tick later |
| `WheelAdvance.JumpAtRest` | src/time/wheel.rs:743-748 | jumping to just before that tick and realigning the cursors keeps everything in order |
| `WheelBitmap.NextOccupiedDistance` | src/time/wheel.rs:328-363 | the word-wise search finds the first set bit after the cursor, once around, if there is one |
| `WheelBitmap.SetIsSet` | src/time/wheel.rs:308-318 | setting a bit changes that bit only |
| `WheelBitmap.ClearIsSet` | src/time/wheel.rs:320-324 | clearing a bit changes that bit only |
| `WheelTurn.TurnKeeps` | src/time/wheel.rs:750-788 | one tick turns every level whose hand moves, leaves every entry where it fits and loses no live one |
| `WheelTurn.TickLevel0` | src/time/wheel.rs:750-764 | the slot reached is collected and the levels above are turned when the hand is back at slot zero, which is the specified turn |
| `WheelTurn.Cascade` | src/time/wheel.rs:766-788 | turning level k, and the levels above it when its hand is back at slot zero, is the specified turn |
| `WheelTurn.CollectBucket` | src/time/wheel.rs:790-802 | making due entries ready and reinserting the others is reinserting all of them |
| `WheelTurn.PutBackStored` | src/time/wheel.rs:766-802 | the live entries of an emptied slot, and no others, are stored again |
| `WheelTurn.RefillKeeps` | src/time/wheel.rs:804-818 | after a refill nothing in the overflow is within range, everything is in order and no live entry is lost |
| `WheelTurn.RefillOverflow` | src/time/wheel.rs:804-818 | the loop terminates and does the specified refill, whenever the range treats the overflow as some range within the span does |
| `WheelStorage.InsertEntry` | src/time/wheel.rs:638-683 | puts an entry on the finest level whose span covers it, in the slot the hand reaches when it falls due, and marks the slot |
| `WheelStorage.InsertAtRest` | src/time/wheel.rs:638-683 | wherever it is put, everything is in order as before |
| `WheelStorage.PlaceSuits` | src/time/wheel.rs:638-683 | wherever an entry is put it is ready, out of range, or between one slot and one turn ahead of the hand |
| `WheelClock.FitsDue` | src/time/wheel.rs:766-788 | the entries of the slot a hand moves to fall due before that hand moves again |
| `WheelClock.FitsJump` | src/time/wheel.rs:685-704 | an entry still fits its slot after a jump to before the tick of the slot |
| `Lcg.LowBitsPeriod` | benches/raptorq_large_k_profile.rs:119-126 | for a multiplier 1 mod 4 and an odd increment, draws i and j agree in their low m bits if and only if i and j agree modulo 2^m, for every m up to 64 and every seed |
| `Lcg.PowerOfTwoSteps` | benches/raptorq_large_k_profile.rs:119-126 | 2^m steps leave the low m bits alone and flip bit m |
| `Lcg.ReachesWord` | benches/raptorq_large_k_profile.rs:119-126 | from any 64-bit state every 64-bit state is reached |
| `LossPlacement.PlacementHaltsIff` | benches/raptorq_large_k_profile.rs:118-126 | for every seed the loop reaches the loss count if and only if it is at most k |
| `LossPlacement.EveryIndexDrawn` | benches/raptorq_large_k_profile.rs:119-126 | every index below k is drawn within 2^64 draws |
| `LossPlacement.TakenIff` | benches/raptorq_large_k_profile.rs:119-126 | the indices taken are those of the states after 1, 2, ..., n steps, reduced modulo k |
| `LossPlacement.NoRepeatsModPow2` | benches/raptorq_large_k_profile.rs:119-126 | modulo 2^m the first 2^m draws are pairwise distinct |
| `LossPlacement.PowerOfTwoNeverRejects` | benches/raptorq_large_k_profile.rs:119-126 | when k is a power of two the number of draws equals the number of losses |
| `LossPlacement.CreateScatteredLossPattern` | benches/raptorq_large_k_profile.rs:112-128 | terminates for every seed with exactly the requested number of slots lost, namely those of the draws up to the last new one; no draw is wasted when k is a power of two |
| `LossPlacement.PlaceLosses` | benches/raptorq_blocked_elimination_bench.rs:33-45 | the same placement for any full-period generator and any starting state |
| `DecodeReceived.ComputeDropIndices` | benches/raptorq_benchmark.rs:1481-1509 | min(rounded, k) strictly increasing indices below k: a prefix, the first odd ones, or all odd ones and the first new draws |
| `DecodeReceived.AddEvenIndices` | benches/raptorq_benchmark.rs:1490-1502 | the rejection loop terminates for every seed and collects distinct indices, as many as asked for |
| `DecodeReceived.Truncated` | benches/raptorq_benchmark.rs:1503-1505 | cutting and sorting keeps distinct indices below k, and all of them when nothing is cut |
| `DecodeReceived.BuildDecodeReceived` | benches/raptorq_benchmark.rs:1237-1274 | first the source symbols under the indices below k that were not dropped, in order, then repair symbols numbered on from k, as many as are wanted, ids and counts cut to 32 bits |
| `DecodeReceived.SourcesFirst` | benches/raptorq_benchmark.rs:1253-1271 | exactly the first k minus the dropped ones are source symbols, and for k below 2^32 they are exactly the ids below k |
| `DecodeReceived.ReceivedCount` | benches/raptorq_benchmark.rs:1237-1274 | k minus the dropped sources survive and max(l, that) plus the extra repairs are received |
| `DecodeReceived.ReceivedInOrder` | benches/raptorq_benchmark.rs:1237-1274 | the symbol ids fit in 32 bits, and they are strictly increasing if k does too |
| `DecodeReceived.InOrderIff` | benches/raptorq_benchmark.rs:1237-1274 | whatever is dropped, they are strictly increasing if and only if they rise from each kept source to the next and on to the first repair, as they do unless a multiple of 2^32 lies between |
| `DecodeReceived.WholeInOrderIff` | benches/raptorq_benchmark.rs:1237-1274 | with nothing dropped that is so if and only if k is below 2^32, or is 2^32 and no repair symbol follows |
| `DecodeReceived.AllRepairsProducedIff` | benches/raptorq_benchmark.rs:1256-1272 | every wanted repair symbol is produced if and only if the last id, counted from k modulo 2^32, fits in 32 bits |
| `OtlpQueue.MutexQueue.Enqueue` | benches/otlp_queue_contention.rs:49-60 | a full queue drops its oldest item and says so; the contents are the newest items in order |
| `OtlpQueue.MutexQueue.Dequeue` | benches/otlp_queue_contention.rs:62-64 | the oldest item, if there is one |
| `OtlpQueue.LockFreeQueue.Enqueue` | benches/otlp_queue_contention.rs:93-118 | alone: same contents, drop count and answer as the mutex queue, exact length, and the retry push never fails |
| `OtlpQueue.LockFreeQueue.Dequeue` | benches/otlp_queue_contention.rs:120-127 | alone: same as the mutex queue, with the length kept exact |
| `OtlpMachine.EveryRun` | benches/otlp_queue_contention.rs:84-132 | for every capacity at least one, number of threads and interleaving: FIFO order, the length counter off by exactly the owed updates, the drop counter and the true answers off by the owed evictions, and every submitted item in exactly one place |
| `OtlpMachine.FifoStep` | benches/otlp_queue_contention.rs:93-127 | push order is removal order followed by the queue, and the queue never exceeds its capacity |
| `OtlpMachine.LengthCountedStep` | benches/otlp_queue_contention.rs:93-131 | the length counter equals the queue length minus owed additions plus owed subtractions |
| `OtlpMachine.DropsCountedStep` | benches/otlp_queue_contention.rs:93-118 | the drop counter and the number of calls that answered true equal the evictions minus those still owed |
| `OtlpMachine.ConservedStep` | benches/otlp_queue_contention.rs:93-127 | each item is as often submitted as it is in a hand, queued, dequeued, evicted or discarded |
| `OtlpMachine.QuietRun` | benches/otlp_queue_contention.rs:93-131 | with all threads idle the counters are exact and submitted = queued + dequeued + dropped + failed retries |
| `OtlpMachine.LengthDrift` | benches/otlp_queue_contention.rs:129-131 | in every reachable state the counter is off by at most the number of busy threads |
| `OtlpRuns.WaitFree` | benches/otlp_queue_contention.rs:93-127 | a call ends within six of its own accesses, whatever the other threads do |
| `OtlpRuns.SoloRefinesMutex` | benches/otlp_queue_contention.rs:40-132 | over every sequence of calls that one thread makes while the others stand still: same contents, answers, drop count and length as the mutex queue, nothing discarded |
| `OtlpRuns.LenWrapsIff` | benches/otlp_queue_contention.rs:129-131 | `len` reads as a huge word if and only if more additions are owed than the queue and the owed subtractions make up for |
| `OtlpLoss.EmptyReadsHugeIff` | benches/otlp_queue_contention.rs:120-131 | for every capacity there is a schedule after which `len` of an empty queue reads as a huge number if and only if there are two threads or more |
| `OtlpLoss.SilentLossIff` | benches/otlp_queue_contention.rs:93-118 | for every capacity there is a schedule after which an item is lost, nothing is counted as dropped and every enqueue answered false if and only if there are two threads or more |
| `OtlpLoss.AloneRun` | benches/otlp_queue_contention.rs:93-118 | a single thread finds the queue as it left it, so its retry never fails |
| `Mpmc.InvRun` | benches/scheduler_benchmark.rs:555-610 | the protocol invariant holds in every state of every run, for any number of producers, consumers and items |
| `Mpmc.AllConsumedOnce` | benches/scheduler_benchmark.rs:586-602 | once the shared count has reached the total the queue is empty and every item has been popped exactly once |
| `Mpmc.ConsumersExitOnlyWhenDone` | benches/scheduler_benchmark.rs:586-602 | the count never exceeds the total, and a consumer has exited only if every item has been popped exactly once |
| `Mpmc.ReservationsHonoured` | src/runtime/scheduler/global_queue.rs:183-199 | a reserved item is always there to be dequeued and its count to be decremented, in every run |
| `Mpmc.PoppedWithinTotal` | benches/scheduler_benchmark.rs:555-610 | counted, popped and enqueued items are ordered and bounded by the total |
| `MpmcLiveness.NotStuck` | benches/scheduler_benchmark.rs:586-602 | while items are uncounted some thread makes progress within its next two turns |
| `MpmcLiveness.FairRound` | benches/scheduler_benchmark.rs:572-602 | a round in which every thread has two turns makes progress |
| `MpmcLiveness.ProtocolTerminates` | benches/scheduler_benchmark.rs:555-610 | after more than seven rounds per item all producers are done and all consumers have exited |
| `TimerStores.VecTimers.CollectExpired` | benches/timer_wheel.rs:670-683 | fires the due live timers in insertion order and keeps the others |
| `TimerStores.VecTimers.Cancel` | benches/timer_wheel.rs:660-668 | true exactly for a live id, which it removes |
| `TimerStores.VecTimers.Insert` | benches/timer_wheel.rs:653-658 | appends a live timer with the next id |
| `TimerStores.HeapTimers.CollectExpired` | benches/timer_wheel.rs:619-632 | fires the due live timers in (deadline, id) order; lazily deleted entries never fire |
| `TimerStores.HeapTimers.Cancel` | benches/timer_wheel.rs:614-617 | true exactly for a live id, which it removes |
| `TimerStores.HeapTimers.Insert` | benches/timer_wheel.rs:606-612 | adds a live timer with the next id |
| `TimerStores.Drain` | benches/timer_wheel.rs:619-632 | the popping loop terminates and returns the stable sort by deadline of what was due |
| `TimerRuns.CompareStores` | benches/timer_wheel.rs:531-688 | the three stores run on the same operations: heap and vector give the same ids, cancel results and lengths, each heap expiry list is the stable sort by deadline of the vector list; the ordered map gives the heap's replies throughout if and only if no expired id is cancelled, its `len` is ahead by the number expired so far if and only if none has been cancelled yet, and it fires the heap's wakers in the heap's order if every cancellation is harmless |
| `TimerRuns.ReplayVec` | benches/timer_wheel.rs:645-688 | over every sequence of operations the vector store gives the specified answers and lengths, in insertion order |
| `TimerRuns.ReplayHeap` | benches/timer_wheel.rs:597-637 | over every sequence of operations the heap store gives the specified answers and lengths, in deadline order |
| `TimerRuns.ReplayTree` | benches/timer_wheel.rs:531-588 | over every sequence of operations the ordered-map store gives the answers of its specification |
| `TimerRuns.ExpireAtTimes` | benches/timer_wheel.rs:1076-1080 | collecting from a heap store at non-decreasing times gives, concatenated, what one collection at the last time gives, and leaves the same timers |
| `TimerSpec.StableSortByBoth` | benches/timer_wheel.rs:619-632 | a stable sort by deadline of a list in id order is in (deadline, id) order |
| `TimerSpec.ExpiryIs` | benches/timer_wheel.rs:619-632 | exactly the live timers with deadline at most now fire and exactly the others stay; the one order is by id, the other by deadline and then id |
| `TimerSpec.CancelIs` | benches/timer_wheel.rs:614-617 | exactly the timer with that id goes |
| `TimerSpec.PopLeast` | benches/timer_wheel.rs:619-632 | popping the least (deadline, id) and sorting the rest is sorting the whole |
| `TimerSpec.ExpireStepwise` | benches/timer_wheel.rs:1076-1080 | expiring at non-decreasing times gives, concatenated, what one expiry at the last time gives, and leaves the same timers |
| `BTreeTimers.BTreeTimers.CollectExpired` | benches/timer_wheel.rs:575-583 | splits the map at `now` and returns the wakers by deadline |
| `BTreeTimers.BTreeTimers.Cancel` | benches/timer_wheel.rs:557-573 | forgets the id and drops the newest waker at its deadline |
| `BTreeTimers.AgreesIffDisciplined` | benches/timer_wheel.rs:531-637 | the ordered-map store answers every operation of a run like the specification if and only if no expired id is cancelled |
| `BTreeTimers.LenExcessIff` | benches/timer_wheel.rs:531-588 | after every run from the empty store its `len` is at most the live and the expired timers together, and exactly that if and only if no expired id has been cancelled |
| `BTreeTimers.TracksRun` | benches/timer_wheel.rs:531-588 | on a run that cancels no expired id it holds at each deadline as many wakers as there are live timers |
| `TimerRuns.FaithfulFires` | benches/timer_wheel.rs:575-583 | a tree whose lists are the live wakers in order fires what the heap store fires |
| `TimerRuns.CancelFaithfulIff` | benches/timer_wheel.rs:557-573 | cancelling a live timer keeps that property if and only if every later timer at the deadline has the same waker, as when there is none; otherwise the wrong waker is dropped |
| `TimerRuns.CancelExpiredIff` | benches/timer_wheel.rs:557-573 | cancelling an expired one does if and only if no live timer is at its deadline |
| `TimerRuns.FaithfulRunIff` | benches/timer_wheel.rs:531-588 | after every prefix of a run the ordered map holds exactly the live wakers, in order, if and only if every cancellation on the way is harmless in that sense |
| `TimerRuns.CarefulFires` | benches/timer_wheel.rs:575-583 | on such a run each collection fires the wakers the heap fires, in the same order |
| `TimerRuns.WrongWakerFires` | benches/timer_wheel.rs:557-583 | two timers at one deadline: the first is cancelled, and its waker fires in place of the other |
| `SquareComplex.CombinedBoundaryMatrix` | src/trace/boundary.rs:192-221 | each column holds exactly the boundary of its cell |
| `SquareComplex.CombinedSquaresToZeroIff` | benches/homology_benchmark.rs:240-268 | for any loop-free edge list and any squares whose edges are present, D*D = 0 over GF(2) if and only if every square has b != c or a = d |
| `SquareComplex.CombinedStrictlyUpper` | benches/homology_benchmark.rs:240-268 | the combined matrix is strictly upper triangular |
| `ComplexBuilder.FromEdges` | src/trace/boundary.rs:74-130 | the edges are the well-formed given ones, sorted without repetition, and the squares are exactly the diamonds, sorted |
| `ComplexBuilder.CleanEdgesSpec` | src/trace/boundary.rs:75-79 | retaining, sorting and deduplicating gives the strictly sorted list of the proper edges |
| `ComplexBuilder.Common` | src/trace/boundary.rs:103-119 | merging two increasing successor lists finds exactly the common successors |
| `ComplexBuilder.BuiltComplexIsChain` | src/trace/boundary.rs:74-130 | whatever edges are given, the matrix built from them squares to zero and is strictly upper triangular |
| `Grid.BuildGridEdges` | benches/homology_benchmark.rs:46-62 | the edges of the n x n grid, row by row |
| `Grid.GridCounts` | benches/homology_benchmark.rs:41-46 | 2n(n-1) edges and (n-1)^2 unit squares |
| `Grid.EdgesUpToAre` | benches/homology_benchmark.rs:46-62 | the edges are strictly increasing and are exactly the steps right and down |
| `Grid.GridEdgeIff` | benches/homology_benchmark.rs:46-62 | from (i, j) there are edges to (i, j + 1) and (i + 1, j), and no others |
| `Grid.GridComplex` | benches/homology_benchmark.rs:41-62 | the complex built from the grid has exactly the grid edges and the unit squares |
| `DiamondChain.BuildDiamondChain` | benches/homology_benchmark.rs:64-83 | 3n+1 vertices and the four edges of each diamond |
| `DiamondChain.ChainEdgesAre` | benches/homology_benchmark.rs:64-83 | the 4n edges are strictly increasing and exactly those of the diamonds |
| `DiamondChain.ChainComplex` | benches/homology_benchmark.rs:64-83 | the complex built from the chain has exactly its 4n edges and n diamonds |
| `Gf2.Highest` | src/trace/gf2.rs:182-199 | the highest set row of a column |
| `Gf2.ApplyXor` | src/trace/gf2.rs:142-163 | multiplication by a matrix is linear |
| `Gf2.BoundaryOfBoundary` | src/trace/boundary.rs:255-290 | if D*D = 0 then every boundary is a cycle |
| `Persistence.ReduceColumn` | src/trace/gf2.rs:378-389 | terminates; the column becomes zero or has a top no earlier column has, by adding earlier columns only |
| `Persistence.Reduce` | src/trace/gf2.rs:372-396 | R = D V with V unit upper triangular, all tops distinct, and the pivot map is the inverse of the tops; columns of one dimension only are added up |
| `Persistence.CycleTop` | src/trace/gf2.rs:426-470 | the column of the highest cell of any cycle reduces to zero |
| `Persistence.PairingUnique` | src/trace/gf2.rs:360-372 | any two reductions of one matrix have the same tops, so the pairs do not depend on the order of elimination |
| `Persistence.SpanOfReduced` | src/trace/gf2.rs:372-396 | reduction keeps the span of every prefix of columns |
| `Persistence.BirthsAreCycles` | src/trace/gf2.rs:426-470 | if D*D = 0 the cell a class is born at is a cycle |
| `Persistence.PersistencePairs` | src/trace/gf2.rs:431-470 | pairs are exactly (top, column) of the non-zero columns; unpaired are exactly the zero columns that are no top |
| `Persistence.PairsPartition` | src/trace/gf2.rs:426-470 | every cell is a birth, a death or unpaired, exactly one of these |
| `Homology.PersistenceOfEdges` | src/trace/boundary.rs:223-253 | the whole pipeline on any edge list: a chain complex, a reduction, and pairs that join vertices to edges and edges to squares |
| `Homology.PairDimensions` | src/trace/boundary.rs:223-253 | a class is born before it dies, one dimension below |
| `Homology.H1PersistencePairs` | src/trace/boundary.rs:223-253 | keeps exactly the pairs born at an edge that die at a square and exactly the unpaired edges, both in the order given; on the pairs of a complex each edge is in the result once if and only if it ends no H0 class |
| `Homology.H1OfEdges` | src/trace/boundary.rs:223-253 | the same of any edge list from the start: the H1 classes by death, and as many that live for ever as the first Betti number |
| `Homology.EulerCharacteristic` | src/trace/gf2.rs:426-470 | vertices - edges + squares is the alternating sum of the unpaired cells by dimension |
| `HomologyBasis.BettiIsDimension` | src/trace/boundary.rs:33-35 | the number of unpaired cells of a dimension is the dimension of its homology: their columns are a basis of the cycles modulo boundaries |
| `HomologyBasis.ReducedBasis` | src/trace/gf2.rs:426-430 | for any reduction of any graded chain complex these columns are cycles, span and are independent |
| `HomologyBasis.Span` | src/trace/gf2.rs:426-430 | every cycle is a sum of such columns and the boundary of a chain one dimension up |
| `HomologyBasis.IndependentCells` | src/trace/gf2.rs:426-430 | no sum of such columns but the empty one is a boundary |
| `HomologyBasis.RepresentedOnce` | src/trace/gf2.rs:426-430 | so each homology class has exactly one set of unpaired cells |
| `Components.UnpairedVertices` | src/trace/gf2.rs:426-470 | a vertex is unpaired if and only if it is the least of its connected component |
| `Components.NoUnpairedSquares` | src/trace/gf2.rs:426-470 | no square is unpaired when every vertex starts at most one |
| `LatticeHomology.GridHomology` | benches/homology_benchmark.rs:46-62 | the grid is contractible: vertex 0 is the only unpaired cell and (n-1)^2 loops end at squares |
| `LatticeHomology.ChainHomology` | benches/homology_benchmark.rs:64-83 | so is the diamond chain: vertex 0 is the only unpaired cell and n loops end at squares |
| `LatticeHomology.GridPersistence` | benches/homology_benchmark.rs:46-62 | the same of the grid that the builder makes, for every n including zero |
| `LatticeHomology.ChainPersistence` | benches/homology_benchmark.rs:64-83 | the same of the chain that the builder makes |
| `WsFrame.FrameCodec.EncodeWithEntropy` | src/net/websocket/frame.rs:423-505 | appends the encoding of a frame, laid out byte by byte as section 5.2 of RFC 6455 says, or refuses it and leaves the buffer alone |
| `WsFrame.WireFormat` | src/net/websocket/frame.rs:423-505 | the layout: flags and opcode number in the first byte, mask bit and length form in the second, the length big-endian, the key, and each payload byte in exclusive or with the key's |
| `WsFrame.HeaderRefusals` | src/net/websocket/frame.rs:531-583 | which error each bad header gets, in terms of its two bytes and in the order of the checks |
| `WsFrame.LengthRefusals` | src/net/websocket/frame.rs:634-705 | and each bad extended length: the top bit set, or a length that fits a shorter form |
| `WsFrame.CloseOkIff` | src/net/websocket/frame.rs:832-848 | a close payload passes if and only if it is empty, or a big-endian code from 1000 to 4999 without 1004 to 1006 and 1015, and the encoding of some Unicode scalar values |
| `WsUtf8.Utf8Iff` | src/net/websocket/frame.rs:841-843 | the byte ranges accept exactly the encodings of sequences of Unicode scalar values (section 3 of RFC 3629) |
| `WsFrame.FrameCodec.DecodeNext` | src/net/websocket/frame.rs:512-801 | one run of the decoding loop: a frame, a request for more bytes with the state kept, or an error that poisons the codec |
| `WsFrame.OpcodeFrom` | src/net/websocket/frame.rs:71-81 | the opcode with that code, or an error if there is none |
| `WsBytes.ApplyMask` | src/net/websocket/frame.rs:816-820 | in place, bit i of each byte becomes set if and only if the bits i of that byte and of the key's byte in turn differ |
| `WsBytes.XorIsBitwise` | src/net/websocket/frame.rs:816-820 | the exclusive or of two bytes, bit by bit |
| `WsBytes.ToBytesAt` | src/net/websocket/frame.rs:480-489 | byte i of a length in k bytes is the one worth 256^(k-1-i) |
| `WsBytes.MaskTwice` | src/net/websocket/frame.rs:812-820 | masking twice with one key restores the payload |
| `WsStream.DecodeExtends` | src/net/websocket/frame.rs:525-801 | decoding a prefix and then the rest is decoding the whole |
| `WsStream.ChunkingIrrelevant` | src/net/websocket/frame.rs:512-801 | however a byte stream is cut into reads, the same frames come out, the same error stops it and the same state is left |
| `WsRoundTrip.RoundTrip` | src/net/websocket/frame.rs:423-801 | whatever the peer encodes is decoded to the same frame with the following bytes untouched, except for reserved bits being validated or a payload over the limit, with exactly those errors |
| `WsRoundTrip.Canonical` | src/net/websocket/frame.rs:525-801 | whatever is accepted is byte for byte what the peer's encoder writes for the decoded frame |
| `WsTraffic.EverySplitDelivers` | src/net/websocket/frame.rs:423-801 | for any frames sent and any split of their bytes the receiver gets exactly those frames, up to the first it refuses, and then the error for that one |
| `WsTraffic.CreateWsFrame` | benches/protocol_benchmark.rs:390-418 | the builder writes the encoding of a binary frame whose payload is 0xAB, or 0xAB xor the fixed key when the mask bit is set |
| `WsTraffic.BenchFramesDecode` | benches/protocol_benchmark.rs:390-418 | any concatenation of such frames, masked or not, is taken apart into exactly those frames up to the first whose mask flag or size does not suit the receiver, which fails with the error for that |
| `CrlfScan.FindByNewline` | benches/protocol_benchmark.rs:67-74 | the newline scan finds what leftmost substring search finds |
| `CrlfScan.CollectByNewline` | benches/protocol_benchmark.rs:80-92 | the scan collects exactly the positions of all line ends, increasing, which is what non-overlapping search yields |
| `OwnerSwitches.CountSwitches` | benches/geodesic_benchmark.rs:69-77 | the number of positions at which the owner changes |
| `OwnerSwitches.LowContention` | benches/geodesic_benchmark.rs:54-67 | owner o has the events from o times the chunk length up to the next multiple, the last owner the rest, where the chunk length is the largest of which as many as there are owners fit, but at least one |
| `OwnerSwitches.HighContention` | benches/geodesic_benchmark.rs:40-51 | event i belongs to owner i mod owners |
| `OwnerSwitches.LowContentionOptimal` | benches/geodesic_benchmark.rs:54-67 | min(n, owners) - 1 switches, and no reordering of the events has fewer |
| `OwnerSwitches.HighContentionWorst` | benches/geodesic_benchmark.rs:40-51 | with two owners or more there are n - 1 switches, and no trace of that length has more |
| `OwnerSwitches.SwitchesAtLeast` | benches/geodesic_benchmark.rs:69-77 | a trace with k owners switches at least k - 1 times |
| `ClaimReceipt.BuildReceipt` | scripts/readme_claim_freshness.py:60-160 | counts every marker of every claim, or fails with the error of the first bad claim |
| `ClaimReceipt.ReceiptLaws` | scripts/readme_claim_freshness.py:60-160 | required = present + missing over everything, in each document and in each claim; documents and claims add up to the totals, and the verdict is fresh if and only if every marker occurs and if and only if every claim is fresh |
| `ClaimReceipt.VerdictIff` | scripts/readme_claim_freshness.py:104-140 | fresh if and only if every marker listed under README.md is part of that text and every marker listed under AGENTS.md is part of that one; each document row likewise |
| `ClaimReceipt.EntryOkIff` | scripts/readme_claim_freshness.py:40-111 | a claim is counted if and only if its id, category and status are given, its documents are the two known ones and no marker is blank |
| `ClaimReceipt.DocumentsAddUp` | scripts/readme_claim_freshness.py:100-118 | the two documents' rows add up to the totals |
| `ClaimReceipt.TallyBalances` | scripts/readme_claim_freshness.py:100-118 | required = present + missing, globally and per document |

## Left out

- Weak memory: every atomic access is one sequentially consistent step, although some are `Relaxed`.
- The inner queue of the global queue, `ArrayQueue`, `BinaryHeap`, `BTreeMap`, `Slab` and the standard sorts are modelled by what they promise (an atomic FIFO, a least element, ordered iteration, a vacant id, a stable sort), not by their code.
- Counter wrap-around of ids, generations, ticks, time sums and window ends at 2^64: times and ids are unbounded numbers. The 64-bit wrap of the generators, of `len` and the 32-bit symbol ids are modelled.
- TimerWheel.TimerWheel.CollectExpired: does not take a range and a longest timer both beyond the span of the four levels, because then `refill_overflow` need not return, as `RefillCirclesIff` states; neither do `Synchronize`, `ReportsEarliestIff`, `CollectsAllIff` and the members about turning the wheel. That every due timer fires is stated for the configurations `CollectsAllIff` names.
- TimerWheel.TimerWheel.NextDeadline: that the report is the earliest deadline is stated for the configurations for which `ReportsEarliestIff` says that it always is and for timers on one level; for the others the contract says which timer is reported. What it says about coalescing is stated for a range above zero or no timers ahead, since otherwise past timers stay in the overflow uncounted.
- TimerWheel.TimerWheel.GroupSizeAt: that it is the number a collection fires is stated for times the ready list is complete for: up to the end of the wheel's tick if the range takes in everything less than a tick away or every timer there is, up to the wheel's clock for other ranges above zero.
- TimerWheel.TimerWheel.Register: the id the slab picks is a parameter; so it is in `InsertValidated` and `TryRegister`.
- WheelBitmap.NextOccupiedDistance: a word is the set of the positions of its one bits; shifts and masks are operations on that set.
- WsFrame.FrameCodec.EncodeWithEntropy: the mask key is a parameter in place of the entropy source.
- WsRoundTrip.RoundTrip: payloads are shorter than 2^63 bytes, as any allocation is.
- Fragment reassembly, the close handshake and the connection layer above the frame codec.
- Words and bit operations of `BitVec` (a column is a set of rows), `boundary_1`, `boundary_2` and `matmul_gf2` (the combined matrix is modelled instead), and the trace posets that edges come from.
- LossPlacement.CreateScatteredLossPattern: the loss count is a parameter in place of the rounded product of k and a fraction; `PlacementHaltsIff` says that more than k never ends. The same holds for `ComputeDropIndices`.
- Mpmc.InvRun: thread start, the barrier and the spin hint are not modelled; batch pops, counted reservations and the priority lanes of the scheduler are not either.
- OwnerSwitches.LowContentionOptimal: the owner of an event is its task id; times and sequence numbers of the events are left out.
- ClaimReceipt.BuildReceipt: the snapshot is taken as already parsed into claims; paths, dates and the fixed fields of the receipt are left out.
- The geodesic search, the RaptorQ codec and its field arithmetic, HPACK and HTTP parsing, the macro crates, the reactor and the rest of the runtime: left out for size.
