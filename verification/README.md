# BORE burst scheduler and RAM Plus set-up: a verified model

Dafny models of two components and proofs of what they promise. `dafny verify dfyconfig.toml`
checks everything.

**The BORE burst scheduler** (`kernel/modules/bore_sched`). Every task carries a burst time, three
penalties and two packed caches; the hooks for tick, sleep, yield, fork and initialisation move them.

- `Words` has the C words as numbers with explicit wrap-around, and the masks of the branch-free code.
- `FixedPoint` is the arithmetic of `bore_sched.h` as the C computes it, proved equal to what it is
  meant to compute; `LogBound` compares its logarithm with the real one.
- `BurstCache` is the packed cache: reciprocal division, sampling, expiry.
- `TaskTree` is the walk up to a hub and down through only children.
- `BurstState` is one task under the hooks, `BoreSystem` all tasks as a step relation, and `CacheRuns`
  one cache followed through a run of the whole system. `WrapRuns` says for
  which settings runs stay consistent.
- `BoreHooks` has the hooks in the module's own form: contexts updated in place, loops over lists and
  parent pointers. Each method is proved equal to the step of `BoreSystem`, so what is proved of runs
  holds of them (`Bore.Dispatch`).

**The RAM Plus set-up** (`config/ramplus/ax_ram_plus_setup.cpp`). A program that prepares, formats and
activates a swapfile, in which every call may fail and which may be killed anywhere.

- `SwapFile` is the shape of the file: one flag per block, and when writing may be skipped.
- `RamPlusWorld` is the world with its system calls, each with every outcome it may have, and what
  every single call keeps. All calls are recorded with their results, so a kill between any two of
  them is a prefix of the record, and the record tells which calls of a run failed and what was read.
- `RamPlusSetup` is the program, in its own control flow, over any number of runs, kills and reboots.
  `OtherError` is a failure for reasons outside the model, as opposed to those the state explains; the
  contracts say which such failures, and which states, explain which outcomes, and how a run without
  any such failure must end.

What the proofs show about the code itself:

- The early return of the tick hook is sound, over all reachable states, exactly for the settings whose
  penalty is 0 at rest and monotone in the burst time (`WrapRuns.ConsistentIffSound`); settings that do
  not wrap are of this kind (`FixedPoint.NoWrapIsSound`). The sysctl table gives no bounds
  (`kernel/modules/bore_sched/bore_sched_main.c:414-458`), so others can be made. At moderate scales all
  that wrap are others, and stale penalties are reachable; at larger ones wrapping may hide
  (`FixedPoint.WrapMayHide`), and `WrapRuns.ConsistentIffChecked` is the check of a setting. A burst time
  that wraps leaves a stale penalty even under the defaults (`BurstState.WrappedBurstIsStale`).
- The walk up and the walk down are inverse along listed paths only. A thread that is no group leader
  has a parent but is on no list, and a fork by it may consult a cache it is never sampled into
  (`TaskTree.ThreadIsNotSampled`).
- The write shortcut of `PrepareSwapFile` is wrong for a file with a hole in front of allocated blocks
  (`SwapFile.HoleSurvives`). No sequence of runs makes such a file, which is an invariant across
  runs, kills and failing calls, not a fact of one run.
- Accepting ENOENT from `swapoff` is right exactly because the file is never unlinked under an active
  swap (`RamPlusWorld.AcceptedMeansOff`).
- A run that is refused, or whose first `swapoff` fails, publishes an active size of 0 while an earlier
  swap stays active. `RamPlusSetup.Setup` states in terms of the inputs when that happens, and that it is
  the only such case, apart from the `swapoff_failed` branch of `FailActiveSwap`, where the swap is stuck.

Reading notes. Shifts by constants are written as the products and quotients they are; the precision
`fp` of the logarithm is 8, the only value the module passes. The links between tasks may change
arbitrarily between hooks, over a fixed pool of tasks, as long as the tree stays well formed; its
`depth` is a certificate that the parent pointers end, not data of the kernel. Settings and a task's policy,
flags and static priority are fixed during a run.

## Model

| member | source | states |
|---|---|---|
| BoreSystem.Reachable | kernel/modules/bore_sched/bore_sched_main.c:233-364 | For settings with no penalty at rest and a monotone one: after any interleaving of tick, sleep, yield, fork and init over any number of tasks and any change of the links in between, each task's current penalty is that of its burst, its penalty is 0 if it is a kernel thread or has a static priority below 120 and otherwise the larger of its current and previous one, all three are within the cap, and its priority is in 0..39 (a protected one exactly its static priority) |
| BoreSystem.RunKeeps | kernel/modules/bore_sched/bore_sched_main.c:233-364 | The invariant (consistent contexts, cached penalties within the cap, cache times in the past) holds at the end of every legal run that starts in it |
| BoreSystem.StepKeeps | kernel/modules/bore_sched/bore_sched_main.c:275-364 | Every single hook call and every relinking keeps that invariant |
| BoreSystem.InitialHolds | kernel/modules/bore_sched/bore_sched_main.c:471-482 | The all-zero contexts written at load satisfy the invariant, for settings with no penalty at rest and a monotone one |
| BoreSystem.BootRuns | kernel/modules/bore_sched/bore_sched_main.c:471-482 | The assumptions of the results on runs can be met: a freshly loaded root and child form an initial, linked system that may tick and fork under the default settings |
| WrapRuns.ConsistentIffSound | kernel/modules/bore_sched/bore_sched_main.c:275-294 | For every setting with the scheduler on and any unprotected task: every reachable state has the penalty of its burst if and only if the penalty is 0 at rest and monotone in the burst time |
| WrapRuns.ConsistentIffChecked | kernel/modules/bore_sched/bore_sched_main.c:275-294 | The same as a check of the settings: for all of them by 14591 comparisons and the penalty at rest; for offsets below 2^23 by one product where the scale is moderate, and by the wrapped products where it is larger |
| WrapRuns.StaleIsReached | kernel/modules/bore_sched/bore_sched_main.c:275-294 | Where a longer burst has a smaller penalty, a stale penalty is reachable |
| WrapRuns.StaleRun | kernel/modules/bore_sched/bore_sched_main.c:265-294 | The run that shows it: bursts of the longer length until the previous penalty settles, then one that grows from the shorter length to it |
| WrapRuns.StaleTick | kernel/modules/bore_sched/bore_sched_main.c:286-293 | The tick in which the early return leaves the larger penalty behind |
| BoreSystem.OnlyTicksRaise | kernel/modules/bore_sched/bore_sched_main.c:87-226 | A bound on every penalty and every cached penalty in the system survives each fork, sleep, yield and init; true for all settings, also those that wrap |
| BoreSystem.RunWithoutTicks | kernel/modules/bore_sched/bore_sched_main.c:87-226 | Hence no run without a tick creates penalty |
| BoreSystem.ConsultedAtMost | kernel/modules/bore_sched/bore_sched_main.c:75-124 | What a look-up hands out and what it leaves in the cache is at most a bound on the cache and on all penalties |
| BoreSystem.ForkKeeps | kernel/modules/bore_sched/bore_sched_main.c:322-353 | A fork, including the cache refresh it triggers on another task, keeps every context good |
| BoreSystem.ForkFields | kernel/modules/bore_sched/bore_sched_main.c:344-351 | The child starts a fresh burst with the larger of its own and the inherited previous penalty, keeps its caches, and has the masked penalty of that |
| BoreSystem.ForkIdle | kernel/modules/bore_sched/bore_sched_main.c:328-329 | With the scheduler off, or for a child that is idle or of another policy than normal, batch and idle, a fork changes nothing |
| BoreSystem.ForkMeaning | kernel/modules/bore_sched/bore_sched_main.c:331-352 | Otherwise: the child starts afresh with the larger of its previous and the inherited penalty and the penalty of that, keeping its caches; one cache of the consulted task changes, and no other context |
| BoreSystem.ForkSourceMeaning | kernel/modules/bore_sched/bore_sched_main.c:336-342 | Which cache a fork consults: the thread group's for another thread of the forking task's group, else the hub's for inherit type 2, the parent's for 1, and none for any other |
| BoreSystem.HubSourceMeaning | kernel/modules/bore_sched/bore_sched_main.c:127-187 | The hub found from the parent tolerating no child on it, or with CLONE_PARENT from its own parent tolerating one; its subtree cache over the chain ends of its children; none without a parent |
| BoreSystem.ParentSourceMeaning | kernel/modules/bore_sched/bore_sched_main.c:87-124 | The parent's subtree cache over its children, or with CLONE_PARENT its own parent's; none without one |
| BoreSystem.GroupSourceMeaning | kernel/modules/bore_sched/bore_sched_main.c:190-225 | The leader's group cache over its threads; none without a leader |
| BoreSystem.ConsultedMeaning | kernel/modules/bore_sched/bore_sched_main.c:67-124 | A cache at most one lifetime old is handed out as it is; an older one gets the time without its low 16 bits and the larger of the owner's penalty and the mean of the sample |
| BoreSystem.CandidatesMeaning | kernel/modules/bore_sched/bore_sched_main.c:113-117 | A task on the list is eligible exactly if it is not idle and of policy 0, 3 or 5, and counts with its penalty |
| BoreSystem.HubSampleCoheres | kernel/modules/bore_sched/bore_sched_main.c:141-182 | Every childless task sampled into a hub's cache would consult that same cache over the same list when it forks, and is sampled once |
| CacheRuns.CacheOverRuns | kernel/modules/bore_sched/bore_sched_main.c:67-124 | In every run of the whole system that does not clear the owner: n rescans of one cache span at least (n-1)*(lifetime-65534) ns, and an unexpired cache that was rescanned is at most one lifetime old |
| CacheRuns.RunSlot | kernel/modules/bore_sched/bore_sched_main.c:67-124 | The word a cache holds after a run is what its own look-ups left, whatever the other tasks did |
| CacheRuns.StepSlot | kernel/modules/bore_sched/bore_sched_main.c:67-85 | One step changes a cache word only by its own look-up, and the clock does not go back |
| CacheRuns.LookupsInOrder | kernel/modules/bore_sched/bore_sched_main.c:67-73 | The look-ups of one cache in a run are in the order of the clock |
| CacheRuns.LookupsBeforeEnd | kernel/modules/bore_sched/bore_sched_main.c:67-73 | No look-up of a run lies after the clock at its end |
| BurstState.TickConsistentIff | kernel/modules/bore_sched/bore_sched_main.c:275-294 | The early return that skips `update_penalty` leaves a right penalty if and only if the task is protected, the return is not taken, or the current penalty did not exceed the previous one before either; no assumption on wrap-around |
| BurstState.TickKeepsConsistent | kernel/modules/bore_sched/bore_sched_main.c:286-293 | With settings that do not wrap and a burst time that does not wrap, the early return is sound, because the penalty is monotone |
| BurstState.WrappedBurstIsStale | kernel/modules/bore_sched/bore_sched_main.c:286-291 | One more nanosecond on a burst of 2^64-1 ns leaves a stale penalty under the default settings |
| BurstState.TicksCoalesce | kernel/modules/bore_sched/bore_sched_main.c:275-294 | Any list of ticks leaves the same context as one tick of their sum, when the sum fits |
| BurstState.BurstOnlyClimbs | kernel/modules/bore_sched/bore_sched_main.c:233-294 | Within a burst the penalty and the priority value never fall, and replaying the `*new_prio` writes always gives the current priority |
| BurstState.RestartOnlyFalls | kernel/modules/bore_sched/bore_sched_main.c:265-305 | A sleep or yield never raises the penalty or the priority value |
| BurstState.RestartFields | kernel/modules/bore_sched/bore_sched_main.c:265-273 | A restart clears the burst, smooths the previous penalty and leaves the penalty of that, touching nothing else |
| BurstState.RestartKeepsConsistent | kernel/modules/bore_sched/bore_sched_main.c:265-273 | A restart keeps a context consistent |
| BurstState.ForkKeepsConsistent | kernel/modules/bore_sched/bore_sched_main.c:344-351 | The end of a fork keeps a context consistent for every inherited penalty within the cap |
| BurstState.ConsistentBounds | kernel/modules/bore_sched/bore_sched_main.c:233-263 | In a consistent context all penalties are within the cap and the priority in 0..39 |
| BurstState.PrioMeaning | kernel/modules/bore_sched/bore_sched_main.c:228-246 | The branch-free 32-bit computation is static priority minus 100 plus the score, clamped to 0..39 |
| BurstState.MaskedMaxMeaning | kernel/modules/bore_sched/bore_sched_main.c:250-256 | The branch-free maximum under the protection mask is 0 for kernel threads and static priorities below 120; otherwise it is one of curr and prev and not below either |
| BurstState.PrioWriteMeaning | kernel/modules/bore_sched/bore_sched_main.c:258-262 | A priority is reported exactly when it changed, and it is the new one |
| BurstState.TickMeaning | kernel/modules/bore_sched/bore_sched_main.c:275-294 | The tick field by field: nothing with the scheduler off or updates stopped; else the burst grows by the delta, modulo 2^64, its penalty is computed, and only where that exceeds the previous one is the penalty set; a priority is reported exactly when it changed |
| BurstState.SleepMeaning | kernel/modules/bore_sched/bore_sched_main.c:296-305 | A dequeue ends the burst exactly with the scheduler on and bit 0 of the flags set, and otherwise changes nothing |
| BurstState.YieldMeaning | kernel/modules/bore_sched/bore_sched_main.c:311-320 | A yield ends the burst exactly with the scheduler on |
| BurstState.BurstFromRest | kernel/modules/bore_sched/bore_sched_main.c:265-294 | One burst from rest, ended by a sleep, is one smoothing step towards its penalty, also where the arithmetic wraps |
| BurstState.BurstsSettle | kernel/modules/bore_sched/bore_sched_main.c:265-294 | The previous penalty after n equal bursts of a task is n smoothing steps towards the penalty of that burst |
| BurstState.SleepsConverge | kernel/modules/bore_sched/bore_sched_main.c:265-294 | A task whose bursts all have one length reaches that penalty as its previous penalty after finitely many sleeps and keeps it; 14 suffice at smoothness 1 |
| FixedPoint.LogOctave | kernel/modules/bore_sched/bore_sched.h:92-105 | For 2^k <= v < 2^(k+1) the logarithm is 256k + floor(256v / 2^k) |
| FixedPoint.LogRange | kernel/modules/bore_sched/bore_sched.h:97-104 | It is 0 exactly at 0, otherwise in 256..16639 |
| FixedPoint.LogMonotone | kernel/modules/bore_sched/bore_sched.h:92-105 | It is monotone over all 64-bit words |
| FixedPoint.LogDoubling | kernel/modules/bore_sched/bore_sched.h:101-104 | Doubling a nonzero word adds exactly 256 whenever the double fits |
| FixedPoint.LogReaches | kernel/modules/bore_sched/bore_sched.h:101-104 | Every value from 2304 to 16639 is the logarithm of some word |
| LogBound.LogNeverOver | kernel/modules/bore_sched/bore_sched.h:101-104 | The fixed-point logarithm g of v never over-estimates: 2^(g-256) <= v^256 |
| LogBound.ChordAbove | kernel/modules/bore_sched/bore_sched.h:103-104 | The inequality behind it, without fractions: n^n * 2^m <= (n+m)^n for n a power of two and m <= n |
| FixedPoint.PenaltyCapped | kernel/modules/bore_sched/bore_sched.h:107-116 | The penalty is at most MAX_BURST_PENALTY for every burst time and every setting, also when words wrap |
| FixedPoint.PenaltyMeaning | kernel/modules/bore_sched/bore_sched.h:107-116 | For every burst time and setting, what the masks compute: the logarithm less the shifted offset as a signed word not below 0, times the scale modulo 2^32, over 1024, at most 10239 |
| FixedPoint.PenaltyInRange | kernel/modules/bore_sched/bore_sched.h:107-116 | For offsets below 2^23 and scales up to 258126, over the integers and without the model's own functions: 0 at or below the offset, otherwise the product over 1024 rounded down, at most 10239 |
| FixedPoint.PenaltyExact | kernel/modules/bore_sched/bore_sched.h:107-116 | Where nothing wraps it is min(MAX, max(0, log - 256*offset) * scale / 1024) over the integers |
| FixedPoint.PenaltyMonotone | kernel/modules/bore_sched/bore_sched.h:107-116 | Where nothing wraps it is monotone in the burst time |
| FixedPoint.PenaltyAtZero | kernel/modules/bore_sched/bore_sched.h:107-116 | A burst of zero has no penalty |
| FixedPoint.NoWrapRange | kernel/modules/bore_sched/bore_sched.h:110-113 | Every offset below 2^23 with every scale up to 258126 does not wrap, and neither do the defaults |
| FixedPoint.NoWrapIsSound | kernel/modules/bore_sched/bore_sched.h:107-116 | Settings whose arithmetic does not wrap have no penalty at rest and a monotone one |
| FixedPoint.MonotoneIffGrowsByStep | kernel/modules/bore_sched/bore_sched.h:92-116 | For every setting: monotone over all 64-bit burst times if and only if no step goes down among the 256 shortest bursts and among neighbouring logarithms from 2304 on |
| FixedPoint.MonotoneIffNoWrap | kernel/modules/bore_sched/bore_sched.h:107-116 | Closed form of that condition for offsets below 2^23 and moderate scales: the product does not wrap |
| FixedPoint.WrapDrops | kernel/modules/bore_sched/bore_sched.h:113-115 | The first product that wraps falls below the cap right after one at the cap |
| FixedPoint.LongerBurstEscapes | kernel/modules/bore_sched/bore_sched.h:107-116 | Where the product wraps at a moderate scale, some burst is at the cap and a longer one is not |
| FixedPoint.MonotoneIffStaysCapped | kernel/modules/bore_sched/bore_sched.h:107-116 | Closed form for offsets from 9 below 2^23 and scales from 10239 * 1024, where the smallest positive penalty is at the cap: no product of a penalty that can occur wraps to one below the cap |
| FixedPoint.WrapMayHide | kernel/modules/bore_sched/bore_sched.h:113-115 | At the largest scale of all the products wrap and the penalty is monotone all the same |
| FixedPoint.SmoothMeaning | kernel/modules/bore_sched/bore_sched.h:118-125 | A falling penalty is taken at once; a growing one closes the 2^smoothness-th part of the gap, rounded up |
| FixedPoint.SmoothStep | kernel/modules/bore_sched/bore_sched.h:118-125 | A step up is the smallest whole number that covers the gap when taken 2^smoothness times; a value that does not grow is taken as it is |
| FixedPoint.SmoothBetween | kernel/modules/bore_sched/bore_sched.h:118-125 | No overshoot: min(new, old) <= result <= new, with progress until it arrives |
| FixedPoint.SmoothConverges | kernel/modules/bore_sched/bore_sched.h:118-125 | Repeated smoothing arrives: after one step when not growing, at most after as many steps as the gap, and stays |
| FixedPoint.GapHalves | kernel/modules/bore_sched/bore_sched.h:118-125 | At smoothness 1 the gap after n steps is the old gap divided by 2^n, rounded down |
| FixedPoint.FourteenBursts | kernel/modules/bore_sched/bore_sched.h:118-125 | At smoothness 1 fourteen steps close any gap and thirteen do not |
| BurstCache.ReciprocalIsDivision | kernel/modules/bore_sched/bore_sched_main.c:50-56 | For every count up to 63 and every total of that many 16-bit penalties the reciprocal multiplication is exact division, with no 64-bit overflow; the table entry of 1 is 0, hence the special case |
| BurstCache.MeanMeaning | kernel/modules/bore_sched/bore_sched_main.c:77-78 | The mean is the total over the count rounded down, and 0 for no samples |
| BurstCache.ExpiredMeaning | kernel/modules/bore_sched/bore_sched_main.c:67-73 | Expired exactly when the stored time is more than one lifetime ago, in 64-bit arithmetic and, for a time in the past, over the integers |
| BurstCache.ConsultMeaning | kernel/modules/bore_sched/bore_sched_main.c:67-124 | A look-up of an unexpired word changes nothing; of an expired one it stores the time and the larger of the owner's penalty and the mean of the sample |
| BurstCache.PackRoundTrip | kernel/modules/bore_sched/bore_sched.h:43-51 | Timestamp and penalty survive packing into one word, and the word is nothing but them |
| BurstCache.RefreshByReciprocal | kernel/modules/bore_sched/bore_sched_main.c:75-85 | The arithmetic of `update_burst_cache` on the counters of a scan gives the larger of the owner's penalty and the floor mean of the sample |
| BurstCache.RefreshFields | kernel/modules/bore_sched/bore_sched_main.c:79-84 | A refresh stores that penalty and the time without its low 16 bits |
| BurstCache.RefreshAtMost | kernel/modules/bore_sched/bore_sched_main.c:75-85 | A refresh never exceeds a bound on the owner's and the scanned penalties |
| BurstCache.ConsultAtMost | kernel/modules/bore_sched/bore_sched_main.c:102-124 | Neither does what a look-up hands out |
| BurstCache.ConsultTime | kernel/modules/bore_sched/bore_sched_main.c:67-85 | The time a cache carries stays in the past |
| BurstCache.SampleFrom | kernel/modules/bore_sched/bore_sched_main.c:106-117 | Every sampled penalty is that of an eligible task on the list |
| BurstCache.SampleSize | kernel/modules/bore_sched/bore_sched_main.c:106-117 | The sample has as many penalties as there are eligible tasks among the first 126, at most 63 |
| BurstCache.SampleAt | kernel/modules/bore_sched/bore_sched_main.c:106-117 | The k-th sampled penalty is that of the k-th eligible task, which is among the first 126 |
| BurstCache.SumSplits | kernel/modules/bore_sched/bore_sched_main.c:116-117 | The total is additive over the sample |
| BurstCache.ScanStep | kernel/modules/bore_sched/bore_sched_main.c:106-117 | One step of a scan, on its counters |
| BurstCache.ScanDone | kernel/modules/bore_sched/bore_sched_main.c:106-117 | A scan that stopped at either limit or at the end has seen the first 63 eligible among the first 126 tasks |
| BurstCache.FreshnessWindow | kernel/modules/bore_sched/bore_sched_main.c:67-73 | Unexpired means at most one lifetime old; younger than the lifetime by 65535 ns means unexpired |
| BurstCache.LookupByLookup | kernel/modules/bore_sched/bore_sched_main.c:102-124 | A look-up leaves the word it computes, and counts as a rescan exactly when it finds the word expired |
| BurstCache.WordCarriesLastRescan | kernel/modules/bore_sched/bore_sched_main.c:67-85 | After a rescan the word carries the time of the latest one |
| BurstCache.ServedFresh | kernel/modules/bore_sched/bore_sched_main.c:67-124 | Over any run of look-ups an unexpired answer was computed at most one lifetime ago |
| BurstCache.RescansAreSpaced | kernel/modules/bore_sched/bore_sched_main.c:67-124 | n rescans of one cache span at least (n-1)*(lifetime-65534) ns |
| TaskTree.UpInvertsDown | kernel/modules/bore_sched/bore_sched_main.c:141-173 | Corollary where every task but a root is listed: the walk up from e ends at h if and only if h is a hub and e is the chain end below one of h's own children |
| TaskTree.UpInvertsDownIff | kernel/modules/bore_sched/bore_sched_main.c:141-173 | On every well-formed tree, with unlisted threads or without: a childless task e that is no root ends a chain below one of the own children of a hub h (a root, or at least two children) if and only if the walk up from e ends at h and passes only tasks that are on their parent's list |
| TaskTree.ThreadIsNotSampled | kernel/modules/bore_sched/bore_sched_main.c:141-182 | A small tree with a thread on no list, where the walks are not inverse: the thread's walk ends at the root, whose refresh does not sample it |
| TaskTree.CountUpto2 | kernel/modules/bore_sched/bore_sched_main.c:58-65 | Two steps around the circular list count the children, up to two |
| TaskTree.UpMeaning | kernel/modules/bore_sched/bore_sched_main.c:141-149 | The walk up stops at the nearest ancestor, itself included, that is a root or has more children than tolerated: the given number at the start, one from there on |
| TaskTree.DownMeaning | kernel/modules/bore_sched/bore_sched_main.c:167-173 | The walk down stops at the first task, itself included, without exactly one child; every task on the way has exactly one |
| TaskTree.UpStopsAtHub | kernel/modules/bore_sched/bore_sched_main.c:141-149 | The walk up stops at a root or at a task with at least two children, or does not move at all |
| TaskTree.PassedHaveOneChild | kernel/modules/bore_sched/bore_sched_main.c:141-149 | Every ancestor left behind above the start on a path of listed tasks has exactly one child |
| TaskTree.UpDepth | kernel/modules/bore_sched/bore_sched_main.c:146-149 | The walk up climbs exactly as many levels as it passes tasks |
| TaskTree.ClimbChain | kernel/modules/bore_sched/bore_sched_main.c:141-173 | The walk up from the end of a chain leaves the chain at its top |
| TaskTree.ClimbFinds | kernel/modules/bore_sched/bore_sched_main.c:141-173 | Along a path of listed tasks the hub is reached through one of its own children, and walking down from that child leads back to the start |
| TaskTree.CloneParentAgreesIff | kernel/modules/bore_sched/bore_sched_main.c:136-149 | For a task that is no root, the CLONE_PARENT variant finds the same hub if and only if the task has no children |
| TaskTree.ChainIsListed | kernel/modules/bore_sched/bore_sched_main.c:141-173 | From the end of a chain whose top is listed, and the path above it, the walk up passes listed tasks only |
| TaskTree.ChainAncestor | kernel/modules/bore_sched/bore_sched_main.c:167-173 | The task a chain starts at is the ancestor of its end at that depth |
| TaskTree.ChainEndsDiffer | kernel/modules/bore_sched/bore_sched_main.c:158-173 | Different children of one task end different chains |
| TaskTree.ChainEndOnce | kernel/modules/bore_sched/bore_sched_main.c:158-182 | So a hub refresh samples no task twice |
| TaskTree.LeafReturns | kernel/modules/bore_sched/bore_sched_main.c:141-173 | A childless chain end below a hub finds that hub again, also on a tree with unlisted threads |
| BoreHooks.Bore.constructor | kernel/modules/bore_sched/bore_sched_main.c:50-56 | The loop fills the table with the rounded-up reciprocals and leaves entry 0 zero |
| BoreHooks.BoreCtx.Update | kernel/modules/bore_sched/bore_sched_main.c:248-263 | Stores the masked maximum, and reports the new priority exactly when it differs from the old |
| BoreHooks.BoreCtx.RestartBurst | kernel/modules/bore_sched/bore_sched_main.c:265-273 | The context after ending a burst, and the priority it reports exactly when that changed |
| BoreHooks.BoreCtx.Store | kernel/modules/bore_sched/bore_sched_main.c:75-85 | Replaces exactly one cache word by the refreshed one |
| BoreHooks.BoreCtx.Clear | kernel/modules/bore_sched/bore_sched_main.c:355-364 | Zeroes the whole context |
| BoreHooks.FindHub | kernel/modules/bore_sched/bore_sched_main.c:141-149 | The loop over parent pointers ends, at the node the specification names |
| BoreHooks.ChainEnd | kernel/modules/bore_sched/bore_sched_main.c:167-173 | The loop over only children ends, at the chain end |
| BoreHooks.ScanTasks | kernel/modules/bore_sched/bore_sched_main.c:104-117 | The loop with both limits counts and totals exactly the sample, and the 32-bit total does not wrap |
| BoreHooks.ScanChainEnds | kernel/modules/bore_sched/bore_sched_main.c:156-182 | The same over the chain ends of a hub's children |
| BoreHooks.Bore.Refill | kernel/modules/bore_sched/bore_sched_main.c:75-85 | A refresh changes the consulted cache of one task and no other context, and returns what it stored |
| BoreHooks.Bore.Reuse | kernel/modules/bore_sched/bore_sched_main.c:122-124 | An unexpired cache is returned and nothing changes |
| BoreHooks.Bore.RescanList | kernel/modules/bore_sched/bore_sched_main.c:102-124 | The rescan of an expired cache over the children of a parent or the threads of a group stores and returns what the specification says |
| BoreHooks.Bore.InheritFromParent | kernel/modules/bore_sched/bore_sched_main.c:87-125 | Contexts and result are those of consulting the parent's cache over its children; 0 without a parent |
| BoreHooks.Bore.RescanHub | kernel/modules/bore_sched/bore_sched_main.c:154-185 | The rescan of an expired hub cache stores and returns what the specification says |
| BoreHooks.Bore.InheritFromAncestorHub | kernel/modules/bore_sched/bore_sched_main.c:127-188 | Contexts and result are those of consulting the hub's cache over its children's chain ends |
| BoreHooks.Bore.InheritFromThreadGroup | kernel/modules/bore_sched/bore_sched_main.c:190-226 | Contexts and result are those of consulting the leader's group cache over the threads; 0 without a leader |
| BoreHooks.Bore.UpdateCurr | kernel/modules/bore_sched/bore_sched_main.c:275-294 | The context after a tick, and the new priority exactly when it differs from the old; nothing without a task |
| BoreHooks.Bore.DequeueTask | kernel/modules/bore_sched/bore_sched_main.c:296-305 | The burst ends exactly with the scheduler on and DEQUEUE_SLEEP set; otherwise the context stays |
| BoreHooks.Bore.YieldTask | kernel/modules/bore_sched/bore_sched_main.c:311-320 | The burst ends exactly with the scheduler on; otherwise the context stays |
| BoreHooks.Bore.InitEntity | kernel/modules/bore_sched/bore_sched_main.c:355-364 | A new entity has an all-zero context |
| BoreHooks.Bore.SetLoadWeight | kernel/modules/bore_sched/bore_sched_main.c:366-375 | An eligible task gets min(39, static priority - 100 + penalty / 256), within 0..39, and a consistent protected one exactly its static priority; for any other the caller's value stays |
| BoreHooks.Bore.InheritForFork | kernel/modules/bore_sched/bore_sched_main.c:337-342 | Which cache a fork consults: the thread group's, the hub's, the parent's or none |
| BoreHooks.Bore.FinishFork | kernel/modules/bore_sched/bore_sched_main.c:344-351 | The child's context after inheriting; no other context changes |
| BoreHooks.Bore.TaskFork | kernel/modules/bore_sched/bore_sched_main.c:322-353 | All contexts of the system after a fork; none changes with the scheduler off, without a child, or for a child that is idle or of another policy |
| BoreHooks.Bore.Dispatch | kernel/modules/bore_sched/bore_sched_main.c:275-364 | Whatever hook is called on tasks in memory, all contexts become those of the next state of the system and no link changes, so the invariant carries over |
| SwapFile.PreparedFullIff | config/ramplus/ax_ram_plus_setup.cpp:209-228 | For every file, with whatever holes: the preparation leaves no hole if and only if it rewrites from the start or the preserved part had none |
| SwapFile.HoleSurvives | config/ramplus/ax_ram_plus_setup.cpp:224-226 | A file with a hole in front of an allocated block keeps the hole |
| SwapFile.PrefixIsEnough | config/ramplus/ax_ram_plus_setup.cpp:224-226 | If the allocated blocks come first, the shortcut always gives a full file of the requested size and allocates only what is missing |
| SwapFile.FullIsPrepared | config/ramplus/ax_ram_plus_setup.cpp:220-228 | A file of the requested size without holes is exactly what the preparation leaves |
| SwapFile.WriteStartMeaning | config/ramplus/ax_ram_plus_setup.cpp:224-225 | Writing starts behind what stays of the file where that much is allocated, and at 0 otherwise |
| SwapFile.PrefixByCount | config/ramplus/ax_ram_plus_setup.cpp:209-211 | The allocated blocks come first if and only if block i is allocated exactly for i below the count |
| SwapFile.CountIsSize | config/ramplus/ax_ram_plus_setup.cpp:209-211 | As many allocated blocks as the size holds means no hole |
| SwapFile.ResizeShape | config/ramplus/ax_ram_plus_setup.cpp:220-223 | Truncating keeps the shape and the smaller of both counts |
| SwapFile.FillShape | config/ramplus/ax_ram_plus_setup.cpp:175-186 | Writing from inside or right behind the allocated part keeps the shape, wherever it stops |
| RamPlusWorld.AcceptedMeansOff | config/ramplus/ax_ram_plus_setup.cpp:271-277 | Taking EINVAL and ENOENT of `swapoff` for success is right if and only if an active swap has a file |
| RamPlusWorld.KilledAt | config/ramplus/ax_ram_plus_setup.cpp:306-377 | A good history is good up to every point, so a kill between any two changes leaves a good state |
| RamPlusWorld.FaultSince | config/ramplus/ax_ram_plus_setup.cpp:271-302 | Where the tally of failures of a kind has grown, a recorded call of that kind has failed since |
| RamPlusWorld.FaultCounts | config/ramplus/ax_ram_plus_setup.cpp:271-302 | And every recorded failure since shows in the tally |
| RamPlusWorld.StillDid | config/ramplus/ax_ram_plus_setup.cpp:306-377 | What the record shows of an earlier part of a run, a longer record still shows |
| RamPlusWorld.SpaceIsSafe | config/ramplus/ax_ram_plus_setup.cpp:158-173 | Over a whole history no block of /data is lost or made, and free space never falls below the smaller of the start and the reserve |
| RamPlusWorld.SwapOffIsGood | config/ramplus/ax_ram_plus_setup.cpp:271-277 | Every outcome of `swapoff` keeps the invariant; every accepted one leaves the swap off |
| RamPlusWorld.UnlinkIsGood | config/ramplus/ax_ram_plus_setup.cpp:279-285 | Unlinking keeps the invariant when the swap is off |
| RamPlusWorld.OpenIsGood | config/ramplus/ax_ram_plus_setup.cpp:189-194 | Opening or creating the file keeps the invariant |
| RamPlusWorld.TruncateIsGood | config/ramplus/ax_ram_plus_setup.cpp:220-223 | Truncating keeps the invariant when the swap is off |
| RamPlusWorld.ResizeSuffices | config/ramplus/ax_ram_plus_setup.cpp:220-223 | No truncation runs out of space |
| RamPlusWorld.WriteIsGood | config/ramplus/ax_ram_plus_setup.cpp:175-186 | A write that stops anywhere keeps the invariant and the reserve, given room and the swap off |
| RamPlusWorld.RoomSuffices | config/ramplus/ax_ram_plus_setup.cpp:212-228 | After the space check no write runs out of space |
| RamPlusWorld.FormatIsGood | config/ramplus/ax_ram_plus_setup.cpp:236-258 | Formatting keeps the invariant when the swap is off |
| RamPlusWorld.SwapOnIsGood | config/ramplus/ax_ram_plus_setup.cpp:356-359 | Activating a file without holes keeps the invariant |
| RamPlusSetup.FindLowestZramPriority | config/ramplus/ax_ram_plus_setup.cpp:110-119 | None exactly when no entry is a zram device, otherwise the minimum over them |
| RamPlusSetup.ZramPaths | config/ramplus/ax_ram_plus_setup.cpp:113-115 | A zram device is an entry whose path starts with one of the two prefixes |
| RamPlusSetup.ReadSwapEntries | config/ramplus/ax_ram_plus_setup.cpp:88-108 | What a reading of `/proc/swaps` hands out is recorded, and shows the swapfile as it is |
| RamPlusSetup.WaitForZramPriority | config/ramplus/ax_ram_plus_setup.cpp:121-132 | The answer of the first list read that has a zram device, or None after sixty lists read without; the lists are those the record of calls holds |
| RamPlusSetup.PublishStatus | config/ramplus/ax_ram_plus_setup.cpp:79-86 | Sets the size and then the status, the second also if the first failed; true exactly if both succeeded; touches nothing else |
| RamPlusSetup.HasAllocationSpace | config/ramplus/ax_ram_plus_setup.cpp:158-173 | True exactly when nothing is missing or what is missing fits above the 4096 MiB reserve; None when that cannot be read |
| RamPlusSetup.WriteZeroes | config/ramplus/ax_ram_plus_setup.cpp:175-186 | Success leaves no hole; a stop anywhere leaves allocated blocks first; the writes start at the given offset, in pieces of at most 4 MiB; it fails exactly when a write failed, never for lack of space |
| RamPlusSetup.Allocate | config/ramplus/ax_ram_plus_setup.cpp:220-233 | From `ftruncate` to `fsync`: success leaves a synced file of the size without holes; a failure is that of a call |
| RamPlusSetup.VerdictMeaning | config/ramplus/ax_ram_plus_setup.cpp:201-219 | A file that is not regular is refused; otherwise nothing may be missing, or what is missing must fit above 4 GiB of free space |
| RamPlusSetup.Admit | config/ramplus/ax_ram_plus_setup.cpp:189-219 | From `open` to the space check: on success the file was opened, inspected and given its mode, in this order, and there is room; nothing is written |
| RamPlusSetup.PrepareSwapFile | config/ramplus/ax_ram_plus_setup.cpp:188-234 | Success leaves, synced, exactly the file of `SwapFile.Prepared`, of the requested size without holes, after opening it, inspecting it and setting its mode, with writes from `SwapFile.WriteStart` on; a refusal means the space was short; a file that already occupies the request costs no block; each result names its cause: kind, occupied blocks and free space if no call failed, otherwise the call that did |
| RamPlusSetup.EnsureDataDirectory | config/ramplus/ax_ram_plus_setup.cpp:134-156 | Succeeds exactly when no call fails and there is no other kind of file in the way; then the directory exists and the last call set its mode |
| RamPlusSetup.RunMkswap | config/ramplus/ax_ram_plus_setup.cpp:236-258 | One call of mkswap, whose result it returns; only the signature of the file changes |
| RamPlusSetup.ActivateSwap | config/ramplus/ax_ram_plus_setup.cpp:356-359 | Success means the swap is active and recorded; it fails exactly when `swapon` fails for a reason of its own; the file must have no hole |
| RamPlusSetup.FindRamPlusSwap | config/ramplus/ax_ram_plus_setup.cpp:260-269 | The swap as the kernel has it, or None exactly when the list cannot be read |
| RamPlusSetup.DisableSwap | config/ramplus/ax_ram_plus_setup.cpp:271-277 | Success means the swap is off and nothing else changed; it fails exactly when `swapoff` fails for another reason than the accepted ones |
| RamPlusSetup.RemoveSwapFile | config/ramplus/ax_ram_plus_setup.cpp:279-285 | Success means the file is gone; it fails exactly when `unlink` fails for another reason than a missing file |
| RamPlusSetup.Fail | config/ramplus/ax_ram_plus_setup.cpp:287-290 | Exit code 1, size 0 and the status published, or a property call failed |
| RamPlusSetup.FailPreparedSwap | config/ramplus/ax_ram_plus_setup.cpp:292-294 | The file is gone, or this `unlink` failed and the status says `file_error` |
| RamPlusSetup.FailActiveSwap | config/ramplus/ax_ram_plus_setup.cpp:296-302 | The swap is off and the file handled as above, or this `swapoff` failed and the status says `swapoff_failed` with the size handed in |
| RamPlusSetup.UndoReasonMeaning | config/ramplus/ax_ram_plus_setup.cpp:361-373 | Why an activation is undone: an unreadable list or a size above the requested one or more than 1 MiB below it, else a priority not below zram's, else a failure to publish |
| RamPlusSetup.CheckedMeaning | config/ramplus/ax_ram_plus_setup.cpp:361-376 | Without a failing call the swap stays exactly if its size and priority are in range |
| RamPlusSetup.VerifyActive | config/ramplus/ax_ram_plus_setup.cpp:361-376 | Exit 0 only with size and priority in range and published; otherwise the reason is decided by the reading, the size, the priority and the publishing, and what stays behind by the `swapoff` or `unlink` that failed; over a stuck swap the size published is its own, or the requested one if the list was not readable |
| RamPlusSetup.MakeSwap | config/ramplus/ax_ram_plus_setup.cpp:341-359 | From the preparation to `swapon`: an active swap over a full file after the mode, the sync and the format, or a status with the call or the state that explains it |
| RamPlusSetup.HinderedIsCaused | config/ramplus/ax_ram_plus_setup.cpp:341-359 | Such a status, after the removal of the file, is the reason of the run and has its cause |
| RamPlusSetup.PrepareAndActivate | config/ramplus/ax_ram_plus_setup.cpp:341-376 | After every failure from the preparation on the file is gone and the swap off, unless an `unlink` or a `swapoff` of this very part failed; every reason given has its cause, a failed call, the file, the free space or the swap that was activated; if no call fails and the file and the space allow it, the swap is activated and stays active if and only if its size and priority are in range |
| RamPlusSetup.Replace | config/ramplus/ax_ram_plus_setup.cpp:334-376 | The same from the first `swapoff` on, with `swapoff_failed` exactly when a `swapoff` failed |
| RamPlusSetup.Arrange | config/ramplus/ax_ram_plus_setup.cpp:330-376 | The same from the wait for zram on; refused exactly when all sixty lists read have no zram device |
| RamPlusSetup.RefusalMeaning | config/ramplus/ax_ram_plus_setup.cpp:306-333 | Which runs are refused and with which reason, in terms of support, size (0, 2048, 4096, 6144, 8192), encryption and the lists read |
| RamPlusSetup.Disable | config/ramplus/ax_ram_plus_setup.cpp:317-325 | Size 0 ends with the swap off and the file gone, or exactly the call failed that the outcome names |
| RamPlusSetup.ReportedSize | config/ramplus/ax_ram_plus_setup.cpp:79-86 | The published size is positive just when a swap is active, but for runs that leave an earlier swap active |
| RamPlusSetup.Setup | config/ramplus/ax_ram_plus_setup.cpp:306-377 | Every call of a run is good (no truncation, write, format or unlink under an active swap; allocated blocks first; blocks conserved; reserve kept); which runs are refused is decided by the inputs and the lists read, and no other run of a nonzero size goes on without support, encryption and an allowed size; every other run ends in one of the listed outcomes with its exit code, world, status and cause; a run that gets to the file opens it right after setting the mode of its directory, and activates it only after its own mode, sync and format; whatever is left behind or unpublished is so because a recorded call of this run failed; with no failing call but polls, the inputs, the world, the lists read and the swap the kernel made decide the outcome, and the published size is untrue exactly when a refused run leaves an earlier swap active |
| RamPlusSetup.Lifetime | config/ramplus/ax_ram_plus_setup.cpp:306-377 | All this over any number of runs with kills and reboots; blocks of /data are conserved and the reserve survives |

## Left out

- MonotoneIffNoWrap: a closed form for offsets below 2^23 and scales up to 10484736 (1864135 for offsets below 9); beyond, wrapping and losing monotonicity come apart, as `FixedPoint.WrapMayHide` shows. The condition for all settings is `FixedPoint.MonotoneIffGrowsByStep`.
- MonotoneIffStaysCapped: a closed form for offsets from 9 to 2^23 and scales from 10484736; the same condition covers the rest.
- SmoothMeaning: for smoothness 32 and above the C shift is undefined and the model says nothing; the same goes for every result that requires `ShiftDefined`.
- CacheOverRuns: runs that initialise the owner of the cache again are excluded, since that clears the cache.
- Lifetime: a kill falls between two recorded calls; a write interrupted half-way is one of the outcomes of a write.
- ConsistentIffSound: about tasks that are not protected, and with `sched_bore` on; a protected task has penalty 0 in any case (`BurstState.MaskedMaxMeaning`).
- ScanTasks: models the two scans that differ only in the list, over children and over threads.
- RCU, READ_ONCE and WRITE_ONCE ordering, and concurrent hooks: each hook is one atomic step.
- Changes of settings, static priority and flags in mid-run: the code does not re-establish consistency then.
- Tracepoint registration, sysctl, /proc, module init and exit, `bore_hooks_active`: straight-line glue.
- `stop_update` and `futex_waiting` are carried and cleared, but nothing in the repository sets them.
- `list_first_or_null_rcu` returning null inside the chain walk, which needs a list that changes between two reads.
- Partial blocks: sizes and offsets are whole blocks of 4096 bytes, as every allowed size and chunk is.
- `st_blocks` is taken to count data blocks only: no metadata, copy-on-write or compression, and no other writer on /data or on the swap path.
- Power loss: what was written is there after a reboot; `fsync` may fail but loses nothing.
- `mkswap` internals, fork, exec and waitpid: one call that may or may not leave a signature.
- Parsing of `/proc/swaps` and of the size property, logging, and the sleep between polls: a list of entries, an optional number, nothing.
- `config/ramplus/lmkd`, `kernel/modules/latency_sched` and `kernel/modules/ax_dragonite`: they would add easy members.
