# Verified models of vgpu-manager's decision code

A Dafny 4.11 model of the parts of vgpu-manager that decide things without calling a
driver: the tables that track handles and virtual memory, the controller that sizes a
container's compute share, the seqlock that publishes device quotas, the pid list of a
remote session, array sizing, cgroup ownership, and lease-based leadership. Each part is
modelled in the form the source gives it (arrays and linked nodes updated in place,
loops, pure arithmetic, or a state machine over interleaved steps) and proved against a
specification that says what it is for.

`dafny verify dfyconfig.toml` checks everything.

| file | models |
|---|---|
| SlotCells.dfy, SlotHash.dfy, SlotTable.dfy | the open-addressing handle table |
| IntegerRoot.dfy, DeltaStep.dfy, DeltaControl.dfy, DeltaLaws.dfy | the share-update step and control cycle, over unbounded integers, and what each branch computes |
| DeltaMachine.dfy | the same cycle in checked 32-, 64- and 128-bit arithmetic, the token bucket's bounds, the launch charge |
| DeltaEstimate.dfy, DeltaEstimateRuns.dfy, DeltaPeriod.dfy, DeltaEstimateFits.dfy, DeltaWindow.dfy, DeltaEstimateLaws.dfy, DeltaEstimator.dfy | the sample-driven estimator: as a function, over runs, its period detection, its widths, which cycles a sample is paired with in absolute time, what each cycle computes, and in place |
| Seqlock.dfy, DeviceOrder.dfy | the config seqlock and the container's device numbering |
| VmemTable.dfy | the chained virtual-memory record table |
| PidText.dfy, SessionPids.dfy, PidReader.dfy | the text of pids.config, its updates, and the reader that may race them |
| ArraySize.dfy | CUDA array sizing |
| CgroupMatch.dfy | cgroup path matching |
| LeaseDetector.dfy | the lease detector |
| Arith.dfy, Common.dfy | integer and map facts used by the others |

How things outside the code appear: allocation success, the clock, the liveness of a pid,
a record predicate and sample timestamps are arguments that may take any value. The slot
table is proved for every hash that stays in range, and the shipped hash is shown to be
one. Machine widths are explicit wherever they matter: 64-bit wrap in the hashes, 32-bit
wrap of the sequence word, of times and of the ring head, and every C intermediate of the
control cycle.

Where the code and its comments, tests or promises part, the model follows the code and
states exactly when the promise holds:

- The step is written for any pool below 2^40 tokens. Three things can still wrap, and
  `ControlFits` says exactly when: share + backlog + 1 in a mild cut, against a bucket
  within a share of the largest 64-bit value (`BacklogCanWrap`; a bucket under its own
  ceiling rules it out, `CeilingRulesOutWrap`); share or pool times the error, on a
  reading far over the target (`ErrorCanWrap`; `PoolRulesOutWrap` says which errors a
  pool has room for); and 100 - target, on a target near the smallest int.
- Readings are called per cent, but the caller sums engines and processes and does not
  clamp. Every result here is for readings up to any bound; the window sum of the
  estimator fits 32 bits exactly up to 204541 (`SampleFits`, `SampleCanWrap`).
- A share of 0 is promised to grow on every pool. It does exactly from ten tokens on
  (`NoBootstrapDeadlock`).
- The headroom cap is said to be at most twice the consumption. At a saturated limit it
  can be one token more (`CapFollowsDemand`, `ControlFollowsDemand` and
  `RunFollowsDemand` with `SaturatedRunExceeds` give the exact condition).
- The one-token trim is said to close the dead zone near the target. What is left of it
  is exactly what a backlog explains (`CutsExactly`).
- Twelve bytes per entry are said to hold any list of ints. A full list of
  eleven-character numbers, and nothing else, is refused for want of the final NUL
  (`RenderRefusesOnly`).
- A reader between the write and the truncation of pids.config is said to see, after the
  new list, stale pids of the old one. It does exactly when the new text does not end
  inside the digits of an old pid, trailing zeros aside (`StaleIsOld`); otherwise it sees
  a number made of the last digits of one (`ReadMidWrite`, `LeftoverCanInvent`).
- The seqlock reader is safe for fewer than 2^31 updates between its two loads; at
  exactly 2^31 a torn snapshot is returned (`SnapshotIsCommitted`, `TornAfterWrap`).
- `IsLeader` is documented as deadline > now; the code accepts equality. `IsLeader()` and
  `isLeader` part exactly when the deadline lies between the clock of the last update and
  now, in either order (`IsLeaderExact`): the lease expired since (`ExpiryIsSilent`), or
  the wall clock went back across it (`ClockSetBack`).
- A launch charge is the thread count capped at the maximum unless a partial product
  saturates before a zero dimension (`LaunchTokensExact`).

## Model

| member | source | states |
|---|---|---|
| SlotCells.UsedSetSize | library/include/slot_table.h:71-78 | `count` is the number of used cells and of records alike |
| SlotCells.EmptyCellExists | library/include/slot_table.h:132-133 | fewer records than cells leaves an empty cell, the one that ends every probe and every shift |
| SlotCells.ProbeMiss | library/include/slot_table.h:95-103 | reaching an empty cell on the probe of a key settles that the key is nowhere in the table |
| SlotCells.PlaceKeeps | library/include/slot_table.h:134-139 | a new record in the first empty cell of its probe keeps every record reachable, unique and unchanged |
| SlotCells.ShiftingStarts | library/include/slot_table.h:146-151 | emptying a cell removes exactly its key and leaves the state the shift loop repairs |
| SlotCells.ShiftingMoves | library/include/slot_table.h:155-158 | moving a cell whose home is at or before the hole, wrap-around included, carries the hole forward |
| SlotCells.ShiftingSkips | library/include/slot_table.h:154-159 | a cell whose home lies past the hole stays and its probe avoids the hole |
| SlotCells.MoveKeepsRecords | library/include/slot_table.h:156-157 | a move loses, changes and duplicates no record |
| SlotCells.ShiftingEnds | library/include/slot_table.h:151-160 | at the first empty cell no probe run is broken |
| SlotHash.HomeInsideTable | library/include/slot_table.h:83-88 | the 64-bit Fibonacci hash keeping the high bits stays inside every power-of-two table |
| SlotTable.RefusedOnlyWhenFull | library/include/slot_table.h:45-47 | a key stays out exactly when absent, growth was refused and one empty cell was left |
| SlotTable.InsertLaw | library/include/slot_table.h:105-143 | the cells double if and only if a new key would pass 70 per cent and the doubling is allowed and gets its memory; the key comes in if and only if a cell then stays empty; nothing else changes |
| SlotTable.LoadStaysLow | library/include/slot_table.h:35-36 | while growth is not refused the load stays at or below 70 per cent and every insert succeeds |
| SlotTable.Lookup | library/include/slot_table.h:97-102 | the probe stops at the key or at the first empty cell of its run |
| SlotTable.FirstEmpty | library/include/slot_table.h:135-136 | the placement probe ends at the first empty cell of the key's run |
| SlotTable.ShiftBack | library/include/slot_table.h:146-162 | the back-shift loop terminates, leaves a well-formed table of the remaining records, and brings below the hole only records that were below it |
| SlotTable.Create | library/include/slot_table.h:80-81 | a statically initialised table is a valid empty one |
| SlotTable.Table.Find | library/include/slot_table.h:94-103 | lookup in the abstract map, absence and key 0 included |
| SlotTable.Table.Rehash | library/include/slot_table.h:110-117 | the new cells hold exactly the old records, all reachable |
| SlotTable.Table.Grow | library/include/slot_table.h:105-122 | doubling keeps the map; refused or failed growth changes nothing |
| SlotTable.Table.Place | library/include/slot_table.h:134-142 | a new record is zero-filled and adds exactly its key |
| SlotTable.Table.Insert | library/include/slot_table.h:124-143 | insert-if-absent on the abstract map, the created flag, and refusal, all as the specification machine |
| SlotTable.Table.Remove | library/include/slot_table.h:145-162 | removes exactly the given record from the map |
| SlotTable.Table.RetireIf | library/include/slot_table.h:164-181 | terminates although removals move records past the sweep; leaves exactly the declined records and returns how many went |
| SlotTable.Table.Abandon | library/include/slot_table.h:183-192 | a usable empty table |
| SlotTable.Run | library/include/slot_table.h:95-192 | every run of operations, with any allocation failures, keeps the invariant and agrees with the abstract machine |
| IntegerRoot.IsqrtBits | library/include/sm_delta.h:152-168 | the bit-by-bit root is the exact integer square root of every 64-bit value, with no intermediate overflow |
| DeltaStep.StepDirection | library/include/sm_delta.h:173-261 | growing never takes share away and is capped; cutting never adds and never goes below 0 |
| DeltaStep.StepInRange | library/include/sm_delta.h:173-261 | from any share in [0, cap] to a share in [0, cap] |
| DeltaStep.MildStepBounds | library/include/sm_delta.h:242-260 | a mild cut is at most the proportional part of share, or one token |
| DeltaStep.NoBootstrapDeadlock | library/include/sm_delta.h:182-222 | from share 0 an under-target reading makes progress if and only if the pool has ten tokens |
| DeltaStep.StepAntitone | library/include/sm_delta.h:173-261 | a higher reading never yields a larger next share, across all branches, for any two readings short of a negative one against a starved zero |
| DeltaStep.StepNotAntitoneBelowZero | library/include/sm_delta.h:208-214 | there it fails: the escape opens at 0 only |
| DeltaStep.BucketDamps | library/include/sm_delta.h:200-260 | a fuller bucket never enlarges a grow and never deepens a cut |
| DeltaLaws.BootLaw | library/include/sm_delta.h:191-199 | a first cycle below it jumps to the largest number within a 6400th of pool times target and a 64th of the pool |
| DeltaLaws.GrowLaw | library/include/sm_delta.h:182-222 | the exact grow: the largest whole share of the error by damping 6, or 4 off a dry bucket, at least the seed, at least the root in an escape, at most a tenth, within the cap |
| DeltaLaws.BlowoutLaw | library/include/sm_delta.h:224-240 | the exact blowout cut: share of the error by damping 6, at least the seed and the ramp, at most the cap, not below 0 |
| DeltaLaws.MildLaw | library/include/sm_delta.h:242-260 | the exact mild cut: by cause against the backlog or by error in per cent, one token if both vanish and the backlog is below share |
| DeltaControl.CapFollowsDemand | library/include/sm_delta.h:282-300 | the cap is at most pool, share and twice the consumption, with the exact exception |
| DeltaControl.CapKeepsShare | library/include/sm_delta.h:284-300 | the cap never drops below the pool or the share held, and an idle cycle raises neither |
| DeltaLaws.CapLaw | library/include/sm_delta.h:292-300 | the cap is the largest of pool, share and twice the consumption within 65536 pools, with its one exception |
| DeltaControl.ObservedCut | library/include/sm_delta.h:313-376 | an observed cut leaves at most the share that would have held the target at the measured rate |
| DeltaLaws.SurplusLaw | library/include/sm_delta.h:351-369 | the cut fires exactly under its five gates, written out in readings, consumption and bucket |
| DeltaLaws.ObserveLaw | library/include/sm_delta.h:351-389 | a cycle drains exactly then, and its share is the largest that at the measured rate would not have passed the target, or the step if smaller |
| DeltaLaws.ObservedCutExact | library/include/sm_delta.h:370-375 | an observed cut is no deeper than that: one token more would have passed the target |
| DeltaControl.ControlInRange | library/include/sm_delta.h:381-389 | share stays within 65536 pools |
| DeltaControl.ControlFollowsDemand | library/include/sm_delta.h:292-389 | on every pool one cycle stays within the pool, the old share and twice the consumption, if and only if it does not reach a saturated cap |
| DeltaControl.ControlAntitone | library/include/sm_delta.h:351-389 | the whole cycle, observed cut included, is antitone in utilization |
| DeltaControl.RunInRange | library/include/sm_delta.h:292-389 | over any run share stays within 65536 pools |
| DeltaControl.RunFollowsDemand | library/include/sm_delta.h:292-389 | over any run on any pool share is bounded by the pool, its start and twice the largest consumption, unless the cap saturates |
| DeltaControl.SaturatedRunExceeds | library/include/sm_delta.h:293-295 | when it saturates, one cycle exceeds that bound, by one token |
| DeltaControl.IdleRunStaysInPool | library/include/sm_delta.h:282-289 | on every pool a run of cycles under half a pool never winds share up past the pool |
| DeltaControl.GrowRun | library/include/sm_delta.h:190-222 | an under-target run grows share by a token a cycle until the pool: no deadlock |
| DeltaControl.CutsExactly | library/include/sm_delta.h:224-260 | an over-target cycle lowers share if and only if it is a blowout, the backlog is below share, a proportional term survives its scaling, or the observed cut fires; otherwise share holds |
| DeltaControl.CutRun | library/include/sm_delta.h:224-260 | a starved over-target run drains share to 0 within share cycles |
| DeltaMachine.StepFits | library/include/sm_delta.h:173-261 | for every reading and target the checked 64-bit step equals the unbounded one, overflowing if and only if the backlog sum or a product with the error does |
| DeltaMachine.ControlFits | library/include/sm_delta.h:292-389 | for pools below 2^40 and every reading and target the checked cycle equals the unbounded one, overflowing if and only if one of the three named terms does |
| DeltaMachine.BacklogCanWrap | library/include/sm_delta.h:248-250 | a concrete state in which the backlog sum wraps |
| DeltaMachine.ErrorCanWrap | library/include/sm_delta.h:226-226 | a concrete state, on a reading of 145, in which the product wraps and the backlog sum does not |
| DeltaMachine.PoolRulesOutWrap | library/include/sm_delta.h:370-373 | an error that the pool's headroom limit has room for, and any up to 127, never wraps a product |
| DeltaMachine.CeilingRulesOutWrap | library/include/sm_delta.h:687-703 | a bucket under its ceiling never wraps the step |
| DeltaMachine.CeilingLaw | library/include/sm_delta.h:687-703 | the bucket holds two cycles of share, at least a token, saturating |
| DeltaMachine.DebtLaw | library/include/sm_delta.h:691-708 | a launch may overdraw by a hundred cycles of share while those fit half the range |
| DeltaMachine.LaunchNeverWraps | library/include/sm_delta.h:691-726 | the dearest launch charged to the deepest debt stays in 64 bits if and only if twice share leaves room for it |
| DeltaMachine.LaunchTokensExact | library/include/sm_delta.h:722-745 | the charge is the thread count capped, if and only if no partial product saturates ahead of a zero |
| DeltaMachine.LaunchProductsFit | library/include/sm_delta.h:730-743 | 32-bit dimensions never overflow the 128-bit product |
| DeltaEstimateRuns.SampleTakenBounds | library/include/sm_delta.h:499-527 | on readings up to any bound a sample keeps the window, the reading sum and the smoothed period in range, the period positive once set |
| DeltaEstimateRuns.EstControlKeeps | library/include/sm_delta.h:480-674 | every cycle keeps the invariant and the headroom limit; a closing window spans positive time and reads within the bound of its readings |
| DeltaEstimateRuns.EstRunKeeps | library/include/sm_delta.h:480-674 | over every run from any valid state the invariant and the limit hold |
| DeltaEstimateRuns.EveryRunKeeps | library/include/sm_delta.h:480-674 | in particular from the zero-initialised state |
| DeltaEstimateRuns.WeightBounds | library/include/sm_delta.h:575-584 | a record's weight is between 0 and 1000 thousandths |
| DeltaEstimateRuns.WindowSumsWithin | library/include/sm_delta.h:557-598 | starved_den <= active_den <= den, and the sums lie between the extremes of the overlapped consumption |
| DeltaEstimateRuns.MeanBetween | library/include/sm_delta.h:599-601 | both means lie between the least and the greatest overlapped consumption |
| DeltaEstimateRuns.RoundedNearest | library/include/sm_delta.h:599-601 | rounding is to the nearest |
| DeltaEstimateRuns.EstimateAtMost | library/include/sm_delta.h:613-630 | no estimate exceeds what the heaviest overlapped cycle needs at the window's reading |
| DeltaEstimateRuns.UniformWindow | library/include/sm_delta.h:542-638 | a window of uniform consumption is answered in one step by consumption * target / reading, constrained or not |
| DeltaEstimateRuns.WindowSumsOnOff | library/include/sm_delta.h:572-597 | in a window of idle cycles and cycles that hit a share, only the latter count as active and carry the sums |
| DeltaEstimateRuns.OnOffWindow | library/include/sm_delta.h:602-630 | such a window is sized by that share against the reading over active time, which is no lower than the window's |
| DeltaEstimateRuns.IdleCancels | library/include/sm_delta.h:602-629 | idle cycles neither inflate nor dilute: the window gets the share one without idle cycles gets at its active reading |
| DeltaEstimateRuns.DeadBeat | library/include/sm_delta.h:401-413 | on a load with a fixed cost per utilization point one window reaches exactly the share that holds the target |
| DeltaEstimateRuns.SteadyCycle | library/include/sm_delta.h:480-674 | a cycle that consumes its share and reads its target changes nothing, window closing or not, sliding or discrete |
| DeltaEstimateRuns.SteadyRun | library/include/sm_delta.h:480-674 | over any such run, whatever the clocks do, share never moves |
| DeltaPeriod.PeriodClosesIn | library/include/sm_delta.h:512-521 | the smoothed period approaches a constant gap geometrically, without overshooting |
| DeltaPeriod.PeriodIsFound | library/include/sm_delta.h:512-525 | from any state a constant gap is found to within two milliseconds after 34 samples, through re-adoption if need be |
| DeltaPeriod.PeriodCanStayOff | library/include/sm_delta.h:519-521 | an error of two milliseconds can persist |
| DeltaPeriod.PacedCycle | library/include/sm_delta.h:499-527 | a cycle touches the period only through a fresh sample |
| DeltaPeriod.RunFindsPeriod | library/include/sm_delta.h:397-399 | over any run with 34 equally spaced samples, however often each is seen, the period is detected |
| DeltaEstimateFits.SampleFits | library/include/sm_delta.h:450-453 | on readings up to 204541 every 32-bit intermediate of a sample fits |
| DeltaEstimateFits.SampleCanWrap | library/include/sm_delta.h:510-511 | past that bound the window sum can overflow |
| DeltaEstimateFits.SumsFit | library/include/sm_delta.h:557-601 | with 64-bit consumption the sums stay in 64 and 128 bits and the means in 64, for any number of spans |
| DeltaEstimateFits.EstimateFits | library/include/sm_delta.h:616-630 | every dividend of the sizing stays in 128 bits and the active reading is positive |
| DeltaEstimateFits.RingFits | library/include/sm_delta.h:488-498 | over every run the ring holds 64-bit consumption only |
| DeltaEstimateFits.DropFits | library/include/sm_delta.h:648-655 | a demand drop leaves between one token and what the cycle consumed |
| DeltaWindow.SpanIsOver | library/include/sm_delta.h:566-598 | the backward walk over wrapped 32-bit stamps, with its early stop, adds exactly the entries of the log weighted by their overlap with the span in absolute time |
| DeltaWindow.DiscreteSums | library/include/sm_delta.h:543-567 | a discrete reading is paired with the cycles over (winTs, sampleTs] and no others |
| DeltaWindow.SlidingSums | library/include/sm_delta.h:549-571 | a sliding reading is paired, for each of the nearest whole number of periods, with the cycles over the time it averages |
| DeltaWindow.DiscreteWindow | library/include/sm_delta.h:543-638 | if the cycles reaching into the window consumed alike, whatever the others did, share is consumption times target over reading to the nearest token |
| DeltaWindow.SlidingWindow | library/include/sm_delta.h:549-638 | the same over the spans of a sliding window |
| DeltaEstimateLaws.CycleKeeps | library/include/sm_delta.h:487-498 | after any cycle the ring holds the last sixteen cycles with their times, consumption and whether they wanted more |
| DeltaEstimateLaws.RunKeepsLog | library/include/sm_delta.h:487-498 | and so over every run |
| DeltaEstimateLaws.SampleLaw | library/include/sm_delta.h:499-527 | what a sample adds to the window and makes of the period, by the gap in absolute time |
| DeltaEstimateLaws.WindowElapses | library/include/sm_delta.h:509-511 | over any samples the window is as long as the time that passed and its sum is every reading for as long as it stood |
| DeltaEstimateLaws.ClosesExactly | library/include/sm_delta.h:528-548 | a window closes exactly at half a second, or at a starved zero of container and device |
| DeltaEstimateLaws.QuietCycle | library/include/sm_delta.h:499-503 | no new sample, or the first, closes none |
| DeltaEstimateLaws.SizeLaw | library/include/sm_delta.h:599-638 | the share a closing window asks for in every case: constrained, by the mean, on a starved zero, or none |
| DeltaEstimateLaws.DropLaw | library/include/sm_delta.h:641-662 | the second cycle below a quarter of the estimate's consumption takes share to consumption times target per cent to the nearest token |
| DeltaEstimateLaws.HoldLaw | library/include/sm_delta.h:663-673 | any other cycle holds share or takes a control step, and exactly when which |
| DeltaEstimateLaws.DiscreteCycle | library/include/sm_delta.h:480-638 | one whole cycle on discrete readings, from the log in absolute time to the new share |
| DeltaEstimateLaws.SlidingCycle | library/include/sm_delta.h:480-638 | one whole cycle on sliding readings |
| DeltaEstimator.Estimator.AddSpan | library/include/sm_delta.h:572-597 | the backward walk with its break and skips accumulates the specified sums |
| DeltaEstimator.Estimator.AddWindow | library/include/sm_delta.h:557-598 | the span loop accumulates the specified sums |
| DeltaEstimator.Estimator.CloseWindow | library/include/sm_delta.h:542-639 | closing divides by a positive window and sizes the specified share |
| DeltaEstimator.Estimator.ControlAvg | library/include/sm_delta.h:480-674 | one cycle in place, on any reading, refines the specified one and keeps the invariant and the limit |
| Seqlock.InvStep | library/src/config_io.c:203-235 | every step of reader and writer keeps the protocol invariant |
| Seqlock.SnapshotIsCommitted | library/src/config_io.c:194-235 | over all interleavings a returned snapshot is one whole committed state, the one current on return |
| Seqlock.ReaderExits | library/src/config_io.c:180-234 | the reader takes at most one attempt per allowed spin and one locked copy, whatever the writers do |
| Seqlock.ReaderNeverStuck | library/src/config_io.c:200-234 | until it returns the reader can always move, short of waiting for a writer's lock |
| Seqlock.TornAfterWrap | library/include/hook.h:320-323 | 2^31 updates between the loads do return a torn snapshot |
| DeviceOrder.ActivatedExactly | library/src/config_io.c:237-247 | the visible order is strictly ascending and lists exactly the activated devices |
| DeviceOrder.AllowedDevices | library/src/config_io.c:248-265 | the buffer holds the first of them, then -1, and nothing else changes |
| DeviceOrder.AllowedDeviceAt | library/src/config_io.c:267-280 | the device at a visible index, -1 past the end |
| DeviceOrder.VisibleIndexOf | library/src/config_io.c:282-297 | the visible index of a device, -1 when it is not visible |
| DeviceOrder.NumberingsInverse | library/src/config_io.c:267-297 | the two are mutual inverses on the active devices and -1 everywhere else |
| VmemTable.PrependKeeps | library/include/vmem_table.h:122-136 | linking in a node under an absent key adds that key, in its bucket, and one to the count |
| VmemTable.UnfileKeeps | library/include/vmem_table.h:138-158 | taking a node off its chain removes exactly its key and one from the count |
| VmemTable.UnfileNodes | library/include/vmem_table.h:138-158 | and exactly that node |
| VmemTable.Table.Find | library/include/vmem_table.h:102-120 | lookup in the abstract map |
| VmemTable.Table.Insert | library/include/vmem_table.h:122-136 | the map gains the record, the count one, the table one node |
| VmemTable.Table.Recharge | library/include/vmem_table.h:104-107 | updating a found record in place changes that entry alone |
| VmemTable.Table.Seek | library/include/vmem_table.h:148-150 | the walk ends at the record and the link that points at it |
| VmemTable.Table.Unlink | library/include/vmem_table.h:149-153 | the pointer-to-pointer unlink takes out one node and leaves every other link right |
| VmemTable.Table.Remove | library/include/vmem_table.h:138-158 | the record is handed back intact and unlinked, or null; the map loses exactly its key |
| VmemTable.Table.RetireBucket | library/include/vmem_table.h:186-199 | the remove-while-iterating walk retires exactly the selected nodes of a bucket |
| VmemTable.Table.RetireIf | library/include/vmem_table.h:160-201 | exactly the selected records go, each node freed once and no other, and the result counts them |
| VmemTable.Run | library/include/vmem_table.h:108-206 | every run of operations keeps the table in step with the map and count equal to its size |
| VmemTable.NullKeepsNothing | library/include/vmem_table.h:175-190 | a null predicate empties the table |
| PidText.StrtolReads | library/src/checkpoint_provider.c:129-133 | blanks, one sign, digits: what strtol reads and where it stops |
| PidText.SuffixValue | library/src/checkpoint_provider.c:153-156 | the last k digits of a number spell it modulo 10^k |
| PidText.ParseAnyLine | library/src/checkpoint_provider.c:127-134 | lines are read one by one, whatever is on them |
| PidText.ParsePrint | library/src/checkpoint_provider.c:112-174 | reading what was printed gives the list back |
| SessionPids.SortedAscends | library/src/checkpoint_provider.c:227-227 | sorting gives an ascending permutation |
| SessionPids.SortIsUnique | library/src/checkpoint_provider.c:227-227 | there is only one, whatever algorithm qsort uses |
| SessionPids.CompareFits | library/src/checkpoint_provider.c:106-108 | the subtracting comparison neither overflows nor misorders pids |
| SessionPids.ReadPids | library/src/checkpoint_provider.c:110-138 | the token loop fills the array with the first pids of the text |
| SessionPids.Render | library/src/checkpoint_provider.c:157-169 | the buffer loop yields the printed list, or refuses exactly when it does not fit |
| SessionPids.RenderFits | library/src/checkpoint_provider.c:158-167 | a list of at most 256 pids always fits |
| SessionPids.RenderRefusesOnly | library/src/checkpoint_provider.c:158-167 | among 32-bit entries only a full list of eleven-character numbers is refused |
| SessionPids.Prune | library/src/checkpoint_provider.c:211-216 | the in-place compaction keeps the live pids other than the given one, in order |
| SessionPids.SessionFile.Update | library/src/checkpoint_provider.c:176-234 | the file ends up holding the printed update, or is left alone when absent and removing, when full, or when it does not fit |
| SessionPids.ReadBackPrint | library/src/checkpoint_provider.c:112-138 | a kept list survives the trip through the file |
| SessionPids.UpdateKeeps | library/src/checkpoint_provider.c:176-228 | live(old) minus the pid, plus it when adding: strictly ascending, at most 256, refused if and only if that would be 257 |
| SessionPids.RunAll | library/src/checkpoint_provider.c:176-234 | every run of updates from a fresh session leaves exactly that list in the file |
| PidReader.ContainerPids | library/src/util.c:879-895 | the fgets loop fills the array with the pids the line rule accepts, up to its size |
| PidReader.AcceptedDigits | library/src/util.c:884-894 | a line of digits is accepted exactly when it spells a pid |
| PidReader.AcceptedReads | library/src/util.c:884-894 | any line counts if and only if blanks, a sign and digits are all there is before the newline and they spell a pid |
| PidReader.LongLine | library/src/util.c:881-883 | a line too long for the buffer is read 31 characters at a time |
| PidReader.ReadersAgree | library/src/util.c:883-895 | on newline-ended lines of up to thirty digits this reader sees what the locked one sees |
| PidReader.ReadersAgreeMidWrite | library/src/util.c:507-518 | and so it does between a write and its truncation |
| PidReader.ReadMidWrite | library/src/checkpoint_provider.c:142-173 | a read between pwrite and ftruncate yields the new list, then exactly the described rest of the old one |
| PidReader.NeverShort | library/src/util.c:507-518 | such a read never yields a short list |
| PidReader.LeftoverIsOld | library/src/checkpoint_provider.c:153-156 | what is left of a cut list is a suffix of it if and only if the digits left of the cut pid spell 0 |
| PidReader.StaleIsOld | library/src/checkpoint_provider.c:153-156 | only pids of the old list follow the new one if and only if the list did not shrink or the cut leaves no such digits |
| PidReader.LeftoverCanInvent | library/src/checkpoint_provider.c:153-156 | a concrete pair of lists for which a number of neither is read |
| ArraySize.TablesAgree | library/include/array_size.h:145-292 | the three format tables classify the same formats |
| ArraySize.NormalisedFormats | library/include/array_size.h:170-211 | an X-suffixed element has its full size however few channels the descriptor names |
| ArraySize.ClassicFormats | library/include/array_size.h:29-44 | byte sizes of the classic formats, times the descriptor's channels |
| ArraySize.BlockSizes | library/include/array_size.h:145-168 | eight bytes a block for BC1 and BC4 and sixteen for the others, by the blocks that cover the extent |
| ArraySize.PlainSizes | library/include/array_size.h:330-381 | any other format costs an element a texel, an absent extent counting as one |
| ArraySize.OtherFormats | library/include/array_size.h:192-211 | four bytes for the packed 10:10:10:2 element, eight a channel for an unclassified one |
| ArraySize.Mul | library/include/array_size.h:294-305 | multiplies exactly when the product is non-zero-factored and fits |
| ArraySize.SizeFrom | library/include/array_size.h:307-383 | succeeds if and only if the descriptor is sizable and the unbounded product fits, and then returns it |
| ArraySize.SizeMonotone | library/include/array_size.h:330-381 | the size is monotone in every extent |
| ArraySize.DepthMultiplies | library/include/array_size.h:58-63 | layers and cube faces each cost a full slice |
| ArraySize.UnknownChargedMost | library/include/array_size.h:91-112 | an unclassified format is charged at least as much as any format not sized by block |
| ArraySize.BlockIgnoresChannels | library/include/array_size.h:131-134 | block formats ignore NumChannels and charge every texel between a sixteenth of a block and a block |
| CgroupMatch.JoinSplit | library/include/cgroup_match.h:65-74 | splitting a path into components loses nothing |
| CgroupMatch.EscapeIsComponent | library/include/cgroup_match.h:65-86 | a "/.." that ends a component occurs exactly when a later component is ".." |
| CgroupMatch.EscapesRoot | library/include/cgroup_match.h:75-86 | the strstr scan, jumping three characters, decides that for every string |
| CgroupMatch.BoundaryIsComponents | library/include/cgroup_match.h:147-165 | a character prefix that ends on a separator is exactly a component prefix |
| CgroupMatch.PathMatch | library/include/cgroup_match.h:120-170 | the character-level decision is the component-level one, for every pair of inputs |
| CgroupMatch.VerdictMeaning | library/include/cgroup_match.h:88-118 | ours, foreign and undecided as conditions on components, both directions |
| CgroupMatch.MissingIsForeign | library/include/cgroup_match.h:120-146 | a missing, empty or relative path is never ours |
| CgroupMatch.OursBelow | library/include/cgroup_match.h:147-165 | what lies below a cgroup of ours is ours |
| LeaseDetector.Detector.StartCallbackOnce | cmd/device-scheduler/lease.go:80-84 | afterwards a registered start callback has run exactly once and first; calling again changes nothing |
| LeaseDetector.Detector.OnUpdate | cmd/device-scheduler/lease.go:169-203 | an update of our lease makes it current and us leader exactly if its holder, times and the clock say so; a leadership callback runs if and only if that changed |
| LeaseDetector.Detector.OnDelete | cmd/device-scheduler/lease.go:205-228 | keeps the invariants; the release callback runs if and only if we led |
| LeaseDetector.Detector.IsLeader | cmd/device-scheduler/lease.go:127-139 | says what the fields of the current lease say, and yes although the last event said no exactly when the clock went back across the deadline |
| LeaseDetector.Detector.Drive | cmd/device-scheduler/lease.go:109-122 | whatever events and clocks arrive, the callbacks made so far alternate, begin with the start callback, and end as isLeader says |
| LeaseDetector.StepKeeps | cmd/device-scheduler/lease.go:172-228 | every event, whatever its clock, keeps the callback invariant and isLeader equal to the verdict at the last update |
| LeaseDetector.CallbacksAlternate | cmd/device-scheduler/lease.go:190-227 | over every run leadership callbacks alternate starting with Leader, and the last is Leader exactly while isLeader holds |
| LeaseDetector.StartsOnceAndFirst | cmd/device-scheduler/lease.go:80-84 | the start callback runs at most once and before any other |
| LeaseDetector.EvaluateLaw | cmd/device-scheduler/lease.go:230-255 | the verdict is: the holder or nothing starts with the prefix, both times are present, and now is no later than renewal, duration and jitter |
| LeaseDetector.TargetLaw | cmd/device-scheduler/lease.go:151-167 | exactly the lease of the configured name and namespace counts, wrapped in a tombstone or not |
| LeaseDetector.LastOfOursDecides | cmd/device-scheduler/lease.go:169-228 | over every run the last event about our lease decides what is current and whether we lead, in its fields |
| LeaseDetector.NoneOfOurs | cmd/device-scheduler/lease.go:169-228 | until there is one we hold no lease and do not lead |
| LeaseDetector.IsLeaderInFields | cmd/device-scheduler/lease.go:127-167 | over every run and clock IsLeader() says what the fields of the current lease say, and that lease is the configured one |
| LeaseDetector.IsLeaderExact | cmd/device-scheduler/lease.go:127-139 | for every run and every clock, IsLeader() and isLeader part exactly when the deadline lies between the last update and now, in either order |
| LeaseDetector.IsLeaderLater | cmd/device-scheduler/lease.go:127-139 | with a clock not behind the last update IsLeader() is isLeader and an unexpired lease |
| LeaseDetector.ExpiryIsSilent | cmd/device-scheduler/lease.go:230-255 | isLeader outlives the lease until the next event |
| LeaseDetector.ClockSetBack | cmd/device-scheduler/lease.go:230-255 | a clock set back makes IsLeader() true without isLeader |
| LeaseDetector.ForeignIgnored | cmd/device-scheduler/lease.go:151-167 | striking all foreign events from a run changes neither the lease, nor isLeader, nor the leadership callbacks |

## Left out

- Seqlock: memory is sequentially consistent, one word of the device at a time; the acquire fences that justify this are not modelled.
- Seqlock: a writer that dies between its two bumps, and the copy taken when the read lock is refused, carry no promise and get none; out-of-range indexes, answered with a zeroed device, are not modelled.
- DeltaEstimate: the int32 difference of two record stamps 2^31 ms or more apart is taken as two's complement, where C leaves it undefined; the laws in absolute time are for stamps that a 32-bit difference can tell apart, 24 days around the window.
- DeltaMachine: a negative reading, which no sum of engine utilizations is, and pools of 2^40 tokens or more, which the code excludes.
- DeltaEstimateRuns: adding up a reading from the samples of its processes, in cuda_hook.c; readings are given.
- SlotTable: sizes are unbounded and the maximum capacity is at most 2^60 cells, so capacity * 7 cannot wrap; predicates of a sweep are pure.
- VmemTable: the null-table and null-node guards.
- SessionPids: failing system calls (open, flock, read, pwrite, ftruncate) and the lock itself; qsort is its unique result rather than an algorithm.
- PidReader: pwrite is one step and the reader's file is one read, as its buffer is larger than the longest list; the retries for the shared lock and the optional sort are not modelled.
- PidText.Parse: strtol's clamping to a long, invisible because anything above INT_MAX is refused.
- ArraySize: the null-pointer guards and the descriptor structs around SizeFrom.
- CgroupMatch: resolving an undecided match by reading the cgroup namespace mode.
- LeaseDetector: the informer's goroutines; an event is one atomic step, and callbacks that are themselves slow or re-entrant are not modelled.
- The token bucket's refill, launch throttling and process election in cuda_hook.c, and file locking: effects rather than decisions.
- The schedulers, device plugins, webhooks and monitors written in Go: Kubernetes plumbing.
- Session directories, environment publishing and downstream provider loading: operating-system effects.
