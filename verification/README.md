# Cardano validator watcher: block watcher, slot schedules, socket proxy

This project models the three parts of the watcher that carry its state and its arithmetic, and
proves what they promise over whole runs.

**The block watcher.** It polls the latest block, turns it into a contiguous range of slots, and
classifies every (slot, active pool) pair as validated, missed, orphaned or not led. It saves its
position after every scan, also when a scan fails, and it moves from epoch to epoch. Module
`WatcherModel` says on values what one visit, scan, tick, start-up and process do; the classes of
module `BlockWatcher` keep the fields, loops and early returns of the program and are proved to do
exactly that, errors and index panics included. Everything the outside contributes is an arbitrary
value: blocks may roll back, reads and writes may fail, a write may be committed and still report
an error. A ghost log holds every classification made.

- `Outcomes`: which outcome a leader slot gets for any answers, and what makes a visit fail.
- `TickEffects`: when the process goes on, what it saves, when it resets, and where it starts.
- `Coverage`: which pairs one process classifies, at most once each, and exactly which ones.
- `Restarts`: starts, ticks, lost writes and kills in any order over one state table.
- `Epochs`: epoch ends and epoch labels, with the numbering base of epoch slots as a parameter.
- `Polling`: an error-free run records what one left-to-right pass would.
- `Counters`: the metrics against the log.
- `IndexSafety`, `NextLeader`: the unchecked index accesses and the next-leader gauge.
- `OnePool`: what a process with a single pool does, for the concrete runs.

**The schedule store.** `SlotLeader` holds the queries on the `slots` table. `ScheduleRefresh` runs
any number of refresh calls at once, each with one task per pool; every SQL statement and every
gauge write is an atomic step. Its class `Service` is the code of one task and of one refresh call.
`NextEpochScheduler` decides when the next epoch is computed ahead.

**The socket proxy.** `SocketProxy` holds dialling, probing and the gauges; `Cooldown` interleaves
dials and probes; `ProbeCadence` is about time; `ProxyTeardown` is the four goroutines of one
connection.

Hypotheses that the code does not check are written out where they are needed: distinct pool ids
(`DistinctIds`), distinct endpoint addresses (`Distinct`), a truthful chain (`HonestTick`,
`HonestBoot`), stored rows that are never changed (proved of the refreshes in `ScheduleRefresh`),
ascending positive schedules (`Announces`).

## What does not hold

Each entry names the lemma with the condition and, where that lemma is general, a concrete run.

- `Polling.FirstSlotNeverRecorded`: the end of an epoch is computed as if epoch slots were numbered
  from 1. If they are numbered from 0, exactly the first slot of each epoch is looked up under the
  old epoch and is never recorded. A run: `Polling.LostFirstSlot`.
- `Restarts.FirstBlockIsNeverCounted`: a start in a newer epoch skips that epoch's slots up to and
  including its first block; neither that process nor any that resumes after it counts them. A run:
  `Restarts.FirstBlockSkipped`.
- `Epochs.JumpedEpochsAreLost`: no slot of an epoch that the position jumps over is ever classified,
  if schedules hold only slots of their own epoch. A run: `Epochs.JumpedEpoch`.
- `IndexSafety.AfterFailedTransition`: the position's epoch moves before its save and its refresh
  can fail. When the save is reported as failed, or the refresh fails for a reason other than the
  leader log, the error is only logged. A pool then left without a row stops the watcher: if the
  pool must have slots every later tick fails before it looks at a slot or at a new epoch, for as
  long as the row is missing (`IndexSafety.StuckForGood`); if it may be without slots the next
  unfailing work panics. Runs: `IndexSafety.StallAfterFailedRefresh` and
  `IndexSafety.PanicAfterFailedRefresh`.
- `IndexSafety.NoSlotsThenPanic`: a pool that must have slots and is refreshed with none is refused
  at a start but only logged at a transition, and the next tick that sees a block panics. A run:
  `IndexSafety.PanicAfterEmptySchedule`. `IndexSafety.TickPanicsExactly` says which ticks panic.
- `Counters.GaugeWithinCounterExactly`: the consecutive-miss gauge is not reset with the counters.
  It stays within the missed counter of its label exactly if the label has a validated block since
  the reset or had no trailing misses before it, so an ordinary transition already breaks the bound
  for the epoch being left. A run: `Counters.GaugeExceedsCounterAfterTransition`.
- `ProbeCadence.ProbingKeepsDeadNodesOut`: probing alone keeps a dead endpoint out of use exactly
  for the first two endpoints of at most five.
- `SocketProxy.ActiveIsTheOneReturned`: the active gauge shows the endpoint a dial returned exactly
  if nothing ahead of it is out of cooldown by then; three dials that use up their timeout are
  enough for that to fail. A call: `SocketProxy.MislabelledCall`.
- `Cooldown.UpAfterSuccessExactly`: an endpoint stays eligible after a success until it fails again
  exactly if no older failure is still waiting to be written whose cooldown has not run out. A run:
  `Cooldown.StaleFailureOverridesSuccess`.

## Model

| member | source | states |
|---|---|---|
| Pools.GetActivePools | internal/pools/pools.go:30-38 | the active pools, in configured order; as a set exactly the pools that are not excluded |
| Pools.ActiveGoesPoolByPool | internal/pools/pools.go:30-38 | selecting goes pool by pool, so order and number are kept |
| Pools.ActiveKeepsDistinctIds | internal/pools/pools.go:30-38 | selecting the active pools keeps ids distinct |
| SlotLeader.IsSlotsEmpty | internal/slotleader/slotleader.go:244-252 | an error on any failed read, a panic without a row, else whether the slots or the quantity are empty |
| SlotLeader.IsSlotLeader | internal/slotleader/slotleader.go:227-242 | "no rows" means not a leader, another failure is an error, a missing row panics, else membership of the slot in the stored schedule |
| SlotLeader.GetSlotLeaders | internal/slotleader/slotleader.go:181-193 | returns the stored row if and only if the read works and there is one; never panics |
| SlotLeader.GetNextSlotLeader | internal/slotleader/slotleader.go:195-215 | an error without a row, a panic on an empty schedule, else the first slot in stored order above the height, or 0 if there is none |
| SlotLeader.FirstAboveIsLeast | internal/slotleader/slotleader.go:208-214 | on ascending positive schedules the answer is the least slot above the height, and 0 exactly when there is none |
| SlotLeader.AtMostOneRow | migrations/00001_slots.sql:11 | under the unique key a query for a pool and an epoch sees at most one row |
| SlotLeader.RowsPersist | internal/slotleader/slotleader.go:183 | once a row is stored, every query on any later table returns the same |
| ScheduleRefresh.Service.IsRefresh | internal/slotleader/slotleader.go:217-225 | whether a row exists, or an error |
| ScheduleRefresh.Service.PersistSlots | internal/slotleader/slotleader.go:254-273 | adds one row with the slots of the response and their number, unless the insert is lost or the key is taken; then the table is unchanged; success only if no error is reported |
| ScheduleRefresh.Service.RefreshPool | internal/slotleader/slotleader.go:86-130 | check, compute, insert, fetch, publish: the new table, gauge and ending of one task for every combination of failures |
| ScheduleRefresh.TaskEndsExactly | internal/slotleader/slotleader.go:86-130 | a task by itself succeeds if and only if all it meets works, fails with the leader-log error if and only if the check works, there is no row and no slots are given, adds the row of the slots given unless the insert is lost, and touches nothing else |
| ScheduleRefresh.WorkingTaskPublishes | internal/slotleader/slotleader.go:88-128 | where all works the slots given are stored and their number published, or the row there was is kept |
| ScheduleRefresh.ServedTaskSucceeds | internal/slotleader/slotleader.go:85-132 | among any other tasks, if its statements work and no other stores its key, a task never fails, ends within five steps of its own, and publishes its slots or the row there was |
| ScheduleRefresh.AloneIsStepByStep | internal/slotleader/slotleader.go:86-130 | that sequential result is what the atomic steps of the interleaving model give when nothing runs in between |
| ScheduleRefresh.Service.Refresh | internal/slotleader/slotleader.go:55-133 | keeps the store well formed and only adds to it; with distinct ids it returns nil if and only if every task works and the leader-log error if and only if that is how the first that does not work fails, every pool whose task works is published whatever became of the others, and only rows the tasks store are added |
| ScheduleRefresh.ExactlyOneMore | internal/slotleader/slotleader.go:85-132 | one more task of a refresh keeps that exact account |
| ScheduleRefresh.TableSafety | internal/slotleader/slotleader.go:85-132 | under every interleaving of any number of refreshes keys stay unique, quantities count their slots, and rows and published gauges never change |
| ScheduleRefresh.EndedTasksStay | internal/slotleader/slotleader.go:85-132 | a task that has ended keeps its ending whatever else runs |
| ScheduleRefresh.LosingRacerFails | internal/slotleader/slotleader.go:265-271 | an insert that meets its key or is lost fails and leaves the store alone; any other stores the key for the first time, whether or not it is reported as failed |
| ScheduleRefresh.OneWinnerPerKey | internal/slotleader/slotleader.go:85-132 | over any run of any number of refreshes, of all tasks that race for a key exactly one stores its slots if the key had no row and has one in the end, and none otherwise |
| ScheduleRefresh.NilRefreshMeansPublished | internal/slotleader/slotleader.go:123-132 | after a refresh returned nil every active pool has exactly one row and an ExpectedBlocks gauge equal to its number of slots, from then on, whatever else runs |
| ScheduleRefresh.OnlyMissingRowsAreAdded | internal/slotleader/slotleader.go:88-109 | every row a run adds has a key that had no row before and belongs to a task of the run |
| ScheduleRefresh.CompletedRefreshIsIdempotent | internal/slotleader/slotleader.go:88-128 | repeating a completed refresh, in any number of concurrent calls, changes neither the table nor a gauge |
| ScheduleRefresh.PrecomputedNeedsNoLeaderLog | internal/slotleader/slotleader.go:88-106 | whatever runs at once, a task started after its row was stored never asks for a leader log and so never fails with the error the block watcher gives up on |
| NextEpochScheduler.RunNextEpochScheduler | internal/slotleader/slotleader.go:135-179 | one request per answered check with at most a day left, all of them, in order, each for the epoch after the one seen; any other check is only passed over |
| NextEpochScheduler.NextEpochIsAskedFor48Times | internal/slotleader/slotleader.go:135-179 | with truthful checks at most half an hour apart the requests of the loop hold the next epoch at least 48 times in a row, and checks are due exactly in the last day of the current one |
| BlockWatcher.BlockWatcherState.Save | internal/watcher/watcher_block_state.go:74-88 | memory always moves; the row is replaced unless the write is lost; success only if no error is reported |
| BlockWatcher.BlockWatcherState.LoadFromBlockfrost | internal/watcher/watcher_block_state.go:90-98 | takes epoch and slot of the latest block, or changes nothing |
| BlockWatcher.BlockWatcherState.Load | internal/watcher/watcher_block_state.go:59-72 | the saved row, else the latest block; an error leaves the position alone |
| BlockWatcher.BlockWatcherState.LoadAndReconcile | internal/watcher/watcher_block_state.go:36-57 | in a newer epoch jumps to its first block and saves that; every error path with what it leaves behind |
| BlockWatcher.MetricsCollection.LogMissedBlock | internal/watcher/watcher_block.go:393-399 | both the missed counter and the consecutive-miss gauge of the label go up by one, nothing else changes |
| BlockWatcher.MetricsCollection.LogValidatedBlock | internal/watcher/watcher_block.go:401-412 | the validated counter goes up and the consecutive-miss gauge of the label is zero |
| BlockWatcher.MetricsCollection.LogOrphanedBlock | internal/watcher/watcher_block.go:414-426 | only the orphaned counter of the label goes up |
| BlockWatcher.MetricsCollection.Reset | internal/watcher/watcher_block.go:460-471 | the three counters start over with a zero per active pool; the consecutive-miss gauge keeps its values |
| BlockWatcher.BlockWatcher.ProcessLeaderSlot | internal/watcher/watcher_block.go:369-390 | an error that says "not found" in any case is a miss, another error fails, a block is validated or orphaned by its producer; exactly that event is logged and counted |
| BlockWatcher.BlockWatcher.ProcessPoolSlot | internal/watcher/watcher_block.go:328-362 | one visit: quiet, classified, failing or panicking, with its effect on log and metrics |
| BlockWatcher.BlockWatcher.ProcessSlot | internal/watcher/watcher_block.go:315-321 | the pools in active order up to the first that fails or panics |
| BlockWatcher.BlockWatcher.ProcessSlots | internal/watcher/watcher_block.go:303-324 | the slots in order; a failing slot is the one reported, otherwise the end slot |
| BlockWatcher.BlockWatcher.EnsurePoolHasLeaderSlots | internal/watcher/watcher_block.go:198-213 | the first pool that must have slots and has none; failing reads are passed over |
| BlockWatcher.BlockWatcher.FetchAndLogNextSlotLeaders | internal/watcher/watcher_block.go:430-457 | sets the gauge pool by pool up to the first error or panic, skipping pools that may be without slots |
| BlockWatcher.BlockWatcher.InitMetrics | internal/watcher/watcher_block.go:460-471 | resets for the position's epoch |
| BlockWatcher.BlockWatcher.StartWatcherAndDetectEpochTransition | internal/watcher/watcher_block.go:251-300 | picks the end slot, scans, and saves what the scan reached even when it failed, but not when it panicked |
| BlockWatcher.BlockWatcher.HandleEpochTransition | internal/watcher/watcher_block.go:218-247 | moves the epoch before the refresh, and each way the transition can end |
| BlockWatcher.BlockWatcher.StartTick | internal/watcher/watcher_block.go:165-194 | one whole tick equals the value specification, position, rows, metrics and log |
| BlockWatcher.BlockWatcher.Start | internal/watcher/watcher_block.go:80-129 | a whole process, start-up and health gate included, equals the value specification up to the tick that ends it |
| Outcomes.SaysNotFoundExactly | internal/watcher/watcher_block.go:379 | an error counts as not found if and only if its lower-case text contains the words |
| Outcomes.NotFoundInAnyCase | internal/watcher/watcher_block.go:379 | three concrete texts |
| Outcomes.VisitEndsExactly | internal/watcher/watcher_block.go:328-390 | a visit classifies if and only if the slot is led and its block is there or not found, with the outcome that fits the reply: validated for a block of the pool, orphaned for a block of another, missed for none; and exactly when it fails |
| Outcomes.TickLogsWhatFits | internal/watcher/watcher_block.go:369-390 | whatever is answered, every event a tick logs has the outcome that fits the reply it got |
| Outcomes.LostBlockStopsTheScan | internal/watcher/watcher_block.go:315-321 | a block that cannot be had for any other reason stops the scan at that slot, from the pool affected on |
| Coverage.ScanShape | internal/watcher/watcher_block.go:303-324 | a scan covers its slots without a gap: all pools at every slot before the last one, and there the pools before the one that stopped it |
| TickEffects.TickContinuesExactly | internal/watcher/watcher_block.go:165-194 | exactly when a tick goes through without error |
| TickEffects.TickReturnsExactly | internal/watcher/watcher_block.go:111-118 | the only error that ends the process is the leader-log error of a transition |
| TickEffects.BlindTick | internal/watcher/watcher_block.go:105-176 | a tick that is not healthy or sees no block changes nothing, and one whose next-leader queries fail changes nothing but those gauges |
| TickEffects.LastTick | internal/watcher/watcher_block.go:105-129 | a tick that returns its error or panics is the last; after any other the ticks go on |
| TickEffects.TickSavesExactly | internal/watcher/watcher_block.go:285-290 | the saved row after a tick, for every combination of lost writes |
| TickEffects.SavedOverRuns | internal/watcher/watcher_block_state.go:74-88 | as long as no write is lost the table holds exactly the position after every tick |
| TickEffects.TickShowsLatestSlot | internal/watcher/watcher_block.go:296 | the latest-slot gauge is the slot of the last scan that completed |
| TickEffects.TickResetsExactly | internal/watcher/watcher_block.go:186-192 | the counters are reset if and only if a transition goes through, and then exist for exactly the pools in the new epoch |
| TickEffects.StartsExactly | internal/watcher/watcher_block.go:80-99 | exactly when a start goes on or panics, and where it stands, what is saved and which counters exist when it goes on |
| TickEffects.NothingLoadedNoStart | internal/watcher/watcher_block_state.go:59-72 | a start that can load no position returns an error |
| TickEffects.EmptyTableStartsAtLatestBlock | internal/watcher/watcher_block_state.go:66-68 | a start on an empty table stands at exactly the latest block, saves nothing, and never classifies that slot or an earlier one |
| Coverage.VisitMeaning | internal/watcher/watcher_block.go:330-353 | a settled visit classifies exactly the scheduled slots, and the AllowEmptySlots shortcut never changes an outcome |
| Coverage.ScanCoverage | internal/watcher/watcher_block.go:303-324 | a scan classifies a pair if and only if it is scheduled, was reached and was not given up: the pool it stopped at and those after it, at the slot it stopped at |
| Coverage.WorkAdvances | internal/watcher/watcher_block.go:282-294 | every tick that gets to work advances the position by at least one slot and never past its end slot |
| Coverage.AtMostOncePerProcess | internal/watcher/watcher_block.go:255-290 | whatever the outside answers, one process never classifies a pair twice, only adds to its log, and its slot never decreases |
| Coverage.AtMostOncePerLifetime | internal/watcher/watcher_block.go:80-129 | the same for every process from its start-up on |
| Coverage.ExactCoverage | internal/watcher/watcher_block.go:255-323 | over any run while the position is in one epoch, the tick that closes it included, whatever fails and whichever rows are still being added, the classified pairs are exactly the scheduled ones after the start and up to the slot reached except those given up; unless the process panicked that slot is the position |
| Restarts.AtLeastOnceAcrossCrashes | internal/watcher/watcher_block_state.go:36-88 | over any sequence of starts, ticks, lost writes and kills there is at most one row, and each slot from the base to the saved slot was passed over by some scan: every pair that leads in the epoch of that scan is among the classifications of all processes or was given up by a scan that failed |
| Restarts.AtLeastOnceWithinAnEpoch | internal/watcher/watcher_block_state.go:36-88 | while all scans are made in one epoch and all starts are within the saved one the base stays, and every slot the epoch's schedules hold from there to the saved slot was classified under that epoch in some process, or given up |
| Restarts.LedgerFollowsTheLog | internal/watcher/watcher_block.go:303-324 | what a tick adds to the record of all processes is what its process logs |
| Restarts.RestartResumes | internal/watcher/watcher_block_state.go:59-72 | a start within the saved epoch resumes exactly at the saved slot and keeps row, base and record |
| Restarts.NewerEpochStartsAfterItsFirstBlock | internal/watcher/watcher_block_state.go:43-54 | a start in a newer epoch saves and begins at its first block, and its process never classifies that slot or an earlier one |
| Restarts.NothingUpToTheBase | internal/watcher/watcher_block_state.go:36-88 | as long as every start resumes at the saved row, no process classifies a slot at or before the base |
| Restarts.FirstBlockIsNeverCounted | internal/watcher/watcher_block_state.go:43-54 | so after a start in a newer epoch neither its process nor any that resumes after it, through any ticks, lost writes and kills, counts a slot up to the first block |
| Restarts.FirstBlockSkipped | internal/watcher/watcher_block_state.go:43-54 | a concrete start that passes over a first block the pool leads, whatever its ticks |
| Restarts.SaveReplaces | internal/watcher/watcher_block_state.go:82 | a save that is not lost leaves its own row and no other |
| Epochs.EndExceedsTrueLast | internal/watcher/watcher_block.go:271-279 | with numbering base b the believed end exceeds the true last slot by 1 - b |
| Epochs.EndFromAnyBlock | internal/watcher/watcher_block.go:274-279 | the end computed does not depend on which block of the epoch came last |
| Epochs.SlotWithinEpochEnd | internal/watcher/watcher_block.go:266-290 | in every state of an honest run the slot is at most the end of the position's epoch, and the epoch never goes back |
| Epochs.StartWithinEpochEnd | internal/watcher/watcher_block_state.go:36-57 | every start establishes that bound |
| Epochs.TransitionLandsOnEnd | internal/watcher/watcher_block.go:186-192 | an error-free transition tick leaves the slot exactly at the end of the old epoch and the epoch strictly newer |
| Epochs.EveryCountWasScheduled | internal/watcher/watcher_block.go:283-353 | every increment labelled with an epoch is for a slot in the stored schedule of that pool and epoch |
| Epochs.NoForeignCounts | internal/watcher/watcher_block.go:218-283 | if stored schedules hold only their own epoch's slots, no slot is ever counted under another epoch |
| Epochs.SkippedEpochsUncounted | internal/watcher/watcher_block.go:218-226 | an epoch that no tick is told about contributes no counts |
| Epochs.CountsBetweenEpochs | internal/watcher/watcher_block.go:218-283 | over an honest run the position's epoch only grows and every count lies between the first and the last of its epochs |
| Epochs.JumpedEpochsAreLost | internal/watcher/watcher_block.go:218-226 | when a tick of an honest run jumps over an epoch, the whole run counts nothing under it and, if schedules hold only their own epoch's slots, classifies none of its slots |
| Epochs.JumpedEpoch | internal/watcher/watcher_block.go:218-226 | a concrete honest tick that jumps from epoch 0 to epoch 2 past a slot the pool leads |
| Polling.PollingIsOnePass | internal/watcher/watcher_block.go:105-324 | for every error-free run over a fixed chain the log is that of one pass over (start, position] by active pools, and the position depends on the blocks seen alone, however health flapped |
| Polling.PollersAgree | internal/watcher/watcher_block.go:105-324 | two such runs from one state that end at the same slot have the same log |
| Polling.LastBlockDecides | internal/watcher/watcher_block.go:255-290 | a run whose last tick sees a block not behind the position ends at that block |
| Polling.OnePassLogs | internal/watcher/watcher_block.go:303-353 | a pass classifies a pair if and only if its slot is in the range and scheduled under the label of that slot |
| Polling.FirstSlotOfEpochLost | internal/watcher/watcher_block.go:271-279 | one pass classifies a slot scheduled in its true epoch if and only if it is not the first of its epoch under numbering from 0 |
| Polling.StartInRange | internal/watcher/watcher_block_state.go:36-57 | every start from an honest chain lies in the range of its epoch |
| Polling.LifetimeIsOnePass | internal/watcher/watcher_block.go:80-129 | so a whole process that meets no error records one pass from where it started to where it got |
| Polling.FirstSlotNeverRecorded | internal/watcher/watcher_block.go:271-283 | of the slots such a process gets past, one scheduled in its true epoch is on record if and only if it is not the first of its epoch under numbering from 0 |
| Polling.LostFirstSlot | internal/watcher/watcher_block.go:271-279 | a concrete process that loses slot 432000 |
| Counters.MetricsShowTheRecord | internal/watcher/watcher_block.go:392-426 | over any run each counter shows the outcomes logged since the last reset, and the consecutive-miss gauge the misses after the last validated block, orphaned blocks neither counting nor breaking |
| Counters.StartShows | internal/watcher/watcher_block.go:80-88 | and every start-up begins so |
| Counters.TotalIsDistinctSlots | internal/watcher/watcher_block.go:392-426 | on a log without repetition the three counts of a label add up to its distinct slots |
| Counters.CountersAreConserved | internal/watcher/watcher_block.go:303-426 | in every process missed + validated + orphaned is the number of distinct scheduled slots classified since the reset, at most ExpectedBlocks, and equal to it, for a schedule without repetition, if and only if all its slots were classified |
| Counters.CountersReachExpectedExactly | internal/watcher/watcher_block.go:282-471 | from a reset to the next within an epoch, for a schedule without repetition, the sum equals ExpectedBlocks if and only if every scheduled slot lies after the position at the reset and up to the slot reached and none was given up |
| Counters.StartIsFresh | internal/watcher/watcher_block.go:80-88 | every start that goes on is such a reset |
| Counters.ResetIsFresh | internal/watcher/watcher_block.go:186-192 | and every tick that ends on a reset |
| Counters.GaugeWithinCounterExactly | internal/watcher/watcher_block.go:392-471 | in every process, at every moment and for every label, the gauge is within the missed counter if and only if the label has a validated block since the last reset or had no trailing misses before it; without an event since the reset the counter reads zero and the gauge what it did before |
| Counters.ConsecutiveWithinMissed | internal/watcher/watcher_block.go:392-412 | while transitions move to strictly newer epochs the gauge of the current epoch never exceeds the missed counter |
| Counters.ForwardRunBounded | internal/watcher/watcher_block.go:80-129 | the same from every start |
| Counters.GaugeExceedsCounterAfterTransition | internal/watcher/watcher_block.go:186-192 | a concrete process in which an ordinary transition to the next epoch leaves the gauge of the old one above its counter |
| NextLeader.NothingBeforeAnnounced | internal/watcher/watcher_block.go:430-454 | processing above the height classifies nothing for the pool before the announced slot, and nothing at all when 0 is announced |
| NextLeader.AnnouncedIsClassified | internal/watcher/watcher_block.go:303-362 | once a scan has got past it the announced slot is on record for the pool |
| NextLeader.GaugeIsTheAnswer | internal/watcher/watcher_block.go:430-457 | the gauge of a pool that must have slots is set to the answer to its own query if that query is reached and answered, and no other gauge changes |
| NextLeader.TickAnnounces | internal/watcher/watcher_block.go:165-194 | and shows it still when the tick is over |
| NextLeader.GaugeForetells | internal/watcher/watcher_block.go:165-362 | through that tick and all later ones of the epoch the pool is classified at no slot between the block seen and the gauge, at none above it when the gauge is 0, and the slot shown is on record once the run has got past it, unless given up |
| IndexSafety.VisitPanicsExactly | internal/slotleader/slotleader.go:236-251 | a visit goes out of range if and only if its first query can be read and finds no row |
| IndexSafety.PassPanicsExactly | internal/watcher/watcher_block.go:315-321 | a pass panics if and only if it comes to a pool without a row whose first query can be read, and all pools before it get through |
| IndexSafety.UnfailingPassPanicsExactly | internal/watcher/watcher_block.go:315-321 | where no visit fails a pass panics if and only if some pool has no row |
| IndexSafety.ScanPanicsExactly | internal/watcher/watcher_block.go:303-324 | a scan panics if and only if its first pass does |
| IndexSafety.NextLeadersExactly | internal/watcher/watcher_block.go:430-457 | the next-leader queries succeed if and only if every pool that must have slots has a readable row with some, and panic if and only if the first that has none has an empty row |
| IndexSafety.AssignedExactly | internal/watcher/watcher_block.go:198-213 | the check for assigned slots succeeds, and panics, exactly when the rows and reads say so |
| IndexSafety.TickPanicsExactly | internal/watcher/watcher_block.go:165-247 | a tick panics if and only if it sees a block and an empty row, a missing row at its first pass, or a missing row in the check of a transition is met before anything fails |
| IndexSafety.UnfailingTickPanicsExactly | internal/watcher/watcher_block.go:165-194 | within an epoch and without failing queries the pools and the table alone decide which ticks panic |
| IndexSafety.StartIsSafe | internal/watcher/watcher_block.go:80-99 | a start whose epoch has a row for every pool does not panic, and when it goes on every pool that must have slots has some |
| IndexSafety.NilRefreshLeavesRows | internal/slotleader/slotleader.go:123-132 | a refresh that has returned nil has left a row for every pool |
| IndexSafety.IndexSafety | internal/watcher/watcher_block.go:165-247 | from such a start, with the tables of any history of concurrent refreshes, while every transition goes through no tick ever panics or ends the process |
| IndexSafety.StuckForGood | internal/watcher/watcher_block.go:174-176 | while a pool that must have slots has no row for the position's epoch, any run of ticks leaves position, rows, log and all metrics but the next-leader gauge as they are |
| IndexSafety.RowlessWorkPanics | internal/slotleader/slotleader.go:251 | a tick that gets to unfailing work without a row for some pool panics, and that pool is one that may be without slots |
| IndexSafety.AfterFailedTransition | internal/watcher/watcher_block.go:219-232 | after a transition whose save is reported as failed or whose refresh fails plainly the epoch has moved and the error is only logged; any pool left without a row then stalls the watcher or makes its next unfailing work panic |
| IndexSafety.NoSlotsThenPanic | internal/watcher/watcher_block.go:234-247 | after a refresh that leaves a pool that must have slots with none the error is only logged and the next tick that sees a block panics |
| IndexSafety.StallAfterFailedRefresh | internal/watcher/watcher_block.go:224-232 | a concrete run of three ticks from a ready state: a failed refresh, after which neither a block of that epoch nor one of the next moves the watcher |
| IndexSafety.PanicAfterFailedRefresh | internal/watcher/watcher_block.go:224-232 | a concrete run of two ticks from a ready state: a failed refresh, then the panic |
| IndexSafety.PanicAfterEmptySchedule | internal/watcher/watcher_block.go:234-247 | a concrete run of two ticks from a ready state: an empty schedule, then the panic |
| SocketProxy.RemoteEndpoint.IsDown | internal/cardano/cardanocli/socketproxy.go:51-55 | down if and only if the reading lies before downUntil |
| SocketProxy.RemoteEndpoint.MarkDown | internal/cardano/cardanocli/socketproxy.go:57-61 | downUntil is the given moment |
| SocketProxy.RemoteEndpoint.ClearDown | internal/cardano/cardanocli/socketproxy.go:63-67 | downUntil is the zero time |
| SocketProxy.SocketProxy.UpdateMetrics | internal/cardano/cardanocli/socketproxy.go:179-201 | up per endpoint, active on the first one that is up and on no other; of endpoints with one address the last shows; without metrics nothing changes |
| SocketProxy.SocketProxy.SelectCandidates | internal/cardano/cardanocli/socketproxy.go:210-220 | the endpoints out of cooldown in configured order, or all if there is none |
| SocketProxy.SocketProxy.DialRemote | internal/cardano/cardanocli/socketproxy.go:207-239 | dials candidates up to the first success and returns it, marks each failed one and clears the successful one, leaves the others alone, reports the error of the last one dialled when all fail, and publishes the gauges |
| SocketProxy.SocketProxy.ProbeAll | internal/cardano/cardanocli/socketproxy.go:161-174 | every endpoint is marked or cleared by its own probe, and the gauges are published |
| SocketProxy.DialPicksFirstReachable | internal/cardano/cardanocli/socketproxy.go:203-239 | the endpoint returned is the first eligible one that answers; exactly the eligible ones up to it are dialled, once each and in order; nothing is returned only if all of them failed |
| SocketProxy.CandidatesAreEligible | internal/cardano/cardanocli/socketproxy.go:212-220 | an endpoint in cooldown is a candidate if and only if all are in cooldown |
| SocketProxy.OneActiveEndpoint | internal/cardano/cardanocli/socketproxy.go:176-201 | each endpoint is shown up exactly while it is not in cooldown; exactly one is shown active if and only if some endpoint is up, and it is the first up one |
| SocketProxy.ActiveIsTheOneReturned | internal/cardano/cardanocli/socketproxy.go:176-239 | the endpoint returned is shown active if and only if nothing ahead of it is out of cooldown when the gauges are published |
| SocketProxy.ActiveGaugeMatchesDial | internal/cardano/cardanocli/socketproxy.go:16-22 | with fewer than three failures, no skipped cooldown expiring during the call and the gauges published within a dial timeout of the answer, it is |
| SocketProxy.ThreeTimeoutsMislabelActive | internal/cardano/cardanocli/socketproxy.go:16-22 | with three or more dials that use up the timeout, endpoint 0 is shown instead |
| SocketProxy.MislabelledCall | internal/cardano/cardanocli/socketproxy.go:16-22 | a concrete call on four endpoints in which it is |
| Cooldown.DownMeansRecentFailure | internal/cardano/cardanocli/socketproxy.go:51-67 | under any interleaving an endpoint reported down failed less than 30 s before the reading |
| Cooldown.ClearedStaysEligible | internal/cardano/cardanocli/socketproxy.go:63-67 | once cleared it stays eligible until a later write marks it down |
| Cooldown.UpAfterSuccessExactly | internal/cardano/cardanocli/socketproxy.go:161-174 | after a success is written the endpoint stays eligible until its next failure, whatever runs, if and only if no older failure is waiting to be written whose cooldown has not run out |
| Cooldown.StaleFailureOverridesSuccess | internal/cardano/cardanocli/socketproxy.go:164-171 | a run in which a failure before a success is written after it |
| ProbeCadence.NextFailureInTime | internal/cardano/cardanocli/socketproxy.go:144-174 | for the first two of at most five endpoints successive failed probes are less than a cooldown apart |
| ProbeCadence.BadHistoryReadmits | internal/cardano/cardanocli/socketproxy.go:22-28 | for every other position a possible history of rounds lets the endpoint back in |
| ProbeCadence.ProbingKeepsDeadNodesOut | internal/cardano/cardanocli/socketproxy.go:144-174 | an unreachable endpoint never leaves cooldown between failed probes if and only if it is one of the first two and there are at most five |
| ProxyTeardown.RunsAreBounded | internal/cardano/cardanocli/socketproxy.go:241-276 | every interleaving keeps the invariant and every action uses up one unit of a measure, so runs are bounded |
| ProxyTeardown.StuckOnlyWhenFinal | internal/cardano/cardanocli/socketproxy.go:241-276 | in every reachable state some goroutine is owed a step if and only if a teardown was triggered and is not over |
| ProxyTeardown.TeardownCompletes | internal/cardano/cardanocli/socketproxy.go:256-275 | from any triggered state serving owed steps alone ends all four goroutines |
| ProxyTeardown.SendsNeverBlock | internal/cardano/cardanocli/socketproxy.go:265-267 | a send on the channel always finds room |
| ProxyTeardown.ConnectionsClosedExactlyAfterCopies | internal/cardano/cardanocli/socketproxy.go:242-275 | at the end both connections are closed and the channel is empty; no connection is closed while a copy uses it; no deadline is set before a teardown was triggered |

## Left out

- The HTTP and subprocess clients: their answers are arbitrary values and errors.
- SQL, JSON and Prometheus: tables are sequences of rows, schedules integer sequences, metrics maps from labels to numbers.
- The pool, network and status watchers, the HTTP server, configuration, database opening and all wiring: straight-line code around libraries. Health is a free boolean per tick.
- Logging, and the log of health changes with it.
- LastUpdate, the time stamp of the saved position: nothing reads it.
- NextEpochScheduler.RunNextEpochScheduler: the refresh it asks for is not run inside the loop; `ScheduleRefresh` covers refreshes started at any moment, and one that takes longer than the interval delays the next check.
- A concurrency limit on a refresh: it only removes interleavings from those considered.
- ScheduleRefresh.Service.Refresh: the form with a concurrency limit of one; without that limit its tasks are those of the interleaving model.
- BlockWatcher.BlockWatcher.StartTick: all reads of one tick see one table, and those after a transition a second one; rows inserted between two reads of the same tick are not modelled.
- BlockWatcher.BlockWatcher.Start: the ticker, and the error returned when the context is cancelled; a process is followed for any finite number of ticks, and every prefix of them is covered.
- Epochs.SlotWithinEpochEnd: for epoch slots numbered from 1 or lower, which covers both conventions in use.
- Polling.PollingIsOnePass: at most one epoch begins between two healthy ticks, as with at least one such tick per epoch.
- SocketProxy.SocketProxy.constructor: the empty endpoint list is refused by the program with an error and is a precondition here; the listener and the accept loop are not part of this model.
- Failed reads reported as "no rows" cannot come from a select into a list; they are modelled because IsSlotLeader handles them.
