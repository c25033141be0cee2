/** What one tick, and one start, leave behind: the saved row, the reset, the labels, and when the
    process goes on. */
module TickEffects {
  import opened Pools
  import opened ScheduleRefresh
  import opened WatcherModel
  import opened Coverage
  import opened IndexSafety
  import Restarts

  // ---------- when the process goes on ----------

  lemma ProcessContinues(pools: seq<Pool>, w: Watcher, t: Tick)
    requires t.latest.Got?
    ensures Process(pools, w, t).1.Continue? <==>
              EndSlot(w, t).Got? && (Ahead(w, t) ==> ScanIn(pools, w, t).stop == Completed)
  {
    hide ScanFrom, CountAll, SaveRow, EndSlot;
  }

  /** A tick goes through if and only if the watcher is unhealthy, or it sees a block, every pool that
      must have slots shows its next one, there is an end slot, the scan up to it completes and, in a
      new epoch, the transition succeeds in all its parts. */
  lemma TickContinuesExactly(pools: seq<Pool>, w: Watcher, t: Tick)
    ensures TickOf(pools, w, t).1.Continue? <==>
              || !t.healthy
              || (&& t.latest.Got? && NextOf(pools, w, t).reply.Ok? && EndSlot(w, t).Got?
                  && (Ahead(w, t) ==> ScanIn(pools, w, t).stop == Completed)
                  && (EntersNewEpoch(w, t) ==>
                        && t.latestEpoch.Got? && t.transitionWrite.Committed? && t.refresh.NoError?
                        && AssignedFrom(pools, t.tableAfter, t.assignedFaults, t.latestEpoch.value, 0).AllAssigned?))
  {
    hide NextOf, WatcherModel.Process, Transit, AssignedFrom, ScanIn, EndSlot;
    if t.healthy && t.latest.Got? {
      var w0 := w.(metrics := w.metrics.(nextSlotLeader := NextOf(pools, w, t).gauge));
      PositionSteers(pools, w, w0, t);
      ProcessContinues(pools, w0, t);
      TransitEndings(pools, Process(pools, w0, t).0, t);
    }
  }

  /** The error returned to the caller is the leader-log error of a transition, and no other. */
  lemma TickReturnsExactly(pools: seq<Pool>, w: Watcher, t: Tick)
    ensures TickOf(pools, w, t).1.Returned? <==>
              Transits(pools, w, t) && t.latestEpoch.Got? && t.transitionWrite.Committed? && t.refresh == RefreshFailed(true)
  {
    hide TickOf, Transits, Transit, AssignedFrom;
    TickEndings(pools, w, t);
    TransitEndings(pools, w, t);
  }

  /** A tick that sees nothing changes nothing, and one that cannot show the next leaders changes
      nothing but those. */
  lemma BlindTick(pools: seq<Pool>, w: Watcher, t: Tick)
    ensures !t.healthy || t.latest.Failure? ==> TickOf(pools, w, t).0 == w
    ensures t.healthy && t.latest.Got? && !NextOf(pools, w, t).reply.Ok? ==>
              TickOf(pools, w, t).0 == w.(metrics := w.metrics.(nextSlotLeader := NextOf(pools, w, t).gauge))
  {
    hide NextOf;
  }

  /** A tick that returns its error or panics is the last; after any other the ticks go on. */
  lemma {:induction false} LastTick(pools: seq<Pool>, w: Watcher, t: Tick, ts: seq<Tick>)
    ensures var (w1, flow) := TickOf(pools, w, t);
            Ticks(pools, w, [t] + ts) == if flow.Returned? || flow.Panicked? then (w1, flow) else Ticks(pools, w1, ts)
  {
    hide TickOf;
    assert ([t] + ts)[0] == t && ([t] + ts)[1..] == ts;
  }

  // ---------- the saved row ----------

  /** The table holds the position and nothing else. */
  predicate SavedIsCurrent(w: Watcher) { w.rows == [StateRow(1, w.position)] }

  predicate RowsAreOurs(rows: seq<StateRow>) { |rows| <= 1 && (rows != [] ==> rows[0].id == 1) }

  lemma ProcessSaves(pools: seq<Pool>, w: Watcher, t: Tick)
    requires t.latest.Got? && RowsAreOurs(w.rows)
    ensures var w1 := Process(pools, w, t).0;
            w1.rows == if Ahead(w, t) && !ScanIn(pools, w, t).stop.Crashed? && !t.write.Lost?
                       then [StateRow(1, Position(w.position.epoch, ScanIn(pools, w, t).last))] else w.rows
  {
    hide ScanFrom, SaveRow, EndSlot, CountAll;
    if Ahead(w, t) {
      Restarts.SaveReplaces(w.rows, Position(w.position.epoch, ScanIn(pools, w, t).last), t.write);
    }
  }

  lemma TransitSaves(pools: seq<Pool>, w: Watcher, t: Tick)
    requires RowsAreOurs(w.rows)
    ensures var w1 := Transit(pools, w, t).0;
            && w1.position == (if t.latestEpoch.Got? then Position(t.latestEpoch.value, w.position.slot) else w.position)
            && w1.rows == if t.latestEpoch.Got? && !t.transitionWrite.Lost? then [StateRow(1, w1.position)] else w.rows
  {
    hide AssignedFrom, ResetMetrics, SaveRow;
    if t.latestEpoch.Got? {
      Restarts.SaveReplaces(w.rows, Position(t.latestEpoch.value, w.position.slot), t.transitionWrite);
    }
  }

  /** The table after a tick: the position after the transition if that was saved, else the slot the
      scan stopped at if that was, else what it was. */
  lemma TickSavesExactly(pools: seq<Pool>, w: Watcher, t: Tick)
    requires RowsAreOurs(w.rows)
    ensures var w1 := TickOf(pools, w, t).0;
            w1.rows ==
              if Transits(pools, w, t) && t.latestEpoch.Got? && !t.transitionWrite.Lost? then [StateRow(1, w1.position)]
              else if Works(pools, w, t) && !ScanIn(pools, w, t).stop.Crashed? && !t.write.Lost? then
                [StateRow(1, Position(w.position.epoch, ScanIn(pools, w, t).last))]
              else w.rows
  {
    hide NextOf, WatcherModel.Process, Transit, ScanIn, EndSlot;
    if t.healthy && t.latest.Got? {
      var w0 := w.(metrics := w.metrics.(nextSlotLeader := NextOf(pools, w, t).gauge));
      PositionSteers(pools, w, w0, t);
      ProcessSaves(pools, w0, t);
      TransitSaves(pools, Process(pools, w0, t).0, t);
    }
  }

  /** As long as no write is lost the table holds the position after every tick, and it does so from
      the first scan that does not panic on. */
  lemma TickKeepsSaved(pools: seq<Pool>, w: Watcher, t: Tick)
    requires RowsAreOurs(w.rows) && !t.write.Lost? && !t.transitionWrite.Lost?
    requires SavedIsCurrent(w) || (Works(pools, w, t) && !ScanIn(pools, w, t).stop.Crashed?)
    ensures SavedIsCurrent(TickOf(pools, w, t).0)
  {
    hide TickOf, NextOf, ScanIn, EndSlot, WatcherModel.Process, Transit;
    TickSavesExactly(pools, w, t);
    TickShape(pools, w, t);
    TickEndings(pools, w, t);
    TransitSaves(pools, w, t);
    if t.latest.Got? {
      ProcessContinues(pools, w, t);
    }
  }

  lemma {:induction false} SavedOverRuns(pools: seq<Pool>, w: Watcher, ts: seq<Tick>)
    requires SavedIsCurrent(w) && forall k :: 0 <= k < |ts| ==> !ts[k].write.Lost? && !ts[k].transitionWrite.Lost?
    ensures SavedIsCurrent(Ticks(pools, w, ts).0)
    decreases |ts|
  {
    hide TickOf;
    if ts != [] {
      TickKeepsSaved(pools, w, ts[0]);
      var (w1, flow) := TickOf(pools, w, ts[0]);
      if Alive(flow) {
        SavedOverRuns(pools, w1, ts[1..]);
      }
    }
  }

  // ---------- the metrics ----------

  /** The last slot shown is that of the last scan that completed. */
  lemma TickShowsLatestSlot(pools: seq<Pool>, w: Watcher, t: Tick)
    ensures TickOf(pools, w, t).0.metrics.latestSlot ==
              if Works(pools, w, t) && ScanIn(pools, w, t).stop == Completed then TickOf(pools, w, t).0.position.slot
              else w.metrics.latestSlot
  {
    hide NextOf, ScanFrom, AssignedFrom, SaveRow, CountAll, EndSlot;
    if t.healthy && t.latest.Got? {
      var w0 := w.(metrics := w.metrics.(nextSlotLeader := NextOf(pools, w, t).gauge));
      PositionSteers(pools, w, w0, t);
      if Ahead(w0, t) {
        CountingKeepsLatest(w0.metrics, ScanIn(pools, w0, t).events);
      }
    }
  }

  lemma {:induction false} CountingKeepsLatest(m: Metrics, events: seq<Event>)
    ensures CountAll(m, events).latestSlot == m.latestSlot
    decreases |events|
  {
    if events != [] {
      CountingKeepsLatest(Count(m, events[0]), events[1..]);
    }
  }

  function LabelsOf(pools: seq<Pool>, epoch: int): set<Label> { set p | p in pools :: LabelOf(p, epoch) }

  lemma {:induction false} TouchCreates(m: map<Label, nat>, pools: seq<Pool>, epoch: int)
    ensures Touch(m, pools, epoch).Keys == m.Keys + LabelsOf(pools, epoch)
  {
    if pools == [] {
      assert LabelsOf(pools, epoch) == {};
    } else {
      var init, p := pools[..|pools| - 1], pools[|pools| - 1];
      TouchCreates(m, init, epoch);
      assert pools == init + [p];
      assert LabelsOf(pools, epoch) == LabelsOf(init, epoch) + {LabelOf(p, epoch)};
    }
  }

  /** The counters exist for exactly the labels of the pools in the epoch, and the gauge for those. */
  predicate Labelled(m: Metrics, pools: seq<Pool>, epoch: int) {
    && m.missed.Keys == m.validated.Keys == m.orphaned.Keys == LabelsOf(pools, epoch)
    && LabelsOf(pools, epoch) <= m.consecutive.Keys
  }

  lemma ResetLabels(m: Metrics, pools: seq<Pool>, epoch: int)
    ensures Labelled(ResetMetrics(m, pools, epoch), pools, epoch)
  {
    TouchCreates(map[], pools, epoch);
    TouchCreates(m.consecutive, pools, epoch);
  }

  /** The counters are reset if and only if the tick makes a transition and goes through, and then
      every pool has its counters for the new epoch, and no other. */
  lemma TickResetsExactly(pools: seq<Pool>, w: Watcher, t: Tick)
    ensures var (w1, flow) := TickOf(pools, w, t);
            if Transits(pools, w, t) && flow.Continue? then
              w1.resetAt == |w1.log| && Labelled(w1.metrics, pools, w1.position.epoch)
            else w1.resetAt == w.resetAt
  {
    hide NextOf, WatcherModel.Process, HandleTransition, ResetMetrics, EndSlot;
    if t.healthy && t.latest.Got? {
      var w0 := w.(metrics := w.metrics.(nextSlotLeader := NextOf(pools, w, t).gauge));
      PositionSteers(pools, w, w0, t);
      ProcessKeepsReset(pools, w0, t);
      var w1 := Process(pools, w0, t).0;
      HandlingKeepsReset(pools, w1, t);
      var w2 := HandleTransition(pools, w1, t).0;
      ResetLabels(w2.metrics, pools, w2.position.epoch);
    }
  }

  lemma ProcessKeepsReset(pools: seq<Pool>, w: Watcher, t: Tick)
    requires t.latest.Got?
    ensures Process(pools, w, t).0.resetAt == w.resetAt
  {
    hide ScanFrom, CountAll, SaveRow, EndSlot;
  }

  lemma HandlingKeepsReset(pools: seq<Pool>, w: Watcher, t: Tick)
    ensures HandleTransition(pools, w, t).0.resetAt == w.resetAt && HandleTransition(pools, w, t).0.log == w.log
  {
    hide AssignedFrom, SaveRow;
  }

  // ---------- the start ----------

  /** What a start loads, if it can: the saved position, or the latest block when nothing is saved. */
  predicate Loads(rows: seq<StateRow>, b: Boot, from: Position) {
    && b.stateReadable
    && (if rows != [] then from == rows[0].position
        else b.latest.Got? && from.epoch == b.latest.value.epoch && from.slot == b.latest.value.slot)
  }

  /** A start goes on if and only if the epoch is known, a position can be loaded, the jump to a newer
      epoch has its first block and is saved, and every pool that must have slots is found to have
      some; it panics if and only if it gets to that check and the check does.  It then stands at the first block of the newer epoch, which is the one saved row, or else
      where it was loaded, with the rows as they were; its record is empty and its counters are those
      of its epoch. */
  lemma StartsExactly(pools: seq<Pool>, rows: seq<StateRow>, b: Boot, from: Position)
    requires RowsAreOurs(rows) && Loads(rows, b, from)
    ensures var (w, flow) := StartUp(pools, rows, b);
            var newer := b.currentEpoch.Got? && from.epoch < b.currentEpoch.value;
            && (flow.Continue? <==>
                  && b.currentEpoch.Got? && (newer ==> b.firstBlock.Got? && b.write.Committed?)
                  && AssignedFrom(pools, b.table, b.assignedFaults, if newer then b.currentEpoch.value else from.epoch, 0).AllAssigned?)
            && (flow.Panicked? <==>
                  && b.currentEpoch.Got? && (newer ==> b.firstBlock.Got? && b.write.Committed?)
                  && AssignedFrom(pools, b.table, b.assignedFaults, if newer then b.currentEpoch.value else from.epoch, 0).AssignedPanics?)
            && (flow.Continue? ==>
                  && w.position == (if newer then Position(b.currentEpoch.value, b.firstBlock.value.slot) else from)
                  && w.rows == (if newer then [StateRow(1, w.position)] else rows)
                  && w.log == [] && w.resetAt == 0 && Labelled(w.metrics, pools, w.position.epoch))
  {
    hide AssignedFrom, ResetMetrics, SaveRow;
    if b.currentEpoch.Got? {
      var newer := from.epoch < b.currentEpoch.value;
      if newer && b.firstBlock.Got? {
        Restarts.SaveReplaces(rows, Position(b.currentEpoch.value, b.firstBlock.value.slot), b.write);
      }
      ResetLabels(NO_METRICS, pools, if newer then b.currentEpoch.value else from.epoch);
    }
  }

  /** And where nothing can be loaded it does not go on. */
  lemma NothingLoadedNoStart(pools: seq<Pool>, rows: seq<StateRow>, b: Boot)
    requires !b.stateReadable || (rows == [] && b.latest.Failure?)
    ensures StartUp(pools, rows, b).1.Returned?
  {
  }

  /** A start on an empty table stands at exactly the latest block, saves nothing, takes that slot as
      the base, and never classifies that slot or an earlier one. */
  lemma EmptyTableStartsAtLatestBlock(pools: seq<Pool>, x: Restarts.World, b: Boot, ts: seq<Tick>)
    requires DistinctIds(pools) && x.rows == [] && x.process.Stopped?
    requires b.stateReadable && b.latest.Got? && b.currentEpoch.Got? && b.currentEpoch.value <= b.latest.value.epoch
    requires StartUp(pools, x.rows, b).1.Continue?
    ensures var x' := Restarts.Do(pools, x, Restarts.Start(b));
            && x'.process == Restarts.Up(StartUp(pools, x.rows, b).0)
            && x'.process.w.position == Position(b.latest.value.epoch, b.latest.value.slot)
            && x'.rows == [] && x'.base == b.latest.value.slot && x'.ledger == x.ledger
    ensures forall e :: e in Lifetime(pools, x.rows, b, ts).0.log ==> b.latest.value.slot < e.slot
  {
    hide StartUp, Ticks;
    StartsExactly(pools, x.rows, b, Position(b.latest.value.epoch, b.latest.value.slot));
    Restarts.NothingBeforeTheStart(pools, StartUp(pools, x.rows, b).0, ts, b.latest.value.slot);
  }
}
