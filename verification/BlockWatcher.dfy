/** The block watcher as the program has it: objects whose fields change tick by tick. */
module BlockWatcher {
  import opened Pools
  import opened SlotLeader
  import opened ScheduleRefresh
  import opened Upstream
  import opened WatcherModel

  class BlockWatcherState {
    var epoch: int
    var slot: int
    var rows: seq<StateRow>

    constructor (rows: seq<StateRow>)
      ensures Here() == NOWHERE && this.rows == rows
    {
      epoch, slot, this.rows := 0, 0, rows;
    }

    function Here(): Position
      reads this`epoch, this`slot
    {
      Position(epoch, slot)
    }

    /** Memory moves first; the write may then be lost. */
    method Save(epoch: int, slot: int, write: Write) returns (ok: bool)
      modifies this
      ensures Here() == Position(epoch, slot)
      ensures rows == SaveRow(old(rows), Position(epoch, slot), write)
      ensures ok <==> write.Committed?
    {
      this.epoch, this.slot := epoch, slot;
      if !write.Lost? {
        rows := Without(rows, 1) + [StateRow(1, Position(epoch, slot))];
      }
      return write.Committed?;
    }

    method LoadFromBlockfrost(latest: Answer<Block>) returns (ok: bool)
      modifies this`epoch, this`slot
      ensures ok <==> latest.Got?
      ensures Here() == if ok then Position(latest.value.epoch, latest.value.slot) else old(Here())
    {
      if latest.Failure? {
        return false;
      }
      epoch, slot := latest.value.epoch, latest.value.slot;
      return true;
    }

    method Load(b: Boot) returns (ok: bool)
      modifies this`epoch, this`slot
      ensures Loaded(Here(), rows, ok) == WatcherModel.Load(old(rows), old(Here()), b)
    {
      if !b.stateReadable {
        return false;
      }
      if |rows| == 0 {
        ok := LoadFromBlockfrost(b.latest);
        return;
      }
      epoch, slot := rows[0].position.epoch, rows[0].position.slot;
      return true;
    }

    method LoadAndReconcile(b: Boot, currentEpoch: int) returns (ok: bool)
      modifies this
      ensures Loaded(Here(), rows, ok) == WatcherModel.LoadAndReconcile(old(rows), old(Here()), b, currentEpoch)
    {
      ok := Load(b);
      if !ok {
        return false;
      }
      if currentEpoch > epoch {
        if b.firstBlock.Failure? {
          return false;
        }
        epoch, slot := currentEpoch, b.firstBlock.value.slot;
        ok := Save(epoch, slot, b.write);
      }
    }
  }

  class MetricsCollection {
    var missed: map<Label, nat>
    var consecutive: map<Label, nat>
    var validated: map<Label, nat>
    var orphaned: map<Label, nat>
    var nextSlotLeader: map<Label, int>
    var latestSlot: int

    constructor ()
      ensures View() == NO_METRICS
    {
      missed, consecutive, validated, orphaned := map[], map[], map[], map[];
      nextSlotLeader, latestSlot := map[], 0;
    }

    function View(): Metrics
      reads this
    {
      Metrics(missed, consecutive, validated, orphaned, nextSlotLeader, latestSlot)
    }

    method LogMissedBlock(p: Pool, slot: int, epoch: int)
      modifies this
      ensures View() == Count(old(View()), Event(p, epoch, slot, Missed))
    {
      missed := Inc(missed, LabelOf(p, epoch));
      consecutive := Inc(consecutive, LabelOf(p, epoch));
    }

    method LogValidatedBlock(p: Pool, slot: int, epoch: int)
      modifies this
      ensures View() == Count(old(View()), Event(p, epoch, slot, Validated))
    {
      validated := Inc(validated, LabelOf(p, epoch));
      consecutive := consecutive[LabelOf(p, epoch) := 0];
    }

    method LogOrphanedBlock(p: Pool, slot: int, epoch: int)
      modifies this
      ensures View() == Count(old(View()), Event(p, epoch, slot, Orphaned))
    {
      orphaned := Inc(orphaned, LabelOf(p, epoch));
    }

    method Reset(active: seq<Pool>, epoch: int)
      modifies this
      ensures View() == ResetMetrics(old(View()), active, epoch)
    {
      missed, validated, orphaned := map[], map[], map[];
      for i := 0 to |active|
        invariant nextSlotLeader == old(nextSlotLeader) && latestSlot == old(latestSlot)
        invariant missed == validated == orphaned == Touch(map[], active[..i], epoch)
        invariant consecutive == Touch(old(consecutive), active[..i], epoch)
      {
        var l := LabelOf(active[i], epoch);
        assert active[..i + 1][..i] == active[..i];
        missed := missed[l := Read(missed, l)];
        consecutive := consecutive[l := Read(consecutive, l)];
        validated := validated[l := Read(validated, l)];
        orphaned := orphaned[l := Read(orphaned, l)];
      }
      assert active[..|active|] == active;
    }
  }

  /** The metrics and the log after `done`, started from `m` and `l`. */
  ghost predicate Recorded(m: Metrics, l: seq<Event>, done: seq<Event>, m': Metrics, l': seq<Event>) {
    l' == l + done && m' == CountAll(m, done)
  }

  lemma RecordMore(m: Metrics, l: seq<Event>, done: seq<Event>, m': Metrics, l': seq<Event>, e: seq<Event>)
    requires Recorded(m, l, done, m', l')
    ensures Recorded(m, l, done + e, CountAll(m', e), l' + e)
  {
    CountAllAppend(m, done, e);
  }

  lemma RecordJoin(m: Metrics, l: seq<Event>, done: seq<Event>, m': Metrics, l': seq<Event>, e: seq<Event>,
                   m'': Metrics, l'': seq<Event>)
    requires Recorded(m, l, done, m', l') && Recorded(m', l', e, m'', l'')
    ensures Recorded(m, l, done + e, m'', l'')
  {
    RecordMore(m, l, done, m', l', e);
  }

  lemma RecordNone(m: Metrics, l: seq<Event>)
    ensures Recorded(m, l, [], m, l)
  {
    assert l + [] == l;
  }

  /** `done` and what the pass still yields from pool `k` on make up the pass. */
  ghost predicate PassedSoFar(whole: Pass, done: seq<Event>, rest: Pass) {
    whole == Pass(done + rest.events, rest.stop)
  }

  lemma NothingPassed(whole: Pass)
    ensures PassedSoFar(whole, [], whole)
  {
    assert [] + whole.events == whole.events;
  }

  lemma PassEnds(whole: Pass, done: seq<Event>, stop: Stop)
    requires PassedSoFar(whole, done, Pass([], stop))
    ensures whole == Pass(done, stop)
  {
    assert done + [] == done;
  }

  lemma PassDone(c: Context, slot: int)
    ensures PassFrom(c, slot, |c.pools|) == Pass([], Completed)
  {
  }

  lemma PassMoves(whole: Pass, done: seq<Event>, e: seq<Event>, rest: Pass)
    requires PassedSoFar(whole, done, Pass(e + rest.events, rest.stop))
    ensures PassedSoFar(whole, done + e, rest)
  {
    assert done + (e + rest.events) == (done + e) + rest.events;
  }

  lemma PassStops(c: Context, slot: int, k: nat)
    requires k < |c.pools|
    requires VisitOf(c, c.pools[k], slot).VisitFails? || VisitOf(c, c.pools[k], slot).VisitPanics?
    ensures PassFrom(c, slot, k) == Pass([], if VisitOf(c, c.pools[k], slot).VisitFails? then Aborted(k) else Crashed(k))
    ensures EventsOf(c, c.pools[k], slot) == []
  {
  }

  lemma PassGoesOn(c: Context, slot: int, k: nat)
    requires k < |c.pools|
    requires !VisitOf(c, c.pools[k], slot).VisitFails? && !VisitOf(c, c.pools[k], slot).VisitPanics?
    ensures PassFrom(c, slot, k)
         == Pass(EventsOf(c, c.pools[k], slot) + PassFrom(c, slot, k + 1).events, PassFrom(c, slot, k + 1).stop)
  {
  }

  /** The same for the slots of a scan. */
  ghost predicate ScannedSoFar(whole: Scan, done: seq<Event>, rest: Scan) {
    whole == rest.(events := done + rest.events)
  }

  lemma NothingScanned(whole: Scan)
    ensures ScannedSoFar(whole, [], whole)
  {
    assert [] + whole.events == whole.events;
  }

  /** What is left when the slots before `slot` are done is the pass that stops, or nothing. */
  lemma ScanEnds(whole: Scan, done: seq<Event>, events: seq<Event>, last: int, stop: Stop)
    requires ScannedSoFar(whole, done, Scan(events, last, stop))
    ensures whole == Scan(done + events, last, stop)
  {
  }

  lemma ScanDone(c: Context, end: int)
    ensures ScanFrom(c, end + 1, end) == Scan([], end, Completed)
  {
  }

  lemma ScanMoves(whole: Scan, done: seq<Event>, e: seq<Event>, rest: Scan)
    requires ScannedSoFar(whole, done, rest.(events := e + rest.events))
    ensures ScannedSoFar(whole, done + e, rest)
  {
    assert done + (e + rest.events) == (done + e) + rest.events;
  }

  lemma ScanStops(c: Context, slot: int, end: int)
    requires slot <= end && PassFrom(c, slot, 0).stop != Completed
    ensures ScanFrom(c, slot, end) == Scan(PassFrom(c, slot, 0).events, slot, PassFrom(c, slot, 0).stop)
  {
  }

  lemma ScanGoesOn(c: Context, slot: int, end: int)
    requires slot <= end && PassFrom(c, slot, 0).stop == Completed
    ensures var rest := ScanFrom(c, slot + 1, end);
            ScanFrom(c, slot, end) == rest.(events := PassFrom(c, slot, 0).events + rest.events)
  {
  }

  class BlockWatcher {
    const pools: seq<Pool>
    const state: BlockWatcherState
    const metrics: MetricsCollection
    ghost var log: seq<Event>
    ghost var resetAt: nat

    constructor (pools: seq<Pool>, state: BlockWatcherState, metrics: MetricsCollection)
      ensures this.pools == pools && this.state == state && this.metrics == metrics
      ensures log == [] && resetAt == 0
    {
      this.pools, this.state, this.metrics := pools, state, metrics;
      log, resetAt := [], 0;
    }

    ghost function View(): Watcher
      reads this, state, metrics
    {
      Watcher(state.Here(), state.rows, metrics.View(), log, resetAt)
    }

    method ProcessLeaderSlot(c: Context, p: Pool, slot: int) returns (visit: Visit)
      modifies this`log, metrics
      ensures visit == LeaderVisit(p, c.oracle.BlockAt(p.id, slot))
      ensures var events := if visit.Classified? then [Event(p, c.epoch, slot, visit.outcome)] else [];
              log == old(log) + events && metrics.View() == CountAll(old(metrics.View()), events)
    {
      var reply := c.oracle.BlockAt(p.id, slot);
      match reply {
        case Error(message) =>
          if !SaysNotFound(message) {
            return VisitFails;
          }
          metrics.LogMissedBlock(p, slot, c.epoch);
          visit := Classified(Missed);
        case Found(leader) =>
          if leader == p.id {
            metrics.LogValidatedBlock(p, slot, c.epoch);
            visit := Classified(Validated);
          } else {
            metrics.LogOrphanedBlock(p, slot, c.epoch);
            visit := Classified(Orphaned);
          }
      }
      log := log + [Event(p, c.epoch, slot, visit.outcome)];
    }

    method ProcessPoolSlot(c: Context, p: Pool, slot: int) returns (visit: Visit)
      modifies this`log, metrics
      ensures visit == VisitOf(c, p, slot)
      ensures log == old(log) + EventsOf(c, p, slot)
      ensures metrics.View() == CountAll(old(metrics.View()), EventsOf(c, p, slot))
    {
      var empty := IsSlotsEmpty(c.table, p.id, c.epoch, c.oracle.EmptyFault(p.id, slot));
      if empty.Err? {
        return VisitFails;
      }
      if empty.Panic? {
        return VisitPanics;
      }
      if empty.value && p.allowEmptySlots {
        return Quiet;
      }
      var leads := IsSlotLeader(c.table, p.id, slot, c.epoch, c.oracle.LeaderFault(p.id, slot));
      if leads.Err? {
        return VisitFails;
      }
      if leads.Panic? {
        return VisitPanics;
      }
      if leads.value {
        visit := ProcessLeaderSlot(c, p, slot);
        return;
      }
      return Quiet;
    }

    /** The inner loop: the active pools in order, at one slot. */
    method ProcessSlot(c: Context, slot: int) returns (stop: Stop)
      requires c.pools == Active(pools)
      modifies this`log, metrics
      ensures var pass := PassFrom(c, slot, 0);
              stop == pass.stop && Recorded(old(metrics.View()), old(log), pass.events, metrics.View(), log)
    {
      hide VisitOf, EventsOf, PassFrom, CountAll, Recorded, PassedSoFar;
      ghost var m, l, done := metrics.View(), log, [];
      ghost var whole := PassFrom(c, slot, 0);
      RecordNone(m, l);
      NothingPassed(whole);
      var active := GetActivePools(pools);
      for k := 0 to |active|
        invariant Recorded(m, l, done, metrics.View(), log)
        invariant PassedSoFar(whole, done, PassFrom(c, slot, k))
      {
        ghost var e := EventsOf(c, active[k], slot);
        RecordMore(m, l, done, metrics.View(), log, e);
        var visit := ProcessPoolSlot(c, active[k], slot);
        if visit.VisitFails? {
          PassStops(c, slot, k);
          PassEnds(whole, done, Aborted(k));
          assert done + [] == done;
          return Aborted(k);
        }
        if visit.VisitPanics? {
          PassStops(c, slot, k);
          PassEnds(whole, done, Crashed(k));
          assert done + [] == done;
          return Crashed(k);
        }
        PassGoesOn(c, slot, k);
        PassMoves(whole, done, e, PassFrom(c, slot, k + 1));
        done := done + e;
      }
      PassDone(c, slot);
      PassEnds(whole, done, Completed);
      return Completed;
    }

    /** Visits the slots in order; a failing slot is the one reported. */
    method ProcessSlots(c: Context, start: int, end: int) returns (last: int, stop: Stop)
      requires c.pools == Active(pools) && start <= end
      modifies this`log, metrics
      ensures var s := ScanFrom(c, start, end);
              && last == s.last && stop == s.stop
              && Recorded(old(metrics.View()), old(log), s.events, metrics.View(), log)
    {
      hide PassFrom, ScanFrom, CountAll, Recorded, ScannedSoFar;
      ghost var m, l, done := metrics.View(), log, [];
      ghost var whole := ScanFrom(c, start, end);
      RecordNone(m, l);
      NothingScanned(whole);
      for slot := start to end + 1
        invariant Recorded(m, l, done, metrics.View(), log)
        invariant ScannedSoFar(whole, done, ScanFrom(c, slot, end))
      {
        ghost var e := PassFrom(c, slot, 0).events;
        ghost var m1, l1 := metrics.View(), log;
        stop := ProcessSlot(c, slot);
        RecordJoin(m, l, done, m1, l1, e, metrics.View(), log);
        if stop != Completed {
          ScanStops(c, slot, end);
          ScanEnds(whole, done, e, slot, stop);
          return slot, stop;
        }
        ScanGoesOn(c, slot, end);
        ScanMoves(whole, done, e, ScanFrom(c, slot + 1, end));
        done := done + e;
      }
      ScanDone(c, end);
      ScanEnds(whole, done, [], end, Completed);
      assert done + [] == done;
      return end, Completed;
    }

    method EnsurePoolHasLeaderSlots(table: Table, faults: Faults) returns (r: Assigned)
      ensures r == AssignedFrom(Active(pools), table, faults, state.epoch, 0)
    {
      hide SlotsEmptyReply, FaultOf;
      var active := GetActivePools(pools);
      for k := 0 to |active|
        invariant AssignedFrom(active, table, faults, state.epoch, 0) == AssignedFrom(active, table, faults, state.epoch, k)
      {
        if !active[k].allowEmptySlots {
          var empty := IsSlotsEmpty(table, active[k].id, state.epoch, FaultOf(faults, active[k].id));
          if empty.Panic? {
            return AssignedPanics;
          }
          if empty.Ok? && empty.value {
            return NotAssigned(k);
          }
        }
      }
      return AllAssigned;
    }

    method FetchAndLogNextSlotLeaders(table: Table, faults: Faults, height: int) returns (r: Reply<bool>)
      modifies metrics
      ensures var next := NextLeadersFrom(Active(pools), table, faults, height, state.epoch, 0, old(metrics.nextSlotLeader));
              r == next.reply && metrics.View() == old(metrics.View()).(nextSlotLeader := next.gauge)
    {
      hide NextSlotReply, LabelOf, FaultOf;
      var active := GetActivePools(pools);
      for k := 0 to |active|
        invariant metrics.View() == old(metrics.View()).(nextSlotLeader := metrics.nextSlotLeader)
        invariant NextLeadersFrom(active, table, faults, height, state.epoch, 0, old(metrics.nextSlotLeader))
               == NextLeadersFrom(active, table, faults, height, state.epoch, k, metrics.nextSlotLeader)
      {
        if !active[k].allowEmptySlots {
          var next := GetNextSlotLeader(table, active[k].id, height, state.epoch, FaultOf(faults, active[k].id));
          if next.Err? {
            return Err;
          }
          if next.Panic? {
            return Panic;
          }
          metrics.nextSlotLeader := metrics.nextSlotLeader[LabelOf(active[k], state.epoch) := next.value];
        }
      }
      return Ok(true);
    }

    method InitMetrics()
      modifies this`resetAt, metrics
      ensures View() == ResetNow(Active(pools), old(View()))
    {
      var active := GetActivePools(pools);
      metrics.Reset(active, state.epoch);
      resetAt := |log|;
    }

    method StartWatcherAndDetectEpochTransition(t: Tick) returns (flow: Flow, epochTransition: bool)
      requires t.latest.Got?
      modifies this`log, state, metrics
      ensures epochTransition == EntersNewEpoch(old(View()), t)
      ensures (View(), flow) == Process(Active(pools), old(View()), t)
    {
      var startSlot := state.slot + 1;
      var endSlot := t.latest.value.slot;
      epochTransition := t.latest.value.epoch > state.epoch;
      if epochTransition {
        if t.lastBlock.Failure? {
          return Logged, epochTransition;
        }
        var remaining := MAX_SLOT_PER_EPOCH - t.lastBlock.value.epochSlot;
        endSlot := t.lastBlock.value.slot + remaining;
      }
      if startSlot <= endSlot {
        var c := Context(Active(pools), t.table, t.oracle, state.epoch);
        var last, stop := ProcessSlots(c, startSlot, endSlot);
        if stop.Crashed? {
          return Panicked, epochTransition;
        }
        var _ := state.Save(state.epoch, last, t.write);
        if stop.Aborted? {
          return Logged, epochTransition;
        }
        metrics.latestSlot := last;
      }
      return Continue, epochTransition;
    }

    method HandleEpochTransition(t: Tick) returns (flow: Flow)
      modifies state
      ensures (View(), flow) == HandleTransition(Active(pools), old(View()), t)
    {
      if t.latestEpoch.Failure? {
        return Logged;
      }
      var saved := state.Save(t.latestEpoch.value, state.slot, t.transitionWrite);
      if !saved {
        return Logged;
      }
      match t.refresh {
        case RefreshFailed(leaderLogs) =>
          return if leaderLogs then Returned else Logged;
        case NoError =>
      }
      var check := EnsurePoolHasLeaderSlots(t.tableAfter, t.assignedFaults);
      match check {
        case AllAssigned => return Continue;
        case NotAssigned(_) => return Logged;
        case AssignedPanics => return Panicked;
      }
    }

    /** One tick of the loop; the health gate is the caller's. */
    method StartTick(t: Tick) returns (flow: Flow)
      requires t.healthy
      modifies this`log, this`resetAt, state, metrics
      ensures (View(), flow) == TickOf(Active(pools), old(View()), t)
    {
      if t.latest.Failure? {
        return Logged;
      }
      var next := FetchAndLogNextSlotLeaders(t.table, t.nextFaults, t.latest.value.slot);
      if next.Err? {
        return Logged;
      }
      if next.Panic? {
        return Panicked;
      }
      var epochTransition;
      flow, epochTransition := StartWatcherAndDetectEpochTransition(t);
      if flow.Continue? && epochTransition {
        flow := HandleEpochTransition(t);
        if flow.Continue? {
          InitMetrics();
        }
      }
    }

    /** A whole process, from the start until it ends or the ticks run out. */
    method Start(b: Boot, ts: seq<Tick>) returns (flow: Flow)
      requires state.Here() == NOWHERE && metrics.View() == NO_METRICS && log == [] && resetAt == 0
      modifies this`log, this`resetAt, state, metrics
      ensures (View(), flow) == Lifetime(Active(pools), old(state.rows), b, ts)
    {
      if b.currentEpoch.Failure? {
        return Returned;
      }
      var loaded := state.LoadAndReconcile(b, b.currentEpoch.value);
      if !loaded {
        return Returned;
      }
      InitMetrics();
      var enough := EnsurePoolHasLeaderSlots(b.table, b.assignedFaults);
      if enough.NotAssigned? {
        return Returned;
      }
      if enough.AssignedPanics? {
        return Panicked;
      }
      ghost var first := View();
      for i := 0 to |ts|
        invariant Ticks(Active(pools), first, ts) == Ticks(Active(pools), View(), ts[i..])
      {
        if ts[i].healthy {
          flow := StartTick(ts[i]);
          if !Alive(flow) {
            return flow;
          }
        }
        assert ts[i..][1..] == ts[i + 1..];
      }
      return Continue;
    }
  }
}
