/** The next-leader gauge against what processing the slots then does. */
module NextLeader {
  import opened Pools
  import opened ScheduleRefresh
  import opened SlotLeader
  import opened WatcherModel
  import opened Coverage
  import opened Epochs

  /** The answer a pool's gauge is set from, for a readable, positive, ascending schedule. */
  ghost predicate Announces(c: Context, p: Pool, height: int, next: int) {
    && NextSlotReply(c.table, p.id, height, c.epoch, NoFault) == Ok(next)
    && Ascending(Schedule(c.table, p.id, c.epoch))
    && forall k :: 0 <= k < |Schedule(c.table, p.id, c.epoch)| ==> Schedule(c.table, p.id, c.epoch)[k] > 0
  }

  lemma AnnouncedIsLeast(c: Context, p: Pool, height: int, next: int)
    requires Announces(c, p, height, next)
    ensures next == 0 <==> forall s :: s in Schedule(c.table, p.id, c.epoch) ==> s <= height
    ensures next != 0 ==> next in Schedule(c.table, p.id, c.epoch) && height < next
    ensures next != 0 ==> forall s :: s in Schedule(c.table, p.id, c.epoch) && height < s ==> next <= s
  {
    FirstAboveIsLeast(Schedule(c.table, p.id, c.epoch), height);
  }

  /** Processing from just above the height classifies nothing for the pool before the announced
      slot - nothing at all when 0 is announced - whatever fails or crashes on the way. */
  lemma NothingBeforeAnnounced(c: Context, i: nat, height: int, next: int, end: int)
    requires i < |c.pools| && DistinctIds(c.pools) && UniqueKeys(c.table) && height < end
    requires Announces(c, c.pools[i], height, next)
    ensures forall e :: e in ScanFrom(c, height + 1, end).events && e.pool == c.pools[i] ==> next != 0 && next <= e.slot
  {
    hide ScanFrom, Announces, Schedule, UniqueKeys, OnceEach;
    AnnouncedIsLeast(c, c.pools[i], height, next);
    ScanFromScheduled(c, height + 1, end, c.table);
    ScanFromOnce(c, height + 1, end);
  }

  /** And once processing has got past it, the announced slot is on record for the pool. */
  lemma AnnouncedIsClassified(c: Context, i: nat, height: int, next: int, end: int)
    requires i < |c.pools| && DistinctIds(c.pools) && Counted(c.table) && HonestDriver(c.oracle)
    requires Announces(c, c.pools[i], height, next) && next != 0 && next <= end
    requires var scan := ScanFrom(c, height + 1, end); next <= scan.last && !GivenUp(scan, i, next)
    ensures Logs(ScanFrom(c, height + 1, end).events, c.pools[i], next)
  {
    hide ScanFrom, Announces, Schedule, Counted, HonestDriver, Logs, GivenUp;
    AnnouncedIsLeast(c, c.pools[i], height, next);
    ScanCoverage(c, height + 1, end, i, next);
  }

  // ---------- the gauge, and the ticks that follow ----------

  /** The queries of the pools k, ..., i that must have slots all get an answer. */
  predicate AnsweredUpTo(pools: seq<Pool>, table: Table, faults: Faults, height: int, epoch: int, k: nat, i: nat)
    requires i < |pools|
  {
    forall j :: k <= j <= i && !pools[j].allowEmptySlots ==>
      NextSlotReply(table, pools[j].id, height, epoch, FaultOf(faults, pools[j].id)).Ok?
  }

  /** The gauge of a pool that must have slots is set to the answer to its own query if that query is
      reached and answered; every other gauge stays as it was. */
  lemma {:induction false} GaugeIsTheAnswer(pools: seq<Pool>, table: Table, faults: Faults, height: int, epoch: int,
                                            k: nat, gauge: map<Label, int>, i: nat)
    requires DistinctIds(pools) && k <= |pools| && i < |pools|
    ensures var gauge' := NextLeadersFrom(pools, table, faults, height, epoch, k, gauge).gauge; var l := LabelOf(pools[i], epoch);
            if k <= i && !pools[i].allowEmptySlots && AnsweredUpTo(pools, table, faults, height, epoch, k, i) then
              l in gauge' && NextSlotReply(table, pools[i].id, height, epoch, NoFault) == Ok(gauge'[l])
            else
              (l in gauge' <==> l in gauge) && (l in gauge ==> gauge'[l] == gauge[l])
    decreases |pools| - k
  {
    hide FaultOf, HasRow, Schedule, FirstAbove;
    if k < |pools| {
      var p := pools[k];
      var reply := NextSlotReply(table, p.id, height, epoch, FaultOf(faults, p.id));
      if p.allowEmptySlots {
        GaugeIsTheAnswer(pools, table, faults, height, epoch, k + 1, gauge, i);
      } else if reply.Ok? {
        GaugeIsTheAnswer(pools, table, faults, height, epoch, k + 1, gauge[LabelOf(p, epoch) := reply.value], i);
      }
    }
  }

  lemma {:induction false} AllAnswered(pools: seq<Pool>, table: Table, faults: Faults, height: int, epoch: int,
                                       k: nat, gauge: map<Label, int>, i: nat)
    requires k <= |pools| && i < |pools| && NextLeadersFrom(pools, table, faults, height, epoch, k, gauge).reply.Ok?
    ensures AnsweredUpTo(pools, table, faults, height, epoch, k, i)
    decreases |pools| - k
  {
    hide NextSlotReply, FaultOf;
    if k < |pools| {
      var p := pools[k];
      var reply := NextSlotReply(table, p.id, height, epoch, FaultOf(faults, p.id));
      AllAnswered(pools, table, faults, height, epoch, k + 1,
                  if p.allowEmptySlots then gauge else gauge[LabelOf(p, epoch) := reply.value], i);
    }
  }

  /** The rest of a tick leaves those gauges alone. */
  lemma TickKeepsGauge(pools: seq<Pool>, w: Watcher, t: Tick)
    requires t.healthy && t.latest.Got?
    ensures TickOf(pools, w, t).0.metrics.nextSlotLeader == NextOf(pools, w, t).gauge
  {
    hide NextOf, ScanFrom, AssignedFrom, SaveRow, CountAll;
    var next := NextOf(pools, w, t);
    var w0 := w.(metrics := w.metrics.(nextSlotLeader := next.gauge));
    if next.reply.Ok? && EndSlot(w0, t).Got? {
      CountingKeepsGauge(w0.metrics, ScanOf(pools, w0, t, EndSlot(w0, t).value).events);
    }
  }

  lemma {:induction false} CountingKeepsGauge(m: Metrics, events: seq<Event>)
    ensures CountAll(m, events).nextSlotLeader == m.nextSlotLeader
    decreases |events|
  {
    if events != [] {
      CountingKeepsGauge(Count(m, events[0]), events[1..]);
    }
  }

  /** What a tick that sets its gauges shows for a pool that must have slots. */
  lemma TickAnnounces(pools: seq<Pool>, w: Watcher, t: Tick, i: nat)
    requires DistinctIds(pools) && i < |pools| && !pools[i].allowEmptySlots
    requires t.healthy && t.latest.Got? && NextOf(pools, w, t).reply.Ok?
    ensures var gauge := TickOf(pools, w, t).0.metrics.nextSlotLeader; var l := LabelOf(pools[i], w.position.epoch);
            && l in gauge
            && NextSlotReply(t.table, pools[i].id, t.latest.value.slot, w.position.epoch, NoFault) == Ok(gauge[l])
  {
    hide TickOf, NextLeadersFrom, NextSlotReply;
    TickKeepsGauge(pools, w, t);
    GaugeIsTheAnswer(pools, t.table, t.nextFaults, t.latest.value.slot, w.position.epoch, 0, w.metrics.nextSlotLeader, i);
    AllAnswered(pools, t.table, t.nextFaults, t.latest.value.slot, w.position.epoch, 0, w.metrics.nextSlotLeader, i);
  }

  /** The gauge tells the truth about all that follows.  A tick sees a block at slot `height` and sets
      the gauge of a pool; then, through that tick and all later ones of the epoch, the pool is
      classified at no slot between the height and the gauge, and at none above the height when the
      gauge is 0.  Once the run has got past it from below, the slot shown is on record for the pool,
      unless it was given up. */
  lemma GaugeForetells(pools: seq<Pool>, w: Watcher, t: Tick, ts: seq<Tick>, table: Table, i: nat, s: int)
    requires DistinctIds(pools) && i < |pools| && !pools[i].allowEmptySlots
    requires t.healthy && t.latest.Got? && NextOf(pools, w, t).reply.Ok?
    requires WithinEpoch(pools, table, w.position.epoch, w, [t] + ts) && UniqueKeys(table) && Counted(table)
    requires Ascending(Schedule(table, pools[i].id, w.position.epoch))
    requires forall x :: x in Schedule(table, pools[i].id, w.position.epoch) ==> x > 0
    ensures var l := LabelOf(pools[i], w.position.epoch); l in TickOf(pools, w, t).0.metrics.nextSlotLeader
    ensures var next := TickOf(pools, w, t).0.metrics.nextSlotLeader[LabelOf(pools[i], w.position.epoch)];
            var w' := Ticks(pools, w, [t] + ts).0;
            && w.log <= w'.log
            && (Logs(w'.log[|w.log|..], pools[i], s) && t.latest.value.slot < s ==> next != 0 && next <= s)
            && (next != 0 && w.position.slot < next <= Reach(pools, w, [t] + ts) && !LostByTicks(pools, w, [t] + ts, i, next) ==>
                  Logs(w'.log[|w.log|..], pools[i], next))
  {
    hide TickOf, NextOf, Ticks, Schedule, Logs, Reach, LostByTicks, HonestDriver, UniqueKeys, Counted, HasRow;
    var height, epoch := t.latest.value.slot, w.position.epoch;
    var schedule := Schedule(table, pools[i].id, epoch);
    TickAnnounces(pools, w, t, i);
    var next := TickOf(pools, w, t).0.metrics.nextSlotLeader[LabelOf(pools[i], epoch)];
    assert ([t] + ts)[0] == t;
    SameSchedule(t.table, table, pools[i].id, epoch);
    assert forall k :: 0 <= k < |schedule| ==> schedule[k] in schedule;
    FirstAboveIsLeast(schedule, height);
    ExactCoverage(pools, w, [t] + ts, table, i, s);
    ExactCoverage(pools, w, [t] + ts, table, i, next);
  }
}
