/** What processes with a single pool do, for concrete runs. */
module OnePool {
  import opened Pools
  import opened SlotLeader
  import opened Upstream
  import opened WatcherModel
  import opened Coverage

  /** The pool may be without slots, so nothing is asked about its next one. */
  lemma {:induction false} OneMayBeEmpty(pools: seq<Pool>, w: Watcher, t: Tick)
    requires |pools| == 1 && pools[0].allowEmptySlots && t.latest.Got?
    ensures NextOf(pools, w, t).reply.Ok?
  {
    var height, gauge := t.latest.value.slot, w.metrics.nextSlotLeader;
    assert NextLeadersFrom(pools, t.table, t.nextFaults, height, w.position.epoch, 1, gauge).reply == Ok(true);
  }

  /** Nor is it checked for slots. */
  lemma {:induction false} OneIsAssigned(pools: seq<Pool>, table: Table, faults: Faults, epoch: int)
    requires |pools| == 1 && pools[0].allowEmptySlots
    ensures AssignedFrom(pools, table, faults, epoch, 0) == AllAssigned
  {
    assert AssignedFrom(pools, table, faults, epoch, 1) == AllAssigned;
  }

  lemma {:induction false} WorksWithOnePool(pools: seq<Pool>, w: Watcher, t: Tick)
    requires |pools| == 1 && pools[0].allowEmptySlots && t.healthy && Ahead(w, t)
    ensures Works(pools, w, t)
  {
    hide NextOf;
    OneMayBeEmpty(pools, w, t);
  }

  /** A scan of one slot. */
  lemma {:induction false} OneSlotScan(c: Context, slot: int)
    requires |c.pools| == 1 && Settled(VisitOf(c, c.pools[0], slot))
    ensures ScanFrom(c, slot, slot) == Scan(EventsOf(c, c.pools[0], slot), slot, Completed)
  {
    hide VisitOf, EventsOf;
    var events := EventsOf(c, c.pools[0], slot);
    assert PassFrom(c, slot, 1) == Pass([], Completed);
    assert ScanFrom(c, slot + 1, slot) == Scan([], slot, Completed);
    assert events + [] == events;
  }

  /** A tick that sees the next slot of the epoch, where the pool misses its block. */
  lemma {:induction false} OneMiss(pools: seq<Pool>, w: Watcher, t: Tick)
    requires |pools| == 1 && pools[0].allowEmptySlots && t.healthy && t.latest.Got?
    requires t.latest.value == Block(w.position.epoch, w.position.slot + 1, t.latest.value.epochSlot)
    requires VisitOf(Context(pools, t.table, t.oracle, w.position.epoch), pools[0], w.position.slot + 1) == Classified(Missed)
    ensures var (w1, flow) := TickOf(pools, w, t);
            && flow.Continue? && w1.position == Position(w.position.epoch, w.position.slot + 1)
            && w1.log == w.log + [Event(pools[0], w.position.epoch, w.position.slot + 1, Missed)]
            && w1.resetAt == w.resetAt
  {
    hide VisitOf, ScanFrom, CountAll, SaveRow, NextOf;
    OneSlotScan(Context(pools, t.table, t.oracle, w.position.epoch), w.position.slot + 1);
    OneMayBeEmpty(pools, w, t);
  }

  /** A tick that finds nothing left to visit and moves to a new epoch. */
  lemma {:induction false} IdleMove(pools: seq<Pool>, w: Watcher, t: Tick)
    requires |pools| == 1 && pools[0].allowEmptySlots && t.healthy && t.latest.Got? && EntersNewEpoch(w, t)
    requires EndSlot(w, t).Got? && EndSlot(w, t).value <= w.position.slot
    requires t.latestEpoch.Got? && t.transitionWrite.Committed? && t.refresh.NoError?
    ensures var (w1, flow) := TickOf(pools, w, t);
            && flow.Continue? && w1.position == Position(t.latestEpoch.value, w.position.slot)
            && w1.log == w.log && w1.resetAt == |w.log|
  {
    hide ResetMetrics, SaveRow, NextOf, AssignedFrom;
    OneMayBeEmpty(pools, w, t);
    OneIsAssigned(pools, t.tableAfter, t.assignedFaults, t.latestEpoch.value);
  }

  /** A tick that closes an epoch with one slot left to visit, where the pool has no part, and moves
      to the next. */
  lemma {:induction false} QuietClose(pools: seq<Pool>, w: Watcher, t: Tick)
    requires |pools| == 1 && pools[0].allowEmptySlots && t.healthy && t.latest.Got? && EntersNewEpoch(w, t)
    requires EndSlot(w, t) == Got(w.position.slot + 1)
    requires VisitOf(Context(pools, t.table, t.oracle, w.position.epoch), pools[0], w.position.slot + 1).Quiet?
    requires t.latestEpoch.Got? && t.transitionWrite.Committed? && t.refresh.NoError?
    ensures TickOf(pools, w, t).1.Continue?
  {
    hide VisitOf, ScanFrom, CountAll, ResetMetrics, SaveRow, NextOf, AssignedFrom;
    OneSlotScan(Context(pools, t.table, t.oracle, w.position.epoch), w.position.slot + 1);
    OneMayBeEmpty(pools, w, t);
    OneIsAssigned(pools, t.tableAfter, t.assignedFaults, t.latestEpoch.value);
  }

  lemma NotFoundSaysSo()
    ensures SaysNotFound("not found")
  {
    assert MatchesAt("not found", 0, "not found");
  }

  /** One row with one slot, and no block there. */
  lemma {:induction false} MissedVisit(c: Context, slot: int)
    requires |c.pools| == 1 && |c.table| == 1 && c.oracle == Oracle(map[], map[], map[])
    requires c.table[0] == Row(1, c.epoch, c.pools[0].id, 1, [slot])
    ensures VisitOf(c, c.pools[0], slot) == Classified(Missed)
  {
    hide HasRow, Schedule, Quantity, SaysNotFound;
    OnlyRow(c.table, c.epoch);
    NotFoundSaysSo();
  }

  /** A start that resumes at the saved row. */
  lemma {:induction false} OneResumes(pools: seq<Pool>, rows: seq<StateRow>, b: Boot)
    requires |pools| == 1 && pools[0].allowEmptySlots && |rows| == 1 && b.stateReadable
    requires b.currentEpoch.Got? && b.currentEpoch.value <= rows[0].position.epoch
    ensures var (w, flow) := StartUp(pools, rows, b);
            flow.Continue? && w.position == rows[0].position && w.rows == rows && w.log == [] && w.resetAt == 0
  {
    hide ResetMetrics, AssignedFrom;
    OneIsAssigned(pools, b.table, b.assignedFaults, rows[0].position.epoch);
  }
}
