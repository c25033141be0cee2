/** Which (pool, slot) pairs a process classifies, whatever the outside answers. */
module Coverage {
  import opened Pools
  import opened SlotLeader
  import opened WatcherModel

  // ---------- a pass and a scan in closed form ----------

  /** What the pools at positions k, ..., j - 1 yield at one slot. */
  function PassEvents(c: Context, slot: int, k: nat, j: nat): seq<Event>
    requires j <= |c.pools|
    decreases j - k
  {
    if k >= j then [] else EventsOf(c, c.pools[k], slot) + PassEvents(c, slot, k + 1, j)
  }

  /** What all pools yield at the slots lo, ..., hi. */
  function ScanEvents(c: Context, lo: int, hi: int): seq<Event>
    decreases hi - lo
  {
    if lo > hi then [] else PassEvents(c, lo, 0, |c.pools|) + ScanEvents(c, lo + 1, hi)
  }

  predicate Settled(v: Visit) { v.Quiet? || v.Classified? }

  lemma SettledHasRow(c: Context, p: Pool, slot: int)
    requires Settled(VisitOf(c, p, slot))
    ensures HasRow(c.table, p.id, c.epoch)
  {
  }

  /** How far into the pool list a pass got. */
  function StopIndex(c: Context, stop: Stop): nat {
    match stop case Completed => |c.pools| case Aborted(k) => k case Crashed(k) => k
  }

  lemma {:induction false} PassShape(c: Context, slot: int, k: nat)
    requires k <= |c.pools|
    ensures var pass := PassFrom(c, slot, k); var j := StopIndex(c, pass.stop);
            && k <= j <= |c.pools|
            && (pass.stop != Completed ==> j < |c.pools|)
            && pass.events == PassEvents(c, slot, k, j)
            && (pass.stop.Aborted? ==> VisitOf(c, c.pools[j], slot).VisitFails?)
            && (pass.stop.Crashed? ==> VisitOf(c, c.pools[j], slot).VisitPanics?)
    decreases |c.pools| - k
  {
    hide VisitOf, EventsOf;
    if k < |c.pools| && Settled(VisitOf(c, c.pools[k], slot)) {
      PassShape(c, slot, k + 1);
    }
  }

  lemma {:induction false} PassVisits(c: Context, slot: int, k: nat, i: nat)
    requires k <= i < |c.pools| && i < StopIndex(c, PassFrom(c, slot, k).stop)
    ensures Settled(VisitOf(c, c.pools[i], slot))
    decreases i - k
  {
    hide VisitOf, EventsOf;
    PassShape(c, slot, k);
    if k < i {
      PassVisits(c, slot, k + 1, i);
    }
  }

  /** A scan covers its slots without a gap: all pools at every slot before the last, and at the
      last one the pools before the one that stopped it. */
  lemma {:induction false} ScanShape(c: Context, slot: int, end: int)
    requires slot <= end + 1
    ensures var s := ScanFrom(c, slot, end); var j := StopIndex(c, s.stop);
            && (s.stop == Completed ==> s.last == end && s.events == ScanEvents(c, slot, end))
            && (s.stop != Completed ==>
                  (&& slot <= s.last <= end && j < |c.pools|
                   && s.stop == PassFrom(c, s.last, 0).stop
                   && s.events == ScanEvents(c, slot, s.last - 1) + PassEvents(c, s.last, 0, j)))
    decreases end - slot
  {
    hide VisitOf, EventsOf;
    if slot <= end {
      PassShape(c, slot, 0);
      var pass := PassFrom(c, slot, 0);
      if pass.stop == Completed {
        ScanShape(c, slot + 1, end);
        var rest := ScanFrom(c, slot + 1, end);
        if rest.stop != Completed {
          var j := StopIndex(c, rest.stop);
          assert pass.events + (ScanEvents(c, slot + 1, rest.last - 1) + PassEvents(c, rest.last, 0, j))
              == (pass.events + ScanEvents(c, slot + 1, rest.last - 1)) + PassEvents(c, rest.last, 0, j);
        }
      } else {
        assert [] + pass.events == pass.events;
      }
    }
  }

  /** So a scan with a slot to visit ends on one of its slots. */
  lemma ScanReaches(c: Context, slot: int, end: int)
    requires slot <= end
    ensures slot <= ScanFrom(c, slot, end).last <= end
  {
    hide ScanFrom, PassFrom, ScanEvents, PassEvents;
    ScanShape(c, slot, end);
  }

  /** Before the slot a scan stopped at, every pass was complete. */
  lemma {:induction false} EarlierPassesComplete(c: Context, slot: int, end: int, s: int)
    requires slot <= s <= end && (ScanFrom(c, slot, end).stop != Completed ==> s < ScanFrom(c, slot, end).last)
    ensures PassFrom(c, s, 0).stop == Completed
    decreases s - slot
  {
    hide VisitOf, EventsOf, PassFrom;
    ScanShape(c, slot, end);
    if slot < s && PassFrom(c, slot, 0).stop == Completed {
      EarlierPassesComplete(c, slot + 1, end, s);
    }
  }

  // ---------- one tick ----------

  /** There is a slot to reach and it lies ahead. */
  predicate Ahead(w: Watcher, t: Tick) {
    t.latest.Got? && EndSlot(w, t).Got? && w.position.slot + 1 <= EndSlot(w, t).value
  }

  /** The tick gets to the slot loop with at least one slot to process. */
  predicate Works(pools: seq<Pool>, w: Watcher, t: Tick) {
    && t.healthy && Ahead(w, t)
    && NextOf(pools, w, t).reply.Ok?
  }

  function ScanIn(pools: seq<Pool>, w: Watcher, t: Tick): Scan
    requires t.latest.Got? && EndSlot(w, t).Got?
  {
    ScanOf(pools, w, t, EndSlot(w, t).value)
  }

  /** Only the position decides where a tick wants to go, what it scans and how processing ends. */
  lemma PositionSteers(pools: seq<Pool>, w: Watcher, w0: Watcher, t: Tick)
    requires w.position == w0.position && t.latest.Got?
    ensures EndSlot(w0, t) == EndSlot(w, t) && (Ahead(w0, t) <==> Ahead(w, t))
    ensures Ahead(w, t) ==> ScanIn(pools, w0, t) == ScanIn(pools, w, t)
    ensures Process(pools, w0, t).1 == Process(pools, w, t).1
  {
    hide ScanFrom, CountAll, SaveRow;
  }

  /** What a tick does to the position and the record: it scans, or it leaves the slot alone. */
  lemma TickShape(pools: seq<Pool>, w: Watcher, t: Tick)
    ensures var (w1, flow) := TickOf(pools, w, t);
            && (!Works(pools, w, t) ==> w1.log == w.log && w1.position.slot == w.position.slot)
            && (Works(pools, w, t) ==>
                  var s := ScanIn(pools, w, t);
                  && w1.log == w.log + s.events
                  && w1.position.slot == (if s.stop.Crashed? then w.position.slot else s.last)
                  && (s.stop.Crashed? ==> flow.Panicked?)
                  && (s.stop.Aborted? ==> flow.Logged?))
  {
    hide ScanFrom, AssignedFrom, NextLeadersFrom, ResetMetrics, CountAll, SaveRow;
  }

  /** A tick that gets to work and survives it moves the position forward by at least one slot and
      never past the slot it wants to reach. */
  lemma WorkAdvances(pools: seq<Pool>, w: Watcher, t: Tick)
    requires Works(pools, w, t) && !ScanIn(pools, w, t).stop.Crashed?
    ensures w.position.slot < TickOf(pools, w, t).0.position.slot <= EndSlot(w, t).value
  {
    hide TickOf, ScanFrom, NextLeadersFrom, EndSlot;
    TickShape(pools, w, t);
    ScanReaches(Context(pools, t.table, t.oracle, w.position.epoch), w.position.slot + 1, EndSlot(w, t).value);
  }

  // ---------- at most once ----------

  predicate OnceEach(log: seq<Event>) {
    forall i, j :: 0 <= i < j < |log| ==> log[i].pool.id != log[j].pool.id || log[i].slot != log[j].slot
  }

  /** All slots of the events lie in (lo, hi]. */
  predicate Between(events: seq<Event>, lo: int, hi: int) {
    forall e :: e in events ==> lo < e.slot <= hi
  }

  lemma OnceEachJoins(a: seq<Event>, b: seq<Event>, lo: int, mid: int, hi: int)
    requires OnceEach(a) && OnceEach(b) && Between(a, lo, mid) && Between(b, mid, hi) && lo <= mid <= hi
    ensures OnceEach(a + b) && Between(a + b, lo, hi)
  {
    forall i, j | 0 <= i < |a| <= j < |a + b|
      ensures (a + b)[i].slot != (a + b)[j].slot
    {
      assert a[i] in a && b[j - |a|] in b;
    }
  }

  lemma {:induction false} PassOnce(c: Context, slot: int, k: nat, j: nat)
    requires DistinctIds(c.pools) && j <= |c.pools|
    ensures var events := PassEvents(c, slot, k, j);
            && OnceEach(events) && Between(events, slot - 1, slot)
            && forall e :: e in events ==> e.epoch == c.epoch && exists i :: k <= i < j && e.pool == c.pools[i]
    decreases j - k
  {
    hide VisitOf;
    if k < j {
      PassOnce(c, slot, k + 1, j);
      var first, rest := EventsOf(c, c.pools[k], slot), PassEvents(c, slot, k + 1, j);
      forall i | 0 <= i < |rest|
        ensures rest[i].pool.id != c.pools[k].id
      {
        assert rest[i] in rest;
      }
    }
  }

  lemma {:induction false} ScanOnce(c: Context, lo: int, hi: int)
    requires DistinctIds(c.pools) && lo <= hi + 1
    ensures OnceEach(ScanEvents(c, lo, hi)) && Between(ScanEvents(c, lo, hi), lo - 1, hi)
    decreases hi - lo
  {
    if lo <= hi {
      PassOnce(c, lo, 0, |c.pools|);
      ScanOnce(c, lo + 1, hi);
      OnceEachJoins(PassEvents(c, lo, 0, |c.pools|), ScanEvents(c, lo + 1, hi), lo - 1, lo, hi);
    }
  }

  lemma ScanFromOnce(c: Context, slot: int, end: int)
    requires DistinctIds(c.pools) && slot <= end
    ensures var s := ScanFrom(c, slot, end); OnceEach(s.events) && Between(s.events, slot - 1, s.last)
  {
    hide VisitOf, EventsOf, PassFrom, ScanFrom, PassEvents, ScanEvents;
    ScanShape(c, slot, end);
    var s := ScanFrom(c, slot, end);
    if s.stop == Completed {
      ScanOnce(c, slot, end);
    } else {
      var j := StopIndex(c, s.stop);
      ScanOnce(c, slot, s.last - 1);
      PassOnce(c, s.last, 0, j);
      OnceEachJoins(ScanEvents(c, slot, s.last - 1), PassEvents(c, s.last, 0, j), slot - 1, s.last - 1, s.last);
    }
  }

  /** No pair is on record twice, and the record does not run ahead of the position. */
  predicate OnRecordOnce(w: Watcher, lo: int) {
    OnceEach(w.log) && Between(w.log, lo, w.position.slot) && lo <= w.position.slot
  }

  lemma WorkOnce(pools: seq<Pool>, w: Watcher, t: Tick, lo: int)
    requires DistinctIds(pools) && OnRecordOnce(w, lo) && Ahead(w, t)
    ensures var s := ScanIn(pools, w, t);
            OnceEach(w.log + s.events) && Between(w.log + s.events, lo, s.last) && w.position.slot <= s.last
  {
    hide ScanFrom, OnceEach, Between, EndSlot;
    var c := Context(pools, t.table, t.oracle, w.position.epoch);
    var end := EndSlot(w, t).value;
    ScanFromOnce(c, w.position.slot + 1, end);
    ScanReaches(c, w.position.slot + 1, end);
    OnceEachJoins(w.log, ScanIn(pools, w, t).events, lo, w.position.slot, ScanIn(pools, w, t).last);
  }

  lemma TickOnce(pools: seq<Pool>, w: Watcher, t: Tick, lo: int)
    requires DistinctIds(pools) && OnRecordOnce(w, lo)
    ensures var (w1, flow) := TickOf(pools, w, t);
            && OnceEach(w1.log) && w.log <= w1.log && w.position.slot <= w1.position.slot
            && (Alive(flow) ==> OnRecordOnce(w1, lo))
  {
    hide TickOf, NextLeadersFrom, OnceEach, Between, ScanIn;
    TickShape(pools, w, t);
    if Works(pools, w, t) {
      WorkOnce(pools, w, t, lo);
    }
  }

  /** Whatever the outside answers on each tick - rolled-back blocks, wrong last blocks, errors,
      lost writes - one process never classifies a pair twice and its slot never decreases. */
  lemma {:induction false} AtMostOncePerProcess(pools: seq<Pool>, w: Watcher, ts: seq<Tick>, lo: int)
    requires DistinctIds(pools) && OnRecordOnce(w, lo)
    ensures var (w', flow) := Ticks(pools, w, ts);
            && OnceEach(w'.log) && w.log <= w'.log && w.position.slot <= w'.position.slot
            && (Alive(flow) ==> OnRecordOnce(w', lo))
    decreases |ts|
  {
    hide TickOf, OnceEach, Between;
    if ts != [] {
      var (w1, flow) := TickOf(pools, w, ts[0]);
      TickOnce(pools, w, ts[0], lo);
      if Alive(flow) {
        AtMostOncePerProcess(pools, w1, ts[1..], lo);
      }
    }
  }

  /** A start-up leaves an empty record, so the above holds of every process. */
  lemma AtMostOncePerLifetime(pools: seq<Pool>, rows: seq<StateRow>, b: Boot, ts: seq<Tick>)
    requires DistinctIds(pools)
    ensures OnceEach(Lifetime(pools, rows, b, ts).0.log)
  {
    var (w, flow) := StartUp(pools, rows, b);
    if flow.Continue? {
      AtMostOncePerProcess(pools, w, ts, w.position.slot);
    }
  }

  // ---------- exactly which pairs, within one epoch ----------

  /** The driver never reports "no rows" for a select into a list. */
  predicate HonestDriver(o: Oracle) {
    forall key :: key in o.leaderFaults ==> o.leaderFaults[key] != NoRowsReported
  }

  /** A visit classifies exactly the scheduled slots.  The shortcut for pools that may be without
      slots changes nothing, because a row that is empty has no leader slot. */
  lemma VisitMeaning(c: Context, p: Pool, slot: int)
    requires Counted(c.table) && HonestDriver(c.oracle) && Settled(VisitOf(c, p, slot))
    ensures VisitOf(c, p, slot).Classified? <==> slot in Schedule(c.table, p.id, c.epoch)
    ensures c.oracle.LeaderFault(p.id, slot).NoFault? ==>
              VisitOf(c, p, slot) == VisitOf(c, p.(allowEmptySlots := false), slot)
  {
    if HasRow(c.table, p.id, c.epoch) {
      EmptyByEitherCount(c.table, p.id, c.epoch);
    }
  }

  predicate Logs(events: seq<Event>, p: Pool, slot: int) {
    exists e :: e in events && e.pool == p && e.slot == slot
  }

  lemma LogsJoin(a: seq<Event>, b: seq<Event>, p: Pool, slot: int)
    ensures Logs(a + b, p, slot) <==> Logs(a, p, slot) || Logs(b, p, slot)
  {
    forall e | e in a || e in b
      ensures e in a + b
    {
    }
  }

  lemma {:induction false} PassLogs(c: Context, slot: int, k: nat, j: nat, i: nat, s: int)
    requires DistinctIds(c.pools) && j <= |c.pools| && i < |c.pools|
    ensures Logs(PassEvents(c, slot, k, j), c.pools[i], s) <==>
              s == slot && k <= i < j && VisitOf(c, c.pools[i], slot).Classified?
    decreases j - k
  {
    hide VisitOf;
    if k < j {
      PassLogs(c, slot, k + 1, j, i, s);
      LogsJoin(EventsOf(c, c.pools[k], slot), PassEvents(c, slot, k + 1, j), c.pools[i], s);
      var v := VisitOf(c, c.pools[k], slot);
      if v.Classified? {
        assert Event(c.pools[k], c.epoch, slot, v.outcome) in EventsOf(c, c.pools[k], slot);
      }
    }
  }

  lemma {:induction false} ScanLogs(c: Context, lo: int, hi: int, i: nat, s: int)
    requires DistinctIds(c.pools) && i < |c.pools|
    ensures Logs(ScanEvents(c, lo, hi), c.pools[i], s) <==>
              lo <= s <= hi && VisitOf(c, c.pools[i], s).Classified?
    decreases hi - lo
  {
    hide VisitOf, PassEvents;
    if lo <= hi {
      PassLogs(c, lo, 0, |c.pools|, i, s);
      ScanLogs(c, lo + 1, hi, i, s);
      LogsJoin(PassEvents(c, lo, 0, |c.pools|), ScanEvents(c, lo + 1, hi), c.pools[i], s);
    }
  }

  /** The pair (position of the pool, slot) that a scan gave up on by stopping early: the pool it
      stopped at and those after it, at the slot it stopped at. */
  predicate GivenUp(s: Scan, i: nat, slot: int) {
    s.stop != Completed && slot == s.last && s.stop.k <= i
  }

  lemma ScanVisits(c: Context, slot: int, end: int, i: nat, s: int)
    requires i < |c.pools| && slot <= end && slot <= s <= ScanFrom(c, slot, end).last
    requires !GivenUp(ScanFrom(c, slot, end), i, s)
    ensures Settled(VisitOf(c, c.pools[i], s))
  {
    hide VisitOf, ScanFrom, PassFrom, PassEvents, ScanEvents;
    ScanShape(c, slot, end);
    var scan := ScanFrom(c, slot, end);
    if scan.stop == Completed || s < scan.last {
      EarlierPassesComplete(c, slot, end, s);
    }
    PassVisits(c, s, 0, i);
  }

  /** A scan classifies exactly the scheduled pairs it reaches, less what it gives up on. */
  lemma ScanCoverage(c: Context, slot: int, end: int, i: nat, s: int)
    requires DistinctIds(c.pools) && i < |c.pools| && slot <= end
    requires Counted(c.table) && HonestDriver(c.oracle)
    ensures var scan := ScanFrom(c, slot, end);
            Logs(scan.events, c.pools[i], s) <==>
              slot <= s <= scan.last && s in Schedule(c.table, c.pools[i].id, c.epoch) && !GivenUp(scan, i, s)
  {
    hide VisitOf, ScanFrom, PassFrom, PassEvents, ScanEvents, Schedule, Counted, HonestDriver;
    var scan := ScanFrom(c, slot, end);
    ScanShape(c, slot, end);
    var j := StopIndex(c, scan.stop);
    if scan.stop == Completed {
      ScanLogs(c, slot, end, i, s);
    } else {
      ScanLogs(c, slot, scan.last - 1, i, s);
      PassLogs(c, scan.last, 0, j, i, s);
      LogsJoin(ScanEvents(c, slot, scan.last - 1), PassEvents(c, scan.last, 0, j), c.pools[i], s);
    }
    if slot <= s <= scan.last && !GivenUp(scan, i, s) {
      ScanVisits(c, slot, end, i, s);
      VisitMeaning(c, c.pools[i], s);
    }
  }

  /** What the tick reads belongs to `table`, and the driver is honest. */
  predicate Reads(t: Tick, table: Table) { t.table <= table && HonestDriver(t.oracle) }

  /** The ticks of a run while the position is in one epoch; `table` is the table in the end, to
      which rows may be added all along.  The last tick may be the one that closes the epoch. */
  predicate WithinEpoch(pools: seq<Pool>, table: Table, epoch: int, w: Watcher, ts: seq<Tick>)
    decreases |ts|
  {
    ts != [] ==>
      var (w1, flow) := TickOf(pools, w, ts[0]);
      && w.position.epoch == epoch && Reads(ts[0], table)
      && (Alive(flow) ==> WithinEpoch(pools, table, epoch, w1, ts[1..]))
  }

  /** The last slot a tick begins; the position's slot if it begins none. */
  function ReachOf(pools: seq<Pool>, w: Watcher, t: Tick): int {
    if Works(pools, w, t) then ScanIn(pools, w, t).last else w.position.slot
  }

  /** The last slot a run begins. */
  function Reach(pools: seq<Pool>, w: Watcher, ts: seq<Tick>): int
    decreases |ts|
  {
    if ts == [] then w.position.slot
    else
      var (w1, flow) := TickOf(pools, w, ts[0]);
      if Alive(flow) then Reach(pools, w1, ts[1..]) else ReachOf(pools, w, ts[0])
  }

  /** Some tick of the run stopped early while processing and gave up on the pair. */
  predicate LostByTicks(pools: seq<Pool>, w: Watcher, ts: seq<Tick>, i: nat, slot: int)
    decreases |ts|
  {
    ts != [] &&
    var (w1, flow) := TickOf(pools, w, ts[0]);
    || (Works(pools, w, ts[0]) && GivenUp(ScanIn(pools, w, ts[0]), i, slot))
    || (Alive(flow) && LostByTicks(pools, w1, ts[1..], i, slot))
  }

  /** A tick that the process survives, or that ends it with an error, leaves the position where it got. */
  lemma TickReaches(pools: seq<Pool>, w: Watcher, t: Tick)
    ensures var (w1, flow) := TickOf(pools, w, t);
            && w.position.slot <= ReachOf(pools, w, t)
            && (!flow.Panicked? ==> w1.position.slot == ReachOf(pools, w, t))
            && w.log <= w1.log
  {
    hide TickOf, ScanFrom, NextOf, EndSlot;
    TickShape(pools, w, t);
    if Works(pools, w, t) {
      ScanReaches(Context(pools, t.table, t.oracle, w.position.epoch), w.position.slot + 1, EndSlot(w, t).value);
    }
  }

  /** The same against the table in the end: where a scan got through, the row was there already. */
  lemma ScanCoverageLater(c: Context, slot: int, end: int, table: Table, i: nat, s: int)
    requires DistinctIds(c.pools) && i < |c.pools| && slot <= end
    requires c.table <= table && UniqueKeys(table) && Counted(table) && HonestDriver(c.oracle)
    ensures var scan := ScanFrom(c, slot, end);
            Logs(scan.events, c.pools[i], s) <==>
              slot <= s <= scan.last && s in Schedule(table, c.pools[i].id, c.epoch) && !GivenUp(scan, i, s)
  {
    hide ScanFrom, GivenUp, Schedule, HonestDriver, UniqueKeys, Counted, Settled, Logs, HasRow;
    CountedPrefix(c.table, table);
    ScanCoverage(c, slot, end, i, s);
    if slot <= s <= ScanFrom(c, slot, end).last && !GivenUp(ScanFrom(c, slot, end), i, s) {
      ScanVisits(c, slot, end, i, s);
      SettledHasRow(c, c.pools[i], s);
      SameSchedule(c.table, table, c.pools[i].id, c.epoch);
    }
  }

  lemma TickCoverage(pools: seq<Pool>, w: Watcher, t: Tick, table: Table, i: nat, s: int)
    requires DistinctIds(pools) && i < |pools|
    requires Reads(t, table) && UniqueKeys(table) && Counted(table)
    ensures var w1 := TickOf(pools, w, t).0; var lost := Works(pools, w, t) && GivenUp(ScanIn(pools, w, t), i, s);
            && w.log <= w1.log
            && (Logs(w1.log[|w.log|..], pools[i], s) <==>
                  && w.position.slot < s <= ReachOf(pools, w, t)
                  && s in Schedule(table, pools[i].id, w.position.epoch)
                  && !lost)
            && (lost ==> w.position.slot < s <= ReachOf(pools, w, t))
  {
    hide TickOf, ScanFrom, NextOf, EndSlot, Schedule, UniqueKeys, Counted, HonestDriver;
    TickShape(pools, w, t);
    var w1 := TickOf(pools, w, t).0;
    if Works(pools, w, t) {
      var c := Context(pools, t.table, t.oracle, w.position.epoch);
      ScanReaches(c, w.position.slot + 1, EndSlot(w, t).value);
      ScanCoverageLater(c, w.position.slot + 1, EndSlot(w, t).value, table, i, s);
      assert w1.log[|w.log|..] == ScanIn(pools, w, t).events;
    } else {
      assert w1.log[|w.log|..] == [];
    }
  }

  /** Over any run of one process while its position is in one epoch, the closing tick included,
      whatever fails and whichever rows are still being added: the pairs classified are exactly the scheduled ones after the start and up to
      the slot reached, except those given up by the ticks that stopped early.  Unless the process
      panicked the slot reached is the position. */
  lemma {:induction false} ExactCoverage(pools: seq<Pool>, w: Watcher, ts: seq<Tick>, table: Table, i: nat, s: int)
    requires DistinctIds(pools) && i < |pools|
    requires WithinEpoch(pools, table, w.position.epoch, w, ts) && UniqueKeys(table) && Counted(table)
    ensures var (w', flow) := Ticks(pools, w, ts);
            && w.log <= w'.log && w.position.slot <= Reach(pools, w, ts)
            && (!flow.Panicked? ==> w'.position.slot == Reach(pools, w, ts))
            && (Logs(w'.log[|w.log|..], pools[i], s) <==>
                  && w.position.slot < s <= Reach(pools, w, ts)
                  && s in Schedule(table, pools[i].id, w.position.epoch)
                  && !LostByTicks(pools, w, ts, i, s))
    decreases |ts|
  {
    hide TickOf, Works, ReachOf, Schedule, GivenUp, UniqueKeys, Counted, Reads;
    if ts != [] {
      var (w1, flow) := TickOf(pools, w, ts[0]);
      TickCoverage(pools, w, ts[0], table, i, s);
      TickReaches(pools, w, ts[0]);
      if Alive(flow) && ts[1..] != [] {
        hide Logs;
        ExactCoverage(pools, w1, ts[1..], table, i, s);
        var w' := Ticks(pools, w, ts).0;
        assert w'.log[|w.log|..] == w1.log[|w.log|..] + w'.log[|w1.log|..];
        LogsJoin(w1.log[|w.log|..], w'.log[|w1.log|..], pools[i], s);
        LostAhead(pools, w1, ts[1..], i, s);
      }
    }
  }

  /** What a run gives up on lies ahead of where it started. */
  lemma {:induction false} LostAhead(pools: seq<Pool>, w: Watcher, ts: seq<Tick>, i: nat, s: int)
    ensures LostByTicks(pools, w, ts, i, s) ==> w.position.slot < s
    decreases |ts|
  {
    hide TickOf, ScanFrom, NextOf, EndSlot, Works, ReachOf;
    if ts != [] {
      var t := ts[0];
      var (w1, flow) := TickOf(pools, w, t);
      TickReaches(pools, w, t);
      if Works(pools, w, t) {
        GivenUpAhead(pools, w, t, i, s);
      }
      if Alive(flow) {
        LostAhead(pools, w1, ts[1..], i, s);
      }
    }
  }

  lemma GivenUpAhead(pools: seq<Pool>, w: Watcher, t: Tick, i: nat, s: int)
    requires Works(pools, w, t)
    ensures GivenUp(ScanIn(pools, w, t), i, s) ==> w.position.slot < s
  {
    hide TickOf, ScanFrom, NextOf, EndSlot;
    ScanReaches(Context(pools, t.table, t.oracle, w.position.epoch), w.position.slot + 1, EndSlot(w, t).value);
  }
}
