/** The block counters and the consecutive-miss gauge against the record of classifications. */
module Counters {
  import opened Pools
  import opened SlotLeader
  import opened ScheduleRefresh
  import opened Upstream
  import opened WatcherModel
  import opened Coverage
  import opened Epochs
  import opened OnePool

  function LabelAt(e: Event): Label { LabelOf(e.pool, e.epoch) }

  /** How often an outcome occurs for a label. */
  function CountOf(log: seq<Event>, l: Label, o: Outcome): nat {
    if log == [] then 0
    else
      var e := log[|log| - 1];
      CountOf(log[..|log| - 1], l, o) + if LabelAt(e) == l && e.outcome == o then 1 else 0
  }

  /** The misses of a label after its last validated block; orphaned blocks neither count nor
      break the run. */
  function Trailing(log: seq<Event>, l: Label): nat {
    if log == [] then 0
    else
      var e := log[|log| - 1];
      var before := Trailing(log[..|log| - 1], l);
      if LabelAt(e) != l || e.outcome == Orphaned then before
      else if e.outcome == Missed then before + 1
      else 0
  }

  /** The metrics show the counts since the last reset and the trailing misses of the whole record. */
  ghost predicate Shows(m: Metrics, log: seq<Event>, resetAt: nat) {
    resetAt <= |log| && forall l: Label :: ShowsLabel(m, log, resetAt, l)
  }

  predicate ShowsLabel(m: Metrics, log: seq<Event>, resetAt: nat, l: Label)
    requires resetAt <= |log|
  {
    && Read(m.missed, l) == CountOf(log[resetAt..], l, Missed)
    && Read(m.validated, l) == CountOf(log[resetAt..], l, Validated)
    && Read(m.orphaned, l) == CountOf(log[resetAt..], l, Orphaned)
    && Read(m.consecutive, l) == Trailing(log, l)
  }

  lemma CountOneMore(log: seq<Event>, e: Event, l: Label, o: Outcome)
    ensures CountOf(log + [e], l, o) == CountOf(log, l, o) + if LabelAt(e) == l && e.outcome == o then 1 else 0
  {
    assert (log + [e])[..|log|] == log;
  }

  lemma TrailingOneMore(log: seq<Event>, e: Event, l: Label)
    ensures Trailing(log + [e], l) ==
              if LabelAt(e) != l || e.outcome == Orphaned then Trailing(log, l)
              else if e.outcome == Missed then Trailing(log, l) + 1
              else 0
  {
    assert (log + [e])[..|log|] == log;
  }

  /** What one event does to what the metrics show for a label. */
  lemma CountReads(m: Metrics, e: Event, l: Label)
    ensures var m', here := Count(m, e), LabelAt(e) == l;
            && Read(m'.missed, l) == Read(m.missed, l) + (if here && e.outcome == Missed then 1 else 0)
            && Read(m'.validated, l) == Read(m.validated, l) + (if here && e.outcome == Validated then 1 else 0)
            && Read(m'.orphaned, l) == Read(m.orphaned, l) + (if here && e.outcome == Orphaned then 1 else 0)
            && Read(m'.consecutive, l) ==
                 if !here || e.outcome == Orphaned then Read(m.consecutive, l)
                 else if e.outcome == Missed then Read(m.consecutive, l) + 1
                 else 0
  {
    hide LabelOf;
    match e.outcome
    case Missed =>
    case Validated =>
    case Orphaned =>
  }

  lemma LabelOneMore(m: Metrics, log: seq<Event>, resetAt: nat, e: Event, l: Label)
    requires resetAt <= |log| && ShowsLabel(m, log, resetAt, l)
    ensures ShowsLabel(Count(m, e), log + [e], resetAt, l)
  {
    hide CountOf, Trailing, Count, LabelAt, Read;
    assert (log + [e])[resetAt..] == log[resetAt..] + [e];
    CountOneMore(log[resetAt..], e, l, Missed);
    CountOneMore(log[resetAt..], e, l, Validated);
    CountOneMore(log[resetAt..], e, l, Orphaned);
    TrailingOneMore(log, e, l);
    CountReads(m, e, l);
  }

  lemma ShowsOneMore(m: Metrics, log: seq<Event>, resetAt: nat, e: Event)
    requires Shows(m, log, resetAt)
    ensures Shows(Count(m, e), log + [e], resetAt)
  {
    hide ShowsLabel, Count;
    forall l: Label
      ensures ShowsLabel(Count(m, e), log + [e], resetAt, l)
    {
      assert ShowsLabel(m, log, resetAt, l);
      LabelOneMore(m, log, resetAt, e, l);
    }
  }

  lemma {:induction false} ShowsMore(m: Metrics, log: seq<Event>, resetAt: nat, events: seq<Event>)
    requires Shows(m, log, resetAt)
    ensures Shows(CountAll(m, events), log + events, resetAt)
    decreases |events|
  {
    hide Shows, Count;
    if events == [] {
      assert log + events == log;
    } else {
      ShowsOneMore(m, log, resetAt, events[0]);
      ShowsMore(Count(m, events[0]), log + [events[0]], resetAt, events[1..]);
      assert (log + [events[0]]) + events[1..] == log + events;
    }
  }

  lemma {:induction false} TouchReadsTheSame(m: map<Label, nat>, pools: seq<Pool>, epoch: int, l: Label)
    ensures Read(Touch(m, pools, epoch), l) == Read(m, l)
  {
    if pools != [] {
      TouchReadsTheSame(m, pools[..|pools| - 1], epoch, l);
    }
  }

  lemma ShowsAfterReset(m: Metrics, log: seq<Event>, resetAt: nat, pools: seq<Pool>, epoch: int)
    requires Shows(m, log, resetAt)
    ensures Shows(ResetMetrics(m, pools, epoch), log, |log|)
  {
    forall l: Label
      ensures ShowsLabel(ResetMetrics(m, pools, epoch), log, |log|, l)
    {
      assert ShowsLabel(m, log, resetAt, l);
      TouchReadsTheSame(map[], pools, epoch, l);
      TouchReadsTheSame(m.consecutive, pools, epoch, l);
      assert log[|log|..] == [];
    }
  }

  lemma OtherGaugesDoNotCount(m: Metrics, log: seq<Event>, resetAt: nat, gauge: map<Label, int>, latest: int)
    requires Shows(m, log, resetAt)
    ensures Shows(m.(nextSlotLeader := gauge), log, resetAt) && Shows(m.(latestSlot := latest), log, resetAt)
  {
    forall l: Label
      ensures ShowsLabel(m.(nextSlotLeader := gauge), log, resetAt, l) && ShowsLabel(m.(latestSlot := latest), log, resetAt, l)
    {
      assert ShowsLabel(m, log, resetAt, l);
    }
  }

  lemma ProcessShows(pools: seq<Pool>, w: Watcher, t: Tick)
    requires t.latest.Got? && Shows(w.metrics, w.log, w.resetAt)
    ensures var w1 := Process(pools, w, t).0; Shows(w1.metrics, w1.log, w1.resetAt)
  {
    hide Shows, ScanFrom, CountAll, SaveRow, EndSlot;
    if EndSlot(w, t).Got? && w.position.slot + 1 <= EndSlot(w, t).value {
      var s := ScanOf(pools, w, t, EndSlot(w, t).value);
      ShowsMore(w.metrics, w.log, w.resetAt, s.events);
      OtherGaugesDoNotCount(CountAll(w.metrics, s.events), w.log + s.events, w.resetAt, map[], s.last);
    }
  }

  lemma TransitShows(pools: seq<Pool>, w: Watcher, t: Tick)
    requires Shows(w.metrics, w.log, w.resetAt)
    ensures var w1 := Transit(pools, w, t).0; Shows(w1.metrics, w1.log, w1.resetAt)
  {
    hide Shows, AssignedFrom, ResetMetrics, SaveRow;
    if t.latestEpoch.Got? {
      ShowsAfterReset(w.metrics, w.log, w.resetAt, pools, t.latestEpoch.value);
    }
  }

  lemma TickShows(pools: seq<Pool>, w: Watcher, t: Tick)
    requires Shows(w.metrics, w.log, w.resetAt)
    ensures var w1 := TickOf(pools, w, t).0; Shows(w1.metrics, w1.log, w1.resetAt)
  {
    hide Shows, NextLeadersFrom, WatcherModel.Process, Transit;
    if t.healthy && t.latest.Got? {
      var next := NextOf(pools, w, t);
      OtherGaugesDoNotCount(w.metrics, w.log, w.resetAt, next.gauge, 0);
      var w0 := w.(metrics := w.metrics.(nextSlotLeader := next.gauge));
      ProcessShows(pools, w0, t);
      TransitShows(pools, Process(pools, w0, t).0, t);
    }
  }

  /** Over any run, whatever fails: each counter shows the outcomes on record since the last reset,
      and the consecutive-miss gauge the misses after the last validated block of its label. */
  lemma {:induction false} MetricsShowTheRecord(pools: seq<Pool>, w: Watcher, ts: seq<Tick>)
    requires Shows(w.metrics, w.log, w.resetAt)
    ensures var w' := Ticks(pools, w, ts).0; Shows(w'.metrics, w'.log, w'.resetAt)
    decreases |ts|
  {
    hide Shows, TickOf;
    if ts != [] {
      TickShows(pools, w, ts[0]);
      var (w1, flow) := TickOf(pools, w, ts[0]);
      if Alive(flow) {
        MetricsShowTheRecord(pools, w1, ts[1..]);
      }
    }
  }

  lemma StartShows(pools: seq<Pool>, rows: seq<StateRow>, b: Boot)
    ensures var (w, _) := StartUp(pools, rows, b); Shows(w.metrics, w.log, w.resetAt)
  {
    hide Shows, AssignedFrom, ResetMetrics, LoadAndReconcile;
    NothingShown();
    if b.currentEpoch.Got? {
      ShowsAfterReset(NO_METRICS, [], 0, pools, LoadAndReconcile(rows, NOWHERE, b, b.currentEpoch.value).position.epoch);
    }
  }

  lemma NothingShown()
    ensures Shows(NO_METRICS, [], 0)
  {
  }

  // ---------- conservation ----------

  /** The distinct slots on record for a label. */
  function SlotsOf(log: seq<Event>, l: Label): set<int> {
    set e | e in log && LabelAt(e) == l :: e.slot
  }

  function Total(log: seq<Event>, l: Label): nat {
    CountOf(log, l, Missed) + CountOf(log, l, Validated) + CountOf(log, l, Orphaned)
  }

  lemma SlotsOneMore(init: seq<Event>, e: Event, l: Label)
    requires OnceEach(init + [e])
    ensures |SlotsOf(init + [e], l)| == |SlotsOf(init, l)| + if LabelAt(e) == l then 1 else 0
  {
    var log := init + [e];
    assert forall x :: x in log <==> x in init || x == e;
    if LabelAt(e) == l {
      forall x | x in init && LabelAt(x) == l
        ensures x.slot != e.slot
      {
        var i :| 0 <= i < |init| && init[i] == x;
        assert log[i] == x && log[|init|] == e;
      }
      assert SlotsOf(log, l) == SlotsOf(init, l) + {e.slot};
    } else {
      assert SlotsOf(log, l) == SlotsOf(init, l);
    }
  }

  lemma {:induction false} TotalIsDistinctSlots(log: seq<Event>, l: Label)
    requires OnceEach(log)
    ensures Total(log, l) == |SlotsOf(log, l)|
  {
    hide SlotsOf, LabelAt;
    if log == [] {
      assert SlotsOf(log, l) == {} by { NoSlots(l); }
    } else {
      var init, e := log[..|log| - 1], log[|log| - 1];
      assert OnceEach(init);
      TotalIsDistinctSlots(init, l);
      assert log == init + [e];
      hide OnceEach;
      SlotsOneMore(init, e, l);
    }
  }

  lemma NoSlots(l: Label)
    ensures SlotsOf([], l) == {}
  {
  }

  function Elements(s: seq<int>): set<int> { set x | x in s }

  lemma {:induction false} ElementsSize(s: seq<int>)
    ensures |Elements(s)| <= |s|
    ensures (forall i, j :: 0 <= i < j < |s| ==> s[i] != s[j]) ==> |Elements(s)| == |s|
  {
    if s != [] {
      var init, x := s[..|s| - 1], s[|s| - 1];
      ElementsSize(init);
      assert Elements(s) == Elements(init) + {x};
    }
  }

  lemma SubsetSize(a: set<int>, b: set<int>)
    requires a <= b
    ensures |a| <= |b|
    ensures a == b <==> |a| == |b|
  {
    assert b == a + (b - a);
    assert |b| == |a| + |b - a|;
  }

  lemma OnceEachSuffix(log: seq<Event>, from: nat)
    requires OnceEach(log) && from <= |log|
    ensures OnceEach(log[from..])
  {
  }

  lemma SlotsAreScheduled(log: seq<Event>, from: nat, l: Label, table: Table)
    requires from <= |log| && Scheduled(log, table)
    ensures SlotsOf(log[from..], l) <= Elements(Schedule(table, l.id, l.epoch))
  {
    hide Schedule;
    forall e | e in log[from..] && LabelAt(e) == l
      ensures e.slot in Schedule(table, l.id, l.epoch)
    {
      assert e in log;
    }
  }

  /** Conservation.  In every process, at every moment: for each pool whose schedule is published,
      missed + validated + orphaned since the last reset is the number of distinct scheduled slots
      classified, and never exceeds the ExpectedBlocks gauge.  It reaches the gauge when the
      schedule repeats no slot and every slot of it has been classified since the reset - and, for
      such a schedule, only then. */
  lemma CountersAreConserved(pools: seq<Pool>, rows: seq<StateRow>, b: Boot, ts: seq<Tick>, s: Store, p: Pool, epoch: int)
    requires DistinctIds(pools) && GoodStore(s) && Published(s, p, epoch) && ReadFrom(ts, s.table)
    ensures var w := Lifetime(pools, rows, b, ts).0; var l := LabelOf(p, epoch);
            && w.resetAt <= |w.log|
            && var counted := Read(w.metrics.missed, l) + Read(w.metrics.validated, l) + Read(w.metrics.orphaned, l);
               var slots := SlotsOf(w.log[w.resetAt..], l);
               var schedule := Schedule(s.table, p.id, epoch);
               && counted == |slots|
               && counted <= s.expected[l]
               && ((forall i, j :: 0 <= i < j < |schedule| ==> schedule[i] != schedule[j]) ==>
                     (counted == s.expected[l] <==> forall x :: x in schedule ==> x in slots))
  {
    hide Ticks, StartUp, Shows, Scheduled, OnceEach, Schedule, SlotsOf, Elements, Quantity, CountOf;
    var (w0, flow) := StartUp(pools, rows, b);
    var w := Lifetime(pools, rows, b, ts).0;
    var l := LabelOf(p, epoch);
    LifetimeFacts(pools, rows, b, ts, s.table);
    ShowsAt(w, l);
    OnceEachSuffix(w.log, w.resetAt);
    TotalIsDistinctSlots(w.log[w.resetAt..], l);
    SlotsAreScheduled(w.log, w.resetAt, l, s.table);
    EmptyByEitherCount(s.table, p.id, epoch);
    var schedule := Schedule(s.table, p.id, epoch);
    ElementsSize(schedule);
    SubsetSize(SlotsOf(w.log[w.resetAt..], l), Elements(schedule));
    SameElements(SlotsOf(w.log[w.resetAt..], l), schedule);
  }

  lemma ShowsAt(w: Watcher, l: Label)
    requires Shows(w.metrics, w.log, w.resetAt)
    ensures w.resetAt <= |w.log|
    ensures Read(w.metrics.missed, l) + Read(w.metrics.validated, l) + Read(w.metrics.orphaned, l)
         == Total(w.log[w.resetAt..], l)
  {
    assert ShowsLabel(w.metrics, w.log, w.resetAt, l);
  }

  lemma SameElements(slots: set<int>, schedule: seq<int>)
    requires slots <= Elements(schedule)
    ensures slots == Elements(schedule) <==> forall x :: x in schedule ==> x in slots
  {
    if forall x :: x in schedule ==> x in slots {
      assert Elements(schedule) <= slots;
    }
  }

  lemma LifetimeFacts(pools: seq<Pool>, rows: seq<StateRow>, b: Boot, ts: seq<Tick>, table: Table)
    requires DistinctIds(pools) && UniqueKeys(table) && ReadFrom(ts, table)
    ensures var w := Lifetime(pools, rows, b, ts).0;
            Shows(w.metrics, w.log, w.resetAt) && OnceEach(w.log) && Scheduled(w.log, table)
  {
    hide Ticks, Shows, AssignedFrom, ResetMetrics, LoadAndReconcile, UniqueKeys;
    StartShows(pools, rows, b);
    AtMostOncePerLifetime(pools, rows, b, ts);
    var (w0, flow) := StartUp(pools, rows, b);
    if flow.Continue? {
      MetricsShowTheRecord(pools, w0, ts);
      EveryCountWasScheduled(pools, w0, ts, table);
    }
  }

  // ---------- when the counters reach the expected number ----------

  lemma {:induction false} PassEventsOf(c: Context, slot: int, k: nat, j: nat)
    requires j <= |c.pools|
    ensures forall e :: e in PassEvents(c, slot, k, j) ==> e.pool in c.pools && e.epoch == c.epoch
    decreases j - k
  {
    hide VisitOf;
    if k < j {
      PassEventsOf(c, slot, k + 1, j);
    }
  }

  lemma {:induction false} ScanEventsOf(c: Context, lo: int, hi: int)
    ensures forall e :: e in ScanEvents(c, lo, hi) ==> e.pool in c.pools && e.epoch == c.epoch
    decreases hi - lo
  {
    hide PassEvents;
    if lo <= hi {
      PassEventsOf(c, lo, 0, |c.pools|);
      ScanEventsOf(c, lo + 1, hi);
    }
  }

  lemma TickEventsOf(pools: seq<Pool>, w: Watcher, t: Tick)
    ensures var w1 := TickOf(pools, w, t).0;
            w.log <= w1.log && forall e :: e in w1.log[|w.log|..] ==> e.pool in pools && e.epoch == w.position.epoch
  {
    hide TickOf, NextOf, ScanFrom, ScanEvents, PassEvents, PassFrom, EndSlot;
    TickShape(pools, w, t);
    var w1 := TickOf(pools, w, t).0;
    if Works(pools, w, t) {
      var c := Context(pools, t.table, t.oracle, w.position.epoch);
      var s := ScanIn(pools, w, t);
      ScanShape(c, w.position.slot + 1, EndSlot(w, t).value);
      ScanEventsOf(c, w.position.slot + 1, EndSlot(w, t).value);
      ScanEventsOf(c, w.position.slot + 1, s.last - 1);
      PassEventsOf(c, s.last, 0, StopIndex(c, s.stop));
      assert w1.log[|w.log|..] == s.events;
    } else {
      assert w1.log[|w.log|..] == [];
    }
  }

  lemma {:induction false} RunEventsOf(pools: seq<Pool>, table: Table, w: Watcher, ts: seq<Tick>)
    requires WithinEpoch(pools, table, w.position.epoch, w, ts)
    ensures var w' := Ticks(pools, w, ts).0;
            w.log <= w'.log && forall e :: e in w'.log[|w.log|..] ==> e.pool in pools && e.epoch == w.position.epoch
    decreases |ts|
  {
    hide TickOf, Reads;
    if ts != [] {
      TickEventsOf(pools, w, ts[0]);
      var (w1, flow) := TickOf(pools, w, ts[0]);
      if Alive(flow) && ts[1..] != [] {
        RunEventsOf(pools, table, w1, ts[1..]);
        var w' := Ticks(pools, w1, ts[1..]).0;
        assert w'.log[|w.log|..] == w1.log[|w.log|..] + w'.log[|w1.log|..];
      }
    }
  }

  /** The counters have just been reset. */
  ghost predicate FreshlyReset(w: Watcher, lo: int) {
    Shows(w.metrics, w.log, w.resetAt) && w.resetAt == |w.log| && OnRecordOnce(w, lo)
  }

  /** Every start that goes on resets, and every tick that ends on a reset does. */
  lemma StartIsFresh(pools: seq<Pool>, rows: seq<StateRow>, b: Boot)
    requires StartUp(pools, rows, b).1.Continue?
    ensures var w := StartUp(pools, rows, b).0; FreshlyReset(w, w.position.slot)
  {
    hide Shows, AssignedFrom, ResetMetrics, LoadAndReconcile;
    StartShows(pools, rows, b);
  }

  lemma ResetIsFresh(pools: seq<Pool>, w: Watcher, t: Tick, lo: int)
    requires DistinctIds(pools) && OnRecordOnce(w, lo) && Shows(w.metrics, w.log, w.resetAt)
    requires Alive(TickOf(pools, w, t).1) && TickOf(pools, w, t).0.resetAt == |TickOf(pools, w, t).0.log|
    ensures FreshlyReset(TickOf(pools, w, t).0, lo)
  {
    hide Shows, TickOf, OnRecordOnce;
    TickShows(pools, w, t);
    TickOnce(pools, w, t, lo);
  }

  lemma SlotsAreLogs(pools: seq<Pool>, events: seq<Event>, i: nat, epoch: int, x: int)
    requires DistinctIds(pools) && i < |pools|
    requires forall e :: e in events ==> e.pool in pools && e.epoch == epoch
    ensures x in SlotsOf(events, LabelOf(pools[i], epoch)) <==> Logs(events, pools[i], x)
  {
    forall e | e in events && LabelAt(e) == LabelOf(pools[i], epoch)
      ensures e.pool == pools[i]
    {
      var j :| 0 <= j < |pools| && pools[j] == e.pool;
      assert pools[j].id == pools[i].id;
    }
  }

  predicate NoRepeats(s: seq<int>) { forall i, j :: 0 <= i < j < |s| ==> s[i] != s[j] }

  /** From a reset on, while the position is in one epoch and until the next reset: for a schedule
      that repeats no slot, missed + validated + orphaned is the ExpectedBlocks gauge if and only if
      every slot of the schedule lies after the position at the reset and up to the slot reached,
      and none was given up. */
  lemma CountersReachExpectedExactly(pools: seq<Pool>, w: Watcher, ts: seq<Tick>, s: Store, i: nat, lo: int)
    requires DistinctIds(pools) && i < |pools| && FreshlyReset(w, lo)
    requires GoodStore(s) && Published(s, pools[i], w.position.epoch)
    requires WithinEpoch(pools, s.table, w.position.epoch, w, ts) && Ticks(pools, w, ts).0.resetAt == w.resetAt
    requires NoRepeats(Schedule(s.table, pools[i].id, w.position.epoch))
    ensures var w' := Ticks(pools, w, ts).0; var l := LabelOf(pools[i], w.position.epoch);
            Read(w'.metrics.missed, l) + Read(w'.metrics.validated, l) + Read(w'.metrics.orphaned, l) == s.expected[l] <==>
              forall x :: x in Schedule(s.table, pools[i].id, w.position.epoch) ==>
                w.position.slot < x <= Reach(pools, w, ts) && !LostByTicks(pools, w, ts, i, x)
  {
    hide Ticks, Shows, OnceEach, Between, Schedule, SlotsOf, Elements, Quantity, CountOf, WithinEpoch, Reach, LostByTicks,
         UniqueKeys, Counted, HasRow, Logs;
    var w', epoch := Ticks(pools, w, ts).0, w.position.epoch;
    var l, schedule := LabelOf(pools[i], epoch), Schedule(s.table, pools[i].id, epoch);
    MetricsShowTheRecord(pools, w, ts);
    AtMostOncePerProcess(pools, w, ts, lo);
    ShowsAt(w', l);
    var events := w'.log[|w.log|..];
    OnceEachSuffix(w'.log, |w.log|);
    TotalIsDistinctSlots(events, l);
    RunEventsOf(pools, s.table, w, ts);
    var slots := SlotsOf(events, l);
    forall x
      ensures x in slots ==> x in schedule
      ensures x in schedule ==>
                (x in slots <==> w.position.slot < x <= Reach(pools, w, ts) && !LostByTicks(pools, w, ts, i, x))
    {
      SlotsAreLogs(pools, events, i, epoch, x);
      ExactCoverage(pools, w, ts, s.table, i, x);
    }
    EmptyByEitherCount(s.table, pools[i].id, epoch);
    ElementsSize(schedule);
    InElements(schedule);
    forall x | x in slots
      ensures x in Elements(schedule)
    {
    }
    SubsetSize(slots, Elements(schedule));
    SameElements(slots, schedule);
  }

  lemma InElements(s: seq<int>)
    ensures forall x :: x in Elements(s) <==> x in s
  {
  }

  // ---------- the consecutive-miss gauge ----------

  lemma {:induction false} TrailingSplits(before: seq<Event>, since: seq<Event>, l: Label)
    ensures Trailing(before + since, l) ==
              if CountOf(since, l, Validated) == 0 then Trailing(before, l) + CountOf(since, l, Missed)
              else Trailing(since, l)
    ensures Trailing(since, l) <= CountOf(since, l, Missed)
    decreases |since|
  {
    if since == [] {
      assert before + since == before;
    } else {
      var init := since[..|since| - 1];
      TrailingSplits(before, init, l);
      assert (before + since)[..|before + since| - 1] == before + init;
    }
  }

  lemma LifetimeShows(pools: seq<Pool>, rows: seq<StateRow>, b: Boot, ts: seq<Tick>)
    ensures var w := Lifetime(pools, rows, b, ts).0; Shows(w.metrics, w.log, w.resetAt)
  {
    hide Ticks, StartUp, Shows;
    StartShows(pools, rows, b);
    var (w0, flow) := StartUp(pools, rows, b);
    if flow.Continue? {
      MetricsShowTheRecord(pools, w0, ts);
    }
  }

  /** In every process, at every moment and for every label: the consecutive-miss gauge is within the
      missed counter if and only if the label has a validated block since the last reset, or had no
      trailing misses when that reset came.  While a label has no event since the reset, as is the
      case for an epoch that was left, the counter reads zero and the gauge what it did before. */
  lemma GaugeWithinCounterExactly(pools: seq<Pool>, rows: seq<StateRow>, b: Boot, ts: seq<Tick>, l: Label)
    ensures var w := Lifetime(pools, rows, b, ts).0;
            && w.resetAt <= |w.log|
            && (Read(w.metrics.consecutive, l) <= Read(w.metrics.missed, l) <==>
                  Read(w.metrics.validated, l) > 0 || Trailing(w.log[..w.resetAt], l) == 0)
            && ((forall e :: e in w.log[w.resetAt..] ==> LabelAt(e) != l) ==>
                  Read(w.metrics.missed, l) == 0 && Read(w.metrics.consecutive, l) == Trailing(w.log[..w.resetAt], l))
  {
    hide Lifetime, CountOf, Trailing, LabelAt;
    LifetimeShows(pools, rows, b, ts);
    var w := Lifetime(pools, rows, b, ts).0;
    assert ShowsLabel(w.metrics, w.log, w.resetAt, l);
    assert w.log[..w.resetAt] + w.log[w.resetAt..] == w.log;
    TrailingSplits(w.log[..w.resetAt], w.log[w.resetAt..], l);
    if forall e :: e in w.log[w.resetAt..] ==> LabelAt(e) != l {
      UncountedWithoutEvents(w.log[w.resetAt..], l, Missed);
      UncountedWithoutEvents(w.log[w.resetAt..], l, Validated);
    }
  }

  lemma {:induction false} UncountedWithoutEvents(log: seq<Event>, l: Label, o: Outcome)
    requires forall e :: e in log ==> LabelAt(e) != l
    ensures CountOf(log, l, o) == 0
  {
    if log != [] {
      UncountedWithoutEvents(log[..|log| - 1], l, o);
    }
  }

  /** Nothing is on record for a newer epoch, and within the current one the trailing misses have
      all been counted since the reset. */
  ghost predicate GaugeBounded(log: seq<Event>, resetAt: nat, epoch: int) {
    && resetAt <= |log|
    && (forall e :: e in log ==> e.epoch <= epoch)
    && forall l: Label :: l.epoch == epoch ==> Trailing(log, l) <= CountOf(log[resetAt..], l, Missed)
  }

  lemma BoundedOneMore(log: seq<Event>, resetAt: nat, epoch: int, e: Event)
    requires GaugeBounded(log, resetAt, epoch) && e.epoch == epoch
    ensures GaugeBounded(log + [e], resetAt, epoch)
  {
    assert (log + [e])[..|log|] == log;
    assert (log + [e])[resetAt..] == log[resetAt..] + [e];
    forall l: Label | l.epoch == epoch
      ensures Trailing(log + [e], l) <= CountOf((log + [e])[resetAt..], l, Missed)
    {
      CountOneMore(log[resetAt..], e, l, Missed);
    }
  }

  lemma {:induction false} BoundedMore(log: seq<Event>, resetAt: nat, epoch: int, events: seq<Event>)
    requires GaugeBounded(log, resetAt, epoch) && forall e :: e in events ==> e.epoch == epoch
    ensures GaugeBounded(log + events, resetAt, epoch)
    decreases |events|
  {
    hide GaugeBounded;
    if events == [] {
      assert log + events == log;
    } else {
      BoundedOneMore(log, resetAt, epoch, events[0]);
      BoundedMore(log + [events[0]], resetAt, epoch, events[1..]);
      assert (log + [events[0]]) + events[1..] == log + events;
    }
  }

  lemma {:induction false} NoEventsNoTrail(log: seq<Event>, l: Label)
    requires forall e :: e in log ==> e.epoch != l.epoch
    ensures Trailing(log, l) == 0
  {
    if log != [] {
      NoEventsNoTrail(log[..|log| - 1], l);
    }
  }

  lemma NewerEpochBounded(log: seq<Event>, resetAt: nat, epoch: int)
    requires resetAt <= |log| && forall e :: e in log ==> e.epoch < epoch
    ensures GaugeBounded(log, resetAt, epoch)
  {
    forall l: Label | l.epoch == epoch
      ensures Trailing(log, l) <= CountOf(log[resetAt..], l, Missed)
    {
      NoEventsNoTrail(log, l);
    }
  }

  /** Every transition of the run moves to a strictly newer epoch. */
  predicate Forward(pools: seq<Pool>, w: Watcher, ts: seq<Tick>)
    decreases |ts|
  {
    ts != [] ==>
      var (w1, flow) := TickOf(pools, w, ts[0]);
      && (ts[0].latest.Got? && EntersNewEpoch(w, ts[0]) && ts[0].latestEpoch.Got? ==>
            w.position.epoch < ts[0].latestEpoch.value)
      && (Alive(flow) ==> Forward(pools, w1, ts[1..]))
  }

  lemma TickResets(pools: seq<Pool>, w: Watcher, t: Tick)
    ensures var w1 := TickOf(pools, w, t).0;
            || (w1.position.epoch == w.position.epoch && w1.resetAt == w.resetAt)
            || (t.latest.Got? && EntersNewEpoch(w, t) && t.latestEpoch == Got(w1.position.epoch)
                && (w1.resetAt == w.resetAt || w1.resetAt == |w1.log|))
  {
    hide ScanFrom, AssignedFrom, NextLeadersFrom, ResetMetrics, CountAll, SaveRow;
  }

  lemma TickBounded(pools: seq<Pool>, w: Watcher, t: Tick, table: Table)
    requires GaugeBounded(w.log, w.resetAt, w.position.epoch)
    requires t.table <= table && UniqueKeys(table) && Forward(pools, w, [t])
    ensures var w1 := TickOf(pools, w, t).0; GaugeBounded(w1.log, w1.resetAt, w1.position.epoch)
  {
    hide TickOf, UniqueKeys, Schedule;
    assert [t][0] == t;
    var w1 := TickOf(pools, w, t).0;
    TickScheduled(pools, w, t, table);
    var events := w1.log[|w.log|..];
    assert w1.log == w.log + events;
    BoundedMore(w.log, w.resetAt, w.position.epoch, events);
    TickResets(pools, w, t);
    if !(w1.position.epoch == w.position.epoch && w1.resetAt == w.resetAt) {
      NewerEpochBounded(w1.log, w1.resetAt, w1.position.epoch);
    }
  }

  /** While every transition moves to a strictly newer epoch, the consecutive-miss gauge of the
      current epoch never exceeds the missed counter. */
  lemma {:induction false} ConsecutiveWithinMissed(pools: seq<Pool>, w: Watcher, ts: seq<Tick>, table: Table, l: Label)
    requires GaugeBounded(w.log, w.resetAt, w.position.epoch) && Shows(w.metrics, w.log, w.resetAt)
    requires ReadFrom(ts, table) && UniqueKeys(table) && Forward(pools, w, ts)
    ensures var w' := Ticks(pools, w, ts).0;
            l.epoch == w'.position.epoch ==> Read(w'.metrics.consecutive, l) <= Read(w'.metrics.missed, l)
    decreases |ts|
  {
    hide TickOf, GaugeBounded, Shows, UniqueKeys;
    if ts == [] {
      BoundReads(w, l);
    } else {
      var (w1, flow) := TickOf(pools, w, ts[0]);
      assert Forward(pools, w, [ts[0]]);
      TickBounded(pools, w, ts[0], table);
      TickShows(pools, w, ts[0]);
      if Alive(flow) {
        ConsecutiveWithinMissed(pools, w1, ts[1..], table, l);
      } else {
        BoundReads(w1, l);
      }
    }
  }

  lemma BoundReads(w: Watcher, l: Label)
    requires GaugeBounded(w.log, w.resetAt, w.position.epoch) && Shows(w.metrics, w.log, w.resetAt)
    ensures l.epoch == w.position.epoch ==> Read(w.metrics.consecutive, l) <= Read(w.metrics.missed, l)
  {
    assert ShowsLabel(w.metrics, w.log, w.resetAt, l);
  }

  /** The same from any start. */
  lemma ForwardRunBounded(pools: seq<Pool>, rows: seq<StateRow>, b: Boot, ts: seq<Tick>, table: Table, l: Label)
    requires StartUp(pools, rows, b).1.Continue?
    requires ReadFrom(ts, table) && UniqueKeys(table) && Forward(pools, StartUp(pools, rows, b).0, ts)
    ensures var w := Lifetime(pools, rows, b, ts).0;
            l.epoch == w.position.epoch ==> Read(w.metrics.consecutive, l) <= Read(w.metrics.missed, l)
  {
    hide Ticks, Forward, Shows, UniqueKeys;
    StartShows(pools, rows, b);
    ConsecutiveWithinMissed(pools, StartUp(pools, rows, b).0, ts, table, l);
  }

  // ---------- a run that breaks the bound ----------

  /** From a start: a pool misses its one slot of epoch 0, and an ordinary transition to epoch 1
      leaves its gauge for epoch 0 above the emptied counter. */
  lemma {:induction false} GaugeExceedsCounterAfterTransition()
    returns (pools: seq<Pool>, rows: seq<StateRow>, b: Boot, ts: seq<Tick>, l: Label)
    ensures StartUp(pools, rows, b).1.Continue? && Forward(pools, StartUp(pools, rows, b).0, ts)
    ensures var (w, flow) := Lifetime(pools, rows, b, ts);
            flow.Continue? && Read(w.metrics.consecutive, l) > Read(w.metrics.missed, l)
  {
    hide TickOf, StartUp, VisitOf, Shows, CountOf, Trailing, EndSlot, Forward;
    var p := Pool("p", "", "", false, true);
    var table := [Row(1, 0, "p", 1, [11])];
    pools, rows, l := [p], [StateRow(1, Position(0, 10))], LabelOf(p, 0);
    b := Boot(Got(0), true, Failure, Failure, Committed, table, map[]);
    var t := Tick(true, Got(Block(0, 11, 11)), Failure, Failure, table, Oracle(map[], map[], map[]), map[],
                  Committed, Committed, NoError, table, map[]);
    var t2 := t.(latest := Got(Block(1, 20, 5)), lastBlock := Got(Block(0, 11, MAX_SLOT_PER_EPOCH)), latestEpoch := Got(1));
    ts := [t, t2];
    OneResumes(pools, rows, b);
    var w := StartUp(pools, rows, b).0;
    MissedVisit(Context(pools, table, t.oracle, 0), 11);
    OneMiss(pools, w, t);
    var w1 := TickOf(pools, w, t).0;
    EndOfEpochZero(w1, t2, 11);
    IdleMove(pools, w1, t2);
    TwoTicksRun(pools, w, t, t2);
    MissBeforeReset(pools, rows, b, ts, p);
  }

  lemma EndOfEpochZero(w: Watcher, t: Tick, end: int)
    requires t.latest.Got? && EntersNewEpoch(w, t) && t.lastBlock == Got(Block(0, end, MAX_SLOT_PER_EPOCH))
    ensures EndSlot(w, t) == Got(end)
  {
  }

  /** A process whose record is one miss, and then a reset. */
  lemma {:induction false} MissBeforeReset(pools: seq<Pool>, rows: seq<StateRow>, b: Boot, ts: seq<Tick>, p: Pool)
    requires var w := Lifetime(pools, rows, b, ts).0; w.log == [Event(p, 0, 11, Missed)] && w.resetAt == 1
    ensures var w := Lifetime(pools, rows, b, ts).0; var l := LabelOf(p, 0);
            Read(w.metrics.consecutive, l) > Read(w.metrics.missed, l)
  {
    hide Lifetime;
    var w, l := Lifetime(pools, rows, b, ts).0, LabelOf(p, 0);
    GaugeWithinCounterExactly(pools, rows, b, ts, l);
    assert w.log[1..] == [] && w.log[..1] == [] + [Event(p, 0, 11, Missed)];
    TrailingOneMore([], Event(p, 0, 11, Missed), l);
  }

  lemma {:induction false} TwoTicksRun(pools: seq<Pool>, w: Watcher, t: Tick, t2: Tick)
    requires var (w1, flow) := TickOf(pools, w, t); Alive(flow) && TickOf(pools, w1, t2).1.Continue?
    requires t.latest.Got? && !EntersNewEpoch(w, t)
    requires t2.latestEpoch.Got? ==> TickOf(pools, w, t).0.position.epoch < t2.latestEpoch.value
    ensures Ticks(pools, w, [t, t2]) == (TickOf(pools, TickOf(pools, w, t).0, t2).0, Continue)
    ensures Forward(pools, w, [t, t2])
  {
    hide TickOf;
    assert [t, t2][1..] == [t2] && [t2][0] == t2 && [t2][1..] == [];
    var w1 := TickOf(pools, w, t).0;
    assert Forward(pools, TickOf(pools, w1, t2).0, []);
    assert Forward(pools, w1, [t2]);
    assert Ticks(pools, w1, [t2]) == (TickOf(pools, w1, t2).0, Continue);
  }
}
