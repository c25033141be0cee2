/** When the unchecked accesses `schedule[0]` and `slots[len - 1]` stay in range over a whole run. */
module IndexSafety {
  import opened Pools
  import opened SlotLeader
  import opened ScheduleRefresh
  import opened Upstream
  import opened WatcherModel
  import opened Coverage
  import opened OnePool

  /** Every pool has a row for the epoch. */
  predicate AllHaveRows(pools: seq<Pool>, table: Table, epoch: int) {
    forall i :: 0 <= i < |pools| ==> HasRow(table, pools[i].id, epoch)
  }

  /** And every pool that must have slots has some. */
  predicate Ready(pools: seq<Pool>, table: Table, epoch: int) {
    && AllHaveRows(pools, table, epoch)
    && forall i :: 0 <= i < |pools| && !pools[i].allowEmptySlots ==> Schedule(table, pools[i].id, epoch) != []
  }

  lemma ReadyStays(pools: seq<Pool>, table: Table, later: Table, epoch: int)
    requires Ready(pools, table, epoch) && table <= later && UniqueKeys(later)
    ensures Ready(pools, later, epoch)
  {
    forall i | 0 <= i < |pools|
      ensures Select(later, pools[i].id, epoch) == Select(table, pools[i].id, epoch)
    {
      RowsPersist(table, later, pools[i].id, epoch);
    }
  }

  // ---------- exactly when a step goes out of range ----------

  /** A visit goes out of range exactly when the first query can be read and finds no row. */
  lemma VisitPanicsExactly(c: Context, p: Pool, slot: int)
    ensures VisitOf(c, p, slot).VisitPanics? <==>
              c.oracle.EmptyFault(p.id, slot).NoFault? && !HasRow(c.table, p.id, c.epoch)
  {
  }

  /** Pool `i` has no row, its first query can be read, and the pools k, ..., i - 1 get through. */
  predicate CrashesAt(c: Context, slot: int, k: nat, i: nat) {
    && k <= i < |c.pools|
    && !HasRow(c.table, c.pools[i].id, c.epoch) && c.oracle.EmptyFault(c.pools[i].id, slot).NoFault?
    && forall j :: k <= j < i ==> Settled(VisitOf(c, c.pools[j], slot))
  }

  predicate FirstPassCrashes(c: Context, slot: int) {
    exists i :: 0 <= i < |c.pools| && CrashesAt(c, slot, 0, i)
  }

  lemma {:induction false} PassPanicsExactly(c: Context, slot: int, k: nat)
    requires k <= |c.pools|
    ensures PassFrom(c, slot, k).stop.Crashed? <==> exists i: nat :: CrashesAt(c, slot, k, i)
    decreases |c.pools| - k
  {
    hide VisitOf, EventsOf, HasRow;
    if k < |c.pools| {
      var p, next := c.pools[k], k + 1;
      VisitPanicsExactly(c, p, slot);
      PassPanicsExactly(c, slot, next);
      if Settled(VisitOf(c, c.pools[k], slot)) {
        forall i: nat
          ensures CrashesAt(c, slot, k, i) <==> CrashesAt(c, slot, next, i)
        {
        }
      } else if VisitOf(c, c.pools[k], slot).VisitPanics? {
        assert CrashesAt(c, slot, k, k);
      } else {
        forall i: nat
          ensures !CrashesAt(c, slot, k, i)
        {
          assert CrashesAt(c, slot, k, i) && k < i ==> Settled(VisitOf(c, p, slot));
        }
      }
    }
  }

  /** Where no visit fails, a pass panics exactly when some pool has no row. */
  lemma UnfailingPassPanicsExactly(c: Context, slot: int)
    requires forall i :: 0 <= i < |c.pools| ==> !VisitOf(c, c.pools[i], slot).VisitFails?
    ensures PassFrom(c, slot, 0).stop.Crashed? <==> !AllHaveRows(c.pools, c.table, c.epoch)
  {
    hide VisitOf, HasRow;
    PassShape(c, slot, 0);
    var stop := PassFrom(c, slot, 0).stop;
    if stop.Crashed? {
      VisitPanicsExactly(c, c.pools[stop.k], slot);
    } else {
      forall i | 0 <= i < |c.pools|
        ensures HasRow(c.table, c.pools[i].id, c.epoch)
      {
        PassVisits(c, slot, 0, i);
        SettledHasRow(c, c.pools[i], slot);
      }
    }
  }

  lemma {:induction false} ScanIsSafe(c: Context, slot: int, end: int)
    requires AllHaveRows(c.pools, c.table, c.epoch)
    ensures !ScanFrom(c, slot, end).stop.Crashed?
    decreases end - slot
  {
    hide PassFrom;
    if slot <= end {
      PassPanicsExactly(c, slot, 0);
      ScanIsSafe(c, slot + 1, end);
    }
  }

  /** A scan panics at its first slot or not at all: a pool without a row never lets a pass through. */
  lemma {:induction false} ScanPanicsExactly(c: Context, slot: int, end: int)
    requires slot <= end
    ensures ScanFrom(c, slot, end).stop.Crashed? <==> FirstPassCrashes(c, slot)
    ensures PassFrom(c, slot, 0).stop.Crashed? <==> FirstPassCrashes(c, slot)
  {
    hide PassFrom, VisitOf, HasRow;
    PassPanicsExactly(c, slot, 0);
    if PassFrom(c, slot, 0).stop == Completed {
      PassShape(c, slot, 0);
      forall i | 0 <= i < |c.pools|
        ensures HasRow(c.table, c.pools[i].id, c.epoch)
      {
        PassVisits(c, slot, 0, i);
        SettledHasRow(c, c.pools[i], slot);
      }
      ScanIsSafe(c, slot + 1, end);
    }
  }

  /** The next-leader query of a pool gets an answer. */
  predicate Served(p: Pool, table: Table, faults: Faults, epoch: int) {
    FaultOf(faults, p.id).NoFault? && HasRow(table, p.id, epoch) && Schedule(table, p.id, epoch) != []
  }

  /** Pool `i` must have slots and its row has none, and the pools k, ..., i - 1 that must have
      slots are served. */
  predicate EmptyAt(pools: seq<Pool>, table: Table, faults: Faults, epoch: int, k: nat, i: nat) {
    && k <= i < |pools| && !pools[i].allowEmptySlots
    && FaultOf(faults, pools[i].id).NoFault? && HasRow(table, pools[i].id, epoch) && Schedule(table, pools[i].id, epoch) == []
    && forall j :: k <= j < i && !pools[j].allowEmptySlots ==> Served(pools[j], table, faults, epoch)
  }

  lemma {:induction false} NextLeadersExactly(pools: seq<Pool>, table: Table, faults: Faults, height: int, epoch: int,
                                              k: nat, gauge: map<Label, int>)
    requires k <= |pools|
    ensures var reply := NextLeadersFrom(pools, table, faults, height, epoch, k, gauge).reply;
            && (reply.Ok? <==>
                  forall i :: k <= i < |pools| && !pools[i].allowEmptySlots ==> Served(pools[i], table, faults, epoch))
            && (reply.Panic? <==> exists i: nat :: EmptyAt(pools, table, faults, epoch, k, i))
    decreases |pools| - k
  {
    hide HasRow, FaultOf, Schedule, FirstAbove;
    if k < |pools| {
      var p := pools[k];
      var reply := NextSlotReply(table, p.id, height, epoch, FaultOf(faults, p.id));
      if p.allowEmptySlots || reply.Ok? {
        var next := k + 1;
        NextLeadersExactly(pools, table, faults, height, epoch, next,
                           if p.allowEmptySlots then gauge else gauge[LabelOf(p, epoch) := reply.value]);
        forall i: nat
          ensures EmptyAt(pools, table, faults, epoch, k, i) <==> EmptyAt(pools, table, faults, epoch, next, i)
        {
        }
      } else if reply.Panic? {
        assert EmptyAt(pools, table, faults, epoch, k, k);
      } else {
        forall i: nat
          ensures !EmptyAt(pools, table, faults, epoch, k, i)
        {
          assert EmptyAt(pools, table, faults, epoch, k, i) && k < i ==> Served(p, table, faults, epoch);
        }
      }
    }
  }

  /** No read of the check for assigned slots fails. */
  predicate Readable(pools: seq<Pool>, faults: Faults) {
    forall i :: 0 <= i < |pools| ==> FaultOf(faults, pools[i].id).NoFault?
  }

  /** The check finds slots for the pool, or passes over its failing read. */
  predicate Passes(p: Pool, table: Table, faults: Faults, epoch: int) {
    SlotsEmptyReply(table, p.id, epoch, FaultOf(faults, p.id)) != Panic
    && SlotsEmptyReply(table, p.id, epoch, FaultOf(faults, p.id)) != Ok(true)
  }

  /** Pool `i` must have slots, its row can be read and is missing, and the check passes the pools
      k, ..., i - 1 that must have slots. */
  predicate RowlessAt(pools: seq<Pool>, table: Table, faults: Faults, epoch: int, k: nat, i: nat) {
    && k <= i < |pools| && !pools[i].allowEmptySlots
    && FaultOf(faults, pools[i].id).NoFault? && !HasRow(table, pools[i].id, epoch)
    && forall j :: k <= j < i && !pools[j].allowEmptySlots ==> Passes(pools[j], table, faults, epoch)
  }

  lemma {:induction false} AssignedExactly(pools: seq<Pool>, table: Table, faults: Faults, epoch: int, k: nat)
    requires k <= |pools|
    ensures var r := AssignedFrom(pools, table, faults, epoch, k);
            && (r.AllAssigned? <==>
                  forall i :: k <= i < |pools| && !pools[i].allowEmptySlots ==> Passes(pools[i], table, faults, epoch))
            && (r.AssignedPanics? <==> exists i: nat :: RowlessAt(pools, table, faults, epoch, k, i))
            && (r.NotAssigned? ==>
                  && k <= r.k < |pools| && !pools[r.k].allowEmptySlots
                  && SlotsEmptyReply(table, pools[r.k].id, epoch, FaultOf(faults, pools[r.k].id)) == Ok(true)
                  && forall j :: k <= j < r.k && !pools[j].allowEmptySlots ==> Passes(pools[j], table, faults, epoch))
    decreases |pools| - k
  {
    hide HasRow, FaultOf, Schedule, Quantity;
    if k < |pools| {
      var p := pools[k];
      if p.allowEmptySlots || Passes(p, table, faults, epoch) {
        var next := k + 1;
        AssignedExactly(pools, table, faults, epoch, next);
        forall i: nat
          ensures RowlessAt(pools, table, faults, epoch, k, i) <==> RowlessAt(pools, table, faults, epoch, next, i)
        {
        }
      } else if SlotsEmptyReply(table, p.id, epoch, FaultOf(faults, p.id)).Panic? {
        assert RowlessAt(pools, table, faults, epoch, k, k);
      } else {
        forall i: nat
          ensures !RowlessAt(pools, table, faults, epoch, k, i)
        {
          assert RowlessAt(pools, table, faults, epoch, k, i) && k < i ==> Passes(p, table, faults, epoch);
        }
      }
    }
  }

  // ---------- exactly when a tick goes out of range ----------

  function ContextOf(pools: seq<Pool>, w: Watcher, t: Tick): Context {
    Context(pools, t.table, t.oracle, w.position.epoch)
  }

  /** The tick goes as far as the epoch transition. */
  predicate Transits(pools: seq<Pool>, w: Watcher, t: Tick) {
    && t.healthy && t.latest.Got? && EntersNewEpoch(w, t)
    && NextOf(pools, w, t).reply.Ok?
    && Process(pools, w, t).1.Continue?
  }

  /** The tick gets a new epoch, saves it and refreshes its schedules without error. */
  predicate Refreshes(pools: seq<Pool>, w: Watcher, t: Tick) {
    Transits(pools, w, t) && t.latestEpoch.Got? && t.transitionWrite.Committed? && t.refresh.NoError?
  }

  lemma ProcessEndings(pools: seq<Pool>, w: Watcher, t: Tick)
    requires t.latest.Got?
    ensures var (w1, flow) := Process(pools, w, t);
            && !flow.Returned? && w1.position.epoch == w.position.epoch
            && (flow.Panicked? <==> Ahead(w, t) && ScanIn(pools, w, t).stop.Crashed?)
  {
    hide ScanFrom, CountAll, SaveRow, EndSlot;
  }

  /** How a transition ends the tick. */
  lemma TransitEndings(pools: seq<Pool>, w: Watcher, t: Tick)
    ensures var (w1, flow) := Transit(pools, w, t);
            var check := if t.latestEpoch.Got? then AssignedFrom(pools, t.tableAfter, t.assignedFaults, t.latestEpoch.value, 0)
                            else AllAssigned;
            var goesOn := t.latestEpoch.Got? && t.transitionWrite.Committed?;
            && (t.latestEpoch.Got? ==> w1.position.epoch == t.latestEpoch.value)
            && (flow.Panicked? <==> goesOn && t.refresh.NoError? && check.AssignedPanics?)
            && (flow.Returned? <==> goesOn && t.refresh == RefreshFailed(true))
            && (flow.Continue? <==> goesOn && t.refresh.NoError? && check.AllAssigned?)
  {
    hide AssignedFrom, ResetMetrics, SaveRow;
  }

  /** How a tick ends, from its three parts. */
  lemma TickEndings(pools: seq<Pool>, w: Watcher, t: Tick)
    ensures var (w1, flow) := TickOf(pools, w, t);
            && (flow.Panicked? <==>
                  t.healthy && t.latest.Got? &&
                  (|| NextOf(pools, w, t).reply.Panic?
                   || (Works(pools, w, t) && ScanIn(pools, w, t).stop.Crashed?)
                   || (Refreshes(pools, w, t)
                       && AssignedFrom(pools, t.tableAfter, t.assignedFaults, t.latestEpoch.value, 0).AssignedPanics?)))
            && (Transits(pools, w, t) ==>
                  var (w2, flow2) := Transit(pools, w, t); flow == flow2 && w1.position.epoch == w2.position.epoch)
            && (!Transits(pools, w, t) ==> w1.position.epoch == w.position.epoch && !flow.Returned?)
  {
    hide NextOf, WatcherModel.Process, HandleTransition, AssignedFrom, ScanIn, EndSlot;
    if t.healthy && t.latest.Got? {
      var next := NextOf(pools, w, t);
      var w0 := w.(metrics := w.metrics.(nextSlotLeader := next.gauge));
      PositionSteers(pools, w, w0, t);
      ProcessEndings(pools, w0, t);
      TransitEndings(pools, Process(pools, w0, t).0, t);
      TransitEndings(pools, w, t);
      SameTransit(pools, w, Process(pools, w0, t).0, t);
    }
  }

  /** How a transition ends does not depend on the position it starts from. */
  lemma SameTransit(pools: seq<Pool>, w: Watcher, w': Watcher, t: Tick)
    requires w.position.epoch == w'.position.epoch
    ensures Transit(pools, w, t).1 == Transit(pools, w', t).1
    ensures Transit(pools, w, t).0.position.epoch == Transit(pools, w', t).0.position.epoch
  {
    hide AssignedFrom, ResetMetrics, SaveRow;
  }

  /** A tick panics if and only if it sees a block and one of three things holds: a pool that must
      have slots has an empty row, and those before it have slots; every pool that must have slots
      has some, there is work to do, and the first pass comes to a pool without a row; or the
      transition goes through up to its check, which comes to a missing row. */
  lemma {:induction false} TickPanicsExactly(pools: seq<Pool>, w: Watcher, t: Tick)
    ensures TickOf(pools, w, t).1.Panicked? <==>
              t.healthy && t.latest.Got? &&
              (|| (exists i: nat :: EmptyAt(pools, t.table, t.nextFaults, w.position.epoch, 0, i))
               || (Works(pools, w, t) && FirstPassCrashes(ContextOf(pools, w, t), w.position.slot + 1))
               || (Refreshes(pools, w, t)
                   && exists i: nat :: RowlessAt(pools, t.tableAfter, t.assignedFaults, t.latestEpoch.value, 0, i)))
  {
    hide TickOf, ScanFrom, EmptyAt, FirstPassCrashes, RowlessAt, NextLeadersFrom, AssignedFrom, Transits, EndSlot;
    TickEndings(pools, w, t);
    if t.healthy && t.latest.Got? {
      NextLeadersExactly(pools, t.table, t.nextFaults, t.latest.value.slot, w.position.epoch, 0, w.metrics.nextSlotLeader);
      if Ahead(w, t) {
        ScanPanicsExactly(ContextOf(pools, w, t), w.position.slot + 1, EndSlot(w, t).value);
      }
      if Refreshes(pools, w, t) {
        AssignedExactly(pools, t.tableAfter, t.assignedFaults, t.latestEpoch.value, 0);
      }
    }
  }

  /** No query of the tick fails: not those for the next leaders, nor those of the first pass. */
  predicate Unfailing(pools: seq<Pool>, w: Watcher, t: Tick) {
    && (forall i :: 0 <= i < |pools| ==> FaultOf(t.nextFaults, pools[i].id).NoFault?)
    && forall i :: 0 <= i < |pools| ==> !VisitOf(ContextOf(pools, w, t), pools[i], w.position.slot + 1).VisitFails?
  }

  /** Within an epoch and where no query fails, the table alone decides: a tick that sees a block
      panics if and only if, among the pools that must have slots, the first that has none has an
      empty row, or else, when there is work, some pool has no row. */
  lemma {:induction false} UnfailingTickPanicsExactly(pools: seq<Pool>, w: Watcher, t: Tick)
    requires t.healthy && t.latest.Got? && !EntersNewEpoch(w, t) && Unfailing(pools, w, t)
    ensures TickOf(pools, w, t).1.Panicked? <==>
              || (exists i: nat :: EmptyAt(pools, t.table, t.nextFaults, w.position.epoch, 0, i))
              || (&& (forall i :: 0 <= i < |pools| && !pools[i].allowEmptySlots ==>
                        Schedule(t.table, pools[i].id, w.position.epoch) != [])
                  && Ahead(w, t) && !AllHaveRows(pools, t.table, w.position.epoch))
  {
    hide TickOf, EmptyAt, FirstPassCrashes, NextLeadersFrom, AllHaveRows, VisitOf, PassFrom, EndSlot;
    TickPanicsExactly(pools, w, t);
    NextLeadersExactly(pools, t.table, t.nextFaults, t.latest.value.slot, w.position.epoch, 0, w.metrics.nextSlotLeader);
    UnfailingPassPanicsExactly(ContextOf(pools, w, t), w.position.slot + 1);
    ScanPanicsExactly(ContextOf(pools, w, t), w.position.slot + 1, w.position.slot + 1);
  }

  // ---------- safety over runs ----------

  /** What the refreshes of all components do before the tick reads the table and then until its
      transition reads it again, and the number of the first task of the transition's own refresh. */
  datatype Refreshing = Refreshing(before: seq<Action>, during: seq<Action>, first: nat)

  lemma {:induction false} NilRefreshLeavesRows(x: World, lo: nat, pools: seq<Pool>, epoch: int)
    requires Inv(x) && ReturnedNil(x, lo, pools, epoch)
    ensures AllHaveRows(pools, x.store.table, epoch)
  {
    forall i | 0 <= i < |pools|
      ensures HasRow(x.store.table, pools[i].id, epoch)
    {
      assert GoodTask(x.store, x.tasks[lo + i]);
    }
  }

  /** The transition returns no error, and the check after its refresh could read the rows; `x` is
      the schedule store when the refresh has returned nil. */
  predicate CleanTransition(pools: seq<Pool>, t: Tick, x: World, first: nat) {
    && t.latestEpoch.Got? && t.transitionWrite.Committed? && t.refresh.NoError?
    && ReturnedNil(x, first, pools, t.latestEpoch.value)
    && Readable(pools, t.assignedFaults)
    && !AssignedFrom(pools, t.tableAfter, t.assignedFaults, t.latestEpoch.value, 0).NotAssigned?
  }

  /** The tables of the ticks are those of one history of refreshes that starts from `x`, with any
      other refreshes running as they like, and every transition is clean. */
  predicate CleanTransitions(pools: seq<Pool>, x: World, w: Watcher, ts: seq<Tick>, hs: seq<Refreshing>)
    decreases |ts|
  {
    |hs| == |ts| &&
    (ts != [] ==>
       && Possible(x, hs[0].before)
       && var x1 := After(x, hs[0].before);
       && ts[0].table == x1.store.table
       && Possible(x1, hs[0].during)
       && var x2 := After(x1, hs[0].during);
       && ts[0].tableAfter == x2.store.table
       && (Transits(pools, w, ts[0]) ==> CleanTransition(pools, ts[0], x2, hs[0].first))
       && CleanTransitions(pools, x2, TickOf(pools, w, ts[0]).0, ts[1..], hs[1..]))
  }

  /** The store of the schedules after a run. */
  function EndOf(x: World, hs: seq<Refreshing>): World
    decreases |hs|
  {
    if hs == [] || !Possible(x, hs[0].before) || !Possible(After(x, hs[0].before), hs[0].during) then x
    else EndOf(After(After(x, hs[0].before), hs[0].during), hs[1..])
  }

  lemma ReadyAfter(pools: seq<Pool>, x: World, acts: seq<Action>, epoch: int)
    requires Inv(x) && Possible(x, acts) && Ready(pools, x.store.table, epoch)
    ensures Inv(After(x, acts)) && Ready(pools, After(x, acts).store.table, epoch)
  {
    hide Ready;
    TableSafety(x, acts);
    ReadyStays(pools, x.store.table, After(x, acts).store.table, epoch);
  }

  lemma ReadyTickDoesNotPanic(pools: seq<Pool>, w: Watcher, t: Tick)
    requires Ready(pools, t.table, w.position.epoch)
    requires Refreshes(pools, w, t) ==> AllHaveRows(pools, t.tableAfter, t.latestEpoch.value)
    ensures !TickOf(pools, w, t).1.Panicked?
  {
    hide TickOf, Transits, HasRow, VisitOf;
    TickPanicsExactly(pools, w, t);
  }

  lemma CleanTransitionIsReady(pools: seq<Pool>, t: Tick, x: World, first: nat)
    requires Inv(x) && t.tableAfter == x.store.table && CleanTransition(pools, t, x, first)
    ensures AssignedFrom(pools, t.tableAfter, t.assignedFaults, t.latestEpoch.value, 0).AllAssigned?
    ensures Ready(pools, t.tableAfter, t.latestEpoch.value)
  {
    hide HasRow, Schedule, Quantity, Inv, ReturnedNil;
    NilRefreshLeavesRows(x, first, pools, t.latestEpoch.value);
    AssignedExactly(pools, t.tableAfter, t.assignedFaults, t.latestEpoch.value, 0);
    forall i | 0 <= i < |pools| && !pools[i].allowEmptySlots
      ensures Schedule(t.tableAfter, pools[i].id, t.latestEpoch.value) != []
    {
      assert Passes(pools[i], t.tableAfter, t.assignedFaults, t.latestEpoch.value);
    }
  }

  lemma TickIsSafe(pools: seq<Pool>, x: World, w: Watcher, t: Tick, first: nat)
    requires Inv(x) && t.tableAfter == x.store.table
    requires Ready(pools, t.table, w.position.epoch) && Ready(pools, t.tableAfter, w.position.epoch)
    requires Transits(pools, w, t) ==> CleanTransition(pools, t, x, first)
    ensures var (w1, flow) := TickOf(pools, w, t); Alive(flow) && Ready(pools, t.tableAfter, w1.position.epoch)
  {
    hide TickOf, Transits, Ready, Inv, AssignedFrom, ReturnedNil, Readable, Transit;
    if Transits(pools, w, t) {
      CleanTransitionIsReady(pools, t, x, first);
      TransitEndings(pools, w, t);
    }
    RowsOfReady(pools, t);
    ReadyTickDoesNotPanic(pools, w, t);
    TickEndings(pools, w, t);
  }

  lemma RowsOfReady(pools: seq<Pool>, t: Tick)
    ensures t.latestEpoch.Got? && Ready(pools, t.tableAfter, t.latestEpoch.value) ==>
              AllHaveRows(pools, t.tableAfter, t.latestEpoch.value)
  {
  }

  /** From a ready start, while every transition goes through, no tick ever goes out of range or
      ends the process, and the store stays ready for the epoch the position is in. */
  lemma {:induction false} IndexSafety(pools: seq<Pool>, x: World, w: Watcher, ts: seq<Tick>, hs: seq<Refreshing>)
    requires Inv(x) && Ready(pools, x.store.table, w.position.epoch) && CleanTransitions(pools, x, w, ts, hs)
    ensures var (w', flow) := Ticks(pools, w, ts);
            Alive(flow) && Ready(pools, EndOf(x, hs).store.table, w'.position.epoch)
    decreases |ts|
  {
    hide TickOf, Ready, Transits, CleanTransition, Inv;
    if ts != [] {
      var x1 := After(x, hs[0].before);
      var x2 := After(x1, hs[0].during);
      ReadyAfter(pools, x, hs[0].before, w.position.epoch);
      ReadyAfter(pools, x1, hs[0].during, w.position.epoch);
      TickIsSafe(pools, x2, w, ts[0], hs[0].first);
      IndexSafety(pools, x2, TickOf(pools, w, ts[0]).0, ts[1..], hs[1..]);
    }
  }

  /** A start whose epoch has a row for every pool, and whose check can read them, does not go out
      of range; when it goes on it is ready. */
  lemma StartIsSafe(pools: seq<Pool>, rows: seq<StateRow>, b: Boot)
    requires Readable(pools, b.assignedFaults)
    requires AllHaveRows(pools, b.table, StartUp(pools, rows, b).0.position.epoch)
    ensures var (w, flow) := StartUp(pools, rows, b);
            !flow.Panicked? && (flow.Continue? ==> Ready(pools, b.table, w.position.epoch))
  {
    hide AssignedFrom, ResetMetrics, LoadAndReconcile, HasRow, Schedule, Quantity;
    var epoch := StartUp(pools, rows, b).0.position.epoch;
    AssignedExactly(pools, b.table, b.assignedFaults, epoch, 0);
    if StartUp(pools, rows, b).1.Continue? {
      forall i | 0 <= i < |pools| && !pools[i].allowEmptySlots
        ensures Schedule(b.table, pools[i].id, epoch) != []
      {
        assert Passes(pools[i], b.table, b.assignedFaults, epoch);
      }
    }
  }

  // ---------- what a transition that fails leads to ----------

  lemma RowlessTickStalls(pools: seq<Pool>, w: Watcher, t: Tick, i: nat)
    requires i < |pools| && !pools[i].allowEmptySlots && !HasRow(t.table, pools[i].id, w.position.epoch)
    ensures var (w1, flow) := TickOf(pools, w, t);
            && w1 == w.(metrics := w.metrics.(nextSlotLeader := w1.metrics.nextSlotLeader))
            && !flow.Returned? && (t.healthy ==> !flow.Continue?)
  {
    hide NextLeadersFrom, HasRow, WatcherModel.Process, Transit;
    if t.healthy && t.latest.Got? {
      NextLeadersExactly(pools, t.table, t.nextFaults, t.latest.value.slot, w.position.epoch, 0, w.metrics.nextSlotLeader);
      assert !Served(pools[i], t.table, t.nextFaults, w.position.epoch);
      assert !NextOf(pools, w, t).reply.Ok?;
    }
  }

  /** Stuck for good.  While a pool that must have slots has no row for the position's epoch, every
      tick fails before it processes anything or looks for a new epoch: over any run the position,
      the saved rows, the record and all metrics but the next-leader gauge stay as they are. */
  lemma {:induction false} StuckForGood(pools: seq<Pool>, w: Watcher, ts: seq<Tick>, i: nat)
    requires i < |pools| && !pools[i].allowEmptySlots
    requires forall k :: 0 <= k < |ts| ==> !HasRow(ts[k].table, pools[i].id, w.position.epoch)
    ensures var (w', flow) := Ticks(pools, w, ts);
            && w' == w.(metrics := w.metrics.(nextSlotLeader := w'.metrics.nextSlotLeader)) && !flow.Returned?
    decreases |ts|
  {
    hide TickOf, HasRow;
    if ts != [] {
      RowlessTickStalls(pools, w, ts[0], i);
      var (w1, flow) := TickOf(pools, w, ts[0]);
      if Alive(flow) {
        StuckForGood(pools, w1, ts[1..], i);
      }
    }
  }

  /** A tick that gets to work without a row for some pool, and whose first pass meets no failure,
      panics; all its pools that must have slots have some. */
  lemma RowlessWorkPanics(pools: seq<Pool>, w: Watcher, t: Tick, i: nat)
    requires i < |pools| && Works(pools, w, t) && !HasRow(t.table, pools[i].id, w.position.epoch)
    requires forall j :: 0 <= j < |pools| ==> !VisitOf(ContextOf(pools, w, t), pools[j], w.position.slot + 1).VisitFails?
    ensures TickOf(pools, w, t).1.Panicked? && pools[i].allowEmptySlots
  {
    hide TickOf, VisitOf, PassFrom, FirstPassCrashes, EmptyAt, NextLeadersFrom, EndSlot, HasRow;
    TickPanicsExactly(pools, w, t);
    UnfailingPassPanicsExactly(ContextOf(pools, w, t), w.position.slot + 1);
    ScanPanicsExactly(ContextOf(pools, w, t), w.position.slot + 1, w.position.slot + 1);
    NextLeadersExactly(pools, t.table, t.nextFaults, t.latest.value.slot, w.position.epoch, 0, w.metrics.nextSlotLeader);
    assert !Served(pools[i], t.table, t.nextFaults, w.position.epoch);
  }

  /** The epoch has moved before its save and its refresh can fail.  When the save is reported as
      failed, or the refresh fails for any other reason than the leader log, the process goes on in
      the new epoch.  Then a pool that is left without a row stops it: for good if the pool must
      have slots, and with a panic at the next unfailing work if it need not have any. */
  lemma {:induction false} AfterFailedTransition(pools: seq<Pool>, w: Watcher, t: Tick, ts: seq<Tick>, i: nat)
    requires Transits(pools, w, t) && t.latestEpoch.Got?
    requires !t.transitionWrite.Committed? || t.refresh == RefreshFailed(false)
    requires i < |pools| && forall k :: 0 <= k < |ts| ==> !HasRow(ts[k].table, pools[i].id, t.latestEpoch.value)
    ensures TickOf(pools, w, t).1.Logged? && TickOf(pools, w, t).0.position.epoch == t.latestEpoch.value
    ensures var w1 := TickOf(pools, w, t).0; var (w', flow) := Ticks(pools, w1, ts);
            && (!pools[i].allowEmptySlots ==>
                  w'.position == w1.position && w'.rows == w1.rows && w'.log == w1.log && !flow.Returned?)
            && (ts != [] && Works(pools, w1, ts[0]) && Unfailing(pools, w1, ts[0]) ==>
                  pools[i].allowEmptySlots && flow.Panicked?)
  {
    hide TickOf, Transits, Transit, HasRow, VisitOf, NextOf, EndSlot, AssignedFrom;
    TickEndings(pools, w, t);
    TransitEndings(pools, w, t);
    var w1 := TickOf(pools, w, t).0;
    if !pools[i].allowEmptySlots {
      StuckForGood(pools, w1, ts, i);
    }
    if ts != [] && Works(pools, w1, ts[0]) && Unfailing(pools, w1, ts[0]) {
      RowlessWorkPanics(pools, w1, ts[0], i);
    }
  }

  /** The check stops at pool `k`, whose row is empty: so is what the next-leader query finds later. */
  lemma EmptyRowLater(pools: seq<Pool>, table: Table, faults: Faults, later: Table, laterFaults: Faults, epoch: int, k: nat)
    requires k < |pools| && !pools[k].allowEmptySlots && AllHaveRows(pools, table, epoch)
    requires Readable(pools, faults) && Readable(pools, laterFaults)
    requires table <= later && UniqueKeys(later) && Counted(later)
    requires SlotsEmptyReply(table, pools[k].id, epoch, FaultOf(faults, pools[k].id)) == Ok(true)
    requires forall j :: 0 <= j < k && !pools[j].allowEmptySlots ==> Passes(pools[j], table, faults, epoch)
    ensures EmptyAt(pools, later, laterFaults, epoch, 0, k)
  {
    hide Select, UniqueKeys, Counted;
    forall j | 0 <= j <= k
      ensures HasRow(later, pools[j].id, epoch)
      ensures SlotsEmptyReply(table, pools[j].id, epoch, NoFault) == Ok(Schedule(later, pools[j].id, epoch) == [])
    {
      SameReply(table, later, pools[j].id, epoch);
    }
  }

  lemma SameReply(table: Table, later: Table, pool: string, epoch: int)
    requires table <= later && UniqueKeys(later) && Counted(later) && HasRow(table, pool, epoch)
    ensures HasRow(later, pool, epoch)
    ensures SlotsEmptyReply(table, pool, epoch, NoFault) == Ok(Schedule(later, pool, epoch) == [])
  {
    RowsPersist(table, later, pool, epoch);
    EmptyByEitherCount(later, pool, epoch);
  }

  /** A refresh that returns nil and leaves a pool that must have slots with an empty row is only
      logged, unlike at the start; the next tick that sees a block then panics. */
  lemma {:induction false} NoSlotsThenPanic(pools: seq<Pool>, w: Watcher, t: Tick, t2: Tick)
    requires Refreshes(pools, w, t) && AllHaveRows(pools, t.tableAfter, t.latestEpoch.value)
    requires Readable(pools, t.assignedFaults) && Readable(pools, t2.nextFaults)
    requires AssignedFrom(pools, t.tableAfter, t.assignedFaults, t.latestEpoch.value, 0).NotAssigned?
    requires t.tableAfter <= t2.table && UniqueKeys(t2.table) && Counted(t2.table)
    requires t2.healthy && t2.latest.Got?
    ensures TickOf(pools, w, t).1.Logged? && Ticks(pools, w, [t, t2]).1.Panicked?
  {
    hide TickOf, Transits, Transit, AssignedFrom, FirstPassCrashes, Works, UniqueKeys, Counted, Passes, EmptyAt,
         SlotsEmptyReply, Schedule, HasRow;
    TickEndings(pools, w, t);
    TransitEndings(pools, w, t);
    var w1, epoch := TickOf(pools, w, t).0, t.latestEpoch.value;
    var k := AssignedFrom(pools, t.tableAfter, t.assignedFaults, epoch, 0).k;
    AssignedExactly(pools, t.tableAfter, t.assignedFaults, epoch, 0);
    EmptyRowLater(pools, t.tableAfter, t.assignedFaults, t2.table, t2.nextFaults, epoch, k);
    TickPanicsExactly(pools, w1, t2);
    TwoTicks(pools, w, t, t2);
  }

  /** Such runs.  With one pool that may be without slots: epoch 1 is seen, its refresh fails, and
      the next block leads to a panic. */
  lemma {:induction false} PanicAfterFailedRefresh() returns (pools: seq<Pool>, w: Watcher, t: Tick, t2: Tick)
    ensures t.refresh == RefreshFailed(false) && Ready(pools, t.table, w.position.epoch)
    ensures t.table == t.tableAfter == t2.table == t2.tableAfter
    ensures Alive(TickOf(pools, w, t).1) && Ticks(pools, w, [t, t2]).1.Panicked?
  {
    hide TickOf, Ticks, Works, Transits, Unfailing, Select;
    var table := [Row(1, 0, "p", 0, [])];
    pools := [Pool("p", "", "", false, true)];
    w := Watcher(Position(0, 10), [], NO_METRICS, [], 0);
    t := Tick(true, Got(Block(1, 15, 5)), Got(Block(0, 10, MAX_SLOT_PER_EPOCH)), Got(1), table,
              Oracle(map[], map[], map[]), map[], Committed, Committed, RefreshFailed(false), table, map[]);
    t2 := t.(latest := Got(Block(1, 20, 10)));
    OnlyRow(table, 0);
    OnlyRow(table, 1);
    NothingLeft(pools, w, t);
    AfterFailedTransition(pools, w, t, [], 0);
    var w1 := TickOf(pools, w, t).0;
    WorksWithOnePool(pools, w1, t2);
    OneSlotUnfailing(pools, w1, t2);
    RowlessWorkPanics(pools, w1, t2, 0);
    TwoTicks(pools, w, t, t2);
  }

  /** One pool that may be without slots, and nothing left to scan in the old epoch. */
  lemma {:induction false} NothingLeft(pools: seq<Pool>, w: Watcher, t: Tick)
    requires |pools| == 1 && pools[0].allowEmptySlots && t.healthy && t.latest.Got? && EntersNewEpoch(w, t)
    requires EndSlot(w, t).Got? && EndSlot(w, t).value <= w.position.slot
    ensures Transits(pools, w, t) && TickOf(pools, w, t).0.position.slot == w.position.slot
  {
    hide TickOf, NextOf, EndSlot;
    OneMayBeEmpty(pools, w, t);
    TickShape(pools, w, t);
  }

  /** With one pool that must have slots: the refresh of epoch 1 stores an empty row for it. */
  lemma {:induction false} PanicAfterEmptySchedule() returns (pools: seq<Pool>, w: Watcher, t: Tick, t2: Tick)
    ensures t.refresh == NoError && Ready(pools, t.table, w.position.epoch) && AllHaveRows(pools, t.tableAfter, 1)
    ensures t.table <= t.tableAfter == t2.table && UniqueKeys(t2.table) && Counted(t2.table)
    ensures Alive(TickOf(pools, w, t).1) && Ticks(pools, w, [t, t2]).1.Panicked?
  {
    var table, tableAfter := [Row(1, 0, "p", 1, [20])], [Row(1, 0, "p", 1, [20]), Row(2, 1, "p", 0, [])];
    pools := [Pool("p", "", "", false, false)];
    w := Watcher(Position(0, 10), [], NO_METRICS, [], 0);
    t := Tick(true, Got(Block(1, 15, 5)), Got(Block(0, 10, MAX_SLOT_PER_EPOCH)), Got(1), table,
              Oracle(map[], map[], map[]), map[], Committed, Committed, NoError, tableAfter, map[]);
    t2 := t.(table := tableAfter);
    hide TickOf, Ticks, Select, HasRow, Schedule, UniqueKeys, Counted, Transits, Refreshes, AssignedFrom;
    TwoRowsAreFine(tableAfter);
    EndOfTick(w, t, 10);
    OnlyRow(table, 0);
    OneOfTwoRows(tableAfter, 1);
    IdleTransits(pools, w, t);
    IdleTransition(pools, w, t);
    NoSlotsThenPanic(pools, w, t, t2);
  }

  /** One pool with slots in the old epoch, and nothing left to scan there. */
  lemma {:induction false} IdleTransits(pools: seq<Pool>, w: Watcher, t: Tick)
    requires |pools| == 1 && Served(pools[0], t.table, t.nextFaults, w.position.epoch)
    requires t.healthy && t.latest.Got? && EntersNewEpoch(w, t)
    requires EndSlot(w, t).Got? && EndSlot(w, t).value <= w.position.slot
    ensures Transits(pools, w, t) && TickOf(pools, w, t).0.position.slot == w.position.slot
  {
    hide NextLeadersFrom, EndSlot, ScanFrom, Served, EmptyAt, TickOf;
    NextLeadersExactly(pools, t.table, t.nextFaults, t.latest.value.slot, w.position.epoch, 0, w.metrics.nextSlotLeader);
    TickShape(pools, w, t);
  }

  /** And with an empty row in the new one. */
  lemma {:induction false} IdleTransition(pools: seq<Pool>, w: Watcher, t: Tick)
    requires |pools| == 1 && !pools[0].allowEmptySlots && Readable(pools, t.assignedFaults)
    requires Transits(pools, w, t) && t.latestEpoch.Got? && t.transitionWrite.Committed? && t.refresh.NoError?
    requires HasRow(t.tableAfter, pools[0].id, t.latestEpoch.value) && Schedule(t.tableAfter, pools[0].id, t.latestEpoch.value) == []
    ensures Refreshes(pools, w, t)
    ensures AssignedFrom(pools, t.tableAfter, t.assignedFaults, t.latestEpoch.value, 0).NotAssigned?
  {
    hide AssignedFrom, Transits, FaultOf, HasRow, Schedule;
    AssignedExactly(pools, t.tableAfter, t.assignedFaults, t.latestEpoch.value, 0);
    assert !Passes(pools[0], t.tableAfter, t.assignedFaults, t.latestEpoch.value);
  }

  /** The stall, with one pool that must have slots: epoch 1 is seen, its refresh fails, and neither
      a block of epoch 1 nor one of epoch 2 moves the watcher again. */
  lemma {:induction false} StallAfterFailedRefresh() returns (pools: seq<Pool>, w: Watcher, ts: seq<Tick>)
    ensures |ts| == 3 && ts[0].refresh == RefreshFailed(false) && Ready(pools, ts[0].table, w.position.epoch)
    ensures ts[1].latest.Got? && ts[1].latest.value.epoch == 1 && ts[2].latest.Got? && ts[2].latest.value.epoch == 2
    ensures TickOf(pools, w, ts[0]).0.position == Position(1, w.position.slot)
    ensures var (w', flow) := Ticks(pools, w, ts);
            Alive(flow) && w'.position == Position(1, w.position.slot) && w'.log == w.log
  {
    var table := [Row(1, 0, "p", 1, [20])];
    pools := [Pool("p", "", "", false, false)];
    w := Watcher(Position(0, 10), [], NO_METRICS, [], 0);
    var t := Tick(true, Got(Block(1, 15, 5)), Got(Block(0, 10, MAX_SLOT_PER_EPOCH)), Got(1), table,
                  Oracle(map[], map[], map[]), map[], Committed, Committed, RefreshFailed(false), table, map[]);
    var t2, t3 := t.(latest := Got(Block(1, 20, 10))), t.(latest := Got(Block(2, 432020, 10)));
    ts := [t, t2, t3];
    hide TickOf, Transits, Select, EndSlot;
    OnlyRow(table, 0);
    OnlyRow(table, 1);
    EndOfTick(w, t, 10);
    IdleTransits(pools, w, t);
    AfterFailedTransition(pools, w, t, [], 0);
    var w1 := TickOf(pools, w, t).0;
    RowlessTickLives(pools, w1, t2);
    var w2 := TickOf(pools, w1, t2).0;
    RowlessTickLives(pools, w2, t3);
    TickAlone(pools, w2, t3);
    assert [t2, t3][1..] == [t3];
    assert ts[1..] == [t2, t3];
    SameLog(pools, w, t);
  }

  lemma EndOfTick(w: Watcher, t: Tick, end: int)
    requires t.latest.Got? && EntersNewEpoch(w, t) && t.lastBlock == Got(Block(0, end, MAX_SLOT_PER_EPOCH))
    ensures EndSlot(w, t) == Got(end)
  {
  }

  lemma SameLog(pools: seq<Pool>, w: Watcher, t: Tick)
    requires t.latest.Got? && EndSlot(w, t).Got? && EndSlot(w, t).value <= w.position.slot
    ensures TickOf(pools, w, t).0.log == w.log
  {
    hide TickOf, EndSlot;
    TickShape(pools, w, t);
  }

  lemma {:induction false} TickAlone(pools: seq<Pool>, w: Watcher, t: Tick)
    requires Alive(TickOf(pools, w, t).1)
    ensures Ticks(pools, w, [t]) == (TickOf(pools, w, t).0, Continue)
  {
    hide TickOf;
    assert [t][1..] == [];
  }

  /** Without a row for its one pool, which must have slots, a process lives on as it is. */
  lemma {:induction false} RowlessTickLives(pools: seq<Pool>, w: Watcher, t: Tick)
    requires |pools| == 1 && !pools[0].allowEmptySlots && !HasRow(t.table, pools[0].id, w.position.epoch)
    ensures var (w1, flow) := TickOf(pools, w, t); Alive(flow) && w1.position == w.position && w1.log == w.log
  {
    hide TickOf, HasRow, Refreshes, Works, NextLeadersFrom, Transits;
    RowlessTickStalls(pools, w, t, 0);
    TickPanicsExactly(pools, w, t);
    if t.healthy && t.latest.Got? {
      NextLeadersExactly(pools, t.table, t.nextFaults, t.latest.value.slot, w.position.epoch, 0, w.metrics.nextSlotLeader);
      assert !Served(pools[0], t.table, t.nextFaults, w.position.epoch);
      NotServedNoWork(pools, w, t);
    }
  }

  lemma NotServedNoWork(pools: seq<Pool>, w: Watcher, t: Tick)
    requires t.latest.Got? && !NextOf(pools, w, t).reply.Ok?
    ensures !Works(pools, w, t) && !Refreshes(pools, w, t)
  {
    hide NextOf;
  }

  lemma {:induction false} OneSlotUnfailing(pools: seq<Pool>, w: Watcher, t: Tick)
    requires |pools| == 1 && t.oracle == Oracle(map[], map[], map[]) && t.nextFaults == map[]
    requires !HasRow(t.table, pools[0].id, w.position.epoch)
    ensures Unfailing(pools, w, t)
  {
    hide Select, EndSlot;
    VisitPanicsExactly(ContextOf(pools, w, t), pools[0], w.position.slot + 1);
  }

  lemma TwoTicks(pools: seq<Pool>, w: Watcher, t: Tick, t2: Tick)
    requires Alive(TickOf(pools, w, t).1) && !Alive(TickOf(pools, TickOf(pools, w, t).0, t2).1)
    ensures Ticks(pools, w, [t, t2]).1 == TickOf(pools, TickOf(pools, w, t).0, t2).1
  {
    hide TickOf;
    assert [t, t2][1..] == [t2];
  }
}
