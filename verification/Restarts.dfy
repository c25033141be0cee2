/** Any sequence of starts, ticks, lost writes and kills, over one state table. */
module Restarts {
  import opened Pools
  import opened SlotLeader
  import opened WatcherModel
  import opened Coverage
  import opened Epochs
  import opened OnePool
  import opened Upstream

  datatype Lifecycle = Stopped | Up(w: Watcher)

  /** What all processes did so far: every classification made, the epoch under which a slot was
      last passed over by a scan that lived to save, and the pairs (position of the pool, slot)
      such a scan gave up on. */
  datatype Ledger = Ledger(events: seq<Event>, under: map<int, int>, lost: set<(nat, int)>)

  /** The state table and the process, if one is up.  `base` is the slot where the position was
      last set rather than reached: read from the chain when the table was empty, or jumped to at
      the start of a newer epoch. */
  datatype World = World(rows: seq<StateRow>, process: Lifecycle, base: int, ledger: Ledger)

  datatype Action =
    | Start(b: Boot)
    | Run(t: Tick)
    | Kill
    | KillInScan(t: Tick, n: nat)           // killed while working, with `n` classifications made
    | KillAfterScan(t: Tick)                // killed between the save of a scan and the rest of the tick
    | KillAfterTransitionSave(t: Tick)      // killed before the schedules of the new epoch are refreshed

  predicate Enabled(pools: seq<Pool>, x: World, a: Action) {
    match a
    case Start(_) => x.process.Stopped?
    case Run(_) => x.process.Up?
    case Kill => x.process.Up?
    case KillInScan(t, n) => x.process.Up? && Works(pools, x.process.w, t) && n <= |ScanIn(pools, x.process.w, t).events|
    case KillAfterScan(t) => x.process.Up? && Works(pools, x.process.w, t) && !ScanIn(pools, x.process.w, t).stop.Crashed?
    case KillAfterTransitionSave(t) =>
      x.process.Up? && Works(pools, x.process.w, t) && Process(pools, x.process.w, t).1.Continue?
      && EntersNewEpoch(x.process.w, t) && t.latestEpoch.Got?
  }

  /** The slots lo + 1, ..., hi, each with the epoch. */
  function Labelled(lo: int, hi: int, epoch: int): (m: map<int, int>)
    ensures forall s :: s in m <==> lo < s <= hi
    ensures forall s :: s in m ==> m[s] == epoch
    decreases hi - lo
  {
    if hi <= lo then map[] else Labelled(lo, hi - 1, epoch)[hi := epoch]
  }

  /** The pairs of a slot with the pools k, ..., n - 1. */
  function PairsFrom(k: nat, n: nat, slot: int): (pairs: set<(nat, int)>)
    ensures forall i, s :: (i, s) in pairs <==> k <= i < n && s == slot
    decreases n - k
  {
    if k >= n then {} else PairsFrom(k + 1, n, slot) + {(k, slot)}
  }

  /** What the scan of a tick adds to the ledger; one that panics saves nothing. */
  function Note(pools: seq<Pool>, g: Ledger, w: Watcher, t: Tick): Ledger {
    if !Works(pools, w, t) then g
    else
      var s := ScanIn(pools, w, t);
      var events := g.events + s.events;
      match s.stop
      case Crashed(_) => g.(events := events)
      case Aborted(k) =>
        Ledger(events, g.under + Labelled(w.position.slot, s.last, w.position.epoch), g.lost + PairsFrom(k, |pools|, s.last))
      case Completed =>
        Ledger(events, g.under + Labelled(w.position.slot, s.last, w.position.epoch), g.lost)
  }

  function Do(pools: seq<Pool>, x: World, a: Action): World
    requires Enabled(pools, x, a)
  {
    match a
    case Start(b) =>
      var (w, flow) := StartUp(pools, x.rows, b);
      var process := if flow.Continue? then Up(w) else Stopped;
      World(w.rows, process, if x.rows == [] || w.rows != x.rows then w.position.slot else x.base, x.ledger)
    case Run(t) =>
      var (w, flow) := TickOf(pools, x.process.w, t);
      World(w.rows, if Alive(flow) then Up(w) else Stopped, x.base, Note(pools, x.ledger, x.process.w, t))
    case Kill => x.(process := Stopped)
    case KillInScan(t, n) =>
      var made := ScanIn(pools, x.process.w, t).events[..n];
      x.(process := Stopped, ledger := x.ledger.(events := x.ledger.events + made))
    case KillAfterScan(t) =>
      x.(process := Stopped, rows := Process(pools, x.process.w, t).0.rows,
         ledger := Note(pools, x.ledger, x.process.w, t))
    case KillAfterTransitionSave(t) =>
      x.(process := Stopped, rows := HandleTransition(pools, Process(pools, x.process.w, t).0, t).0.rows,
         ledger := Note(pools, x.ledger, x.process.w, t))
  }

  predicate Possible(pools: seq<Pool>, x: World, acts: seq<Action>)
    decreases |acts|
  {
    acts == [] || (Enabled(pools, x, acts[0]) && Possible(pools, Do(pools, x, acts[0]), acts[1..]))
  }

  function After(pools: seq<Pool>, x: World, acts: seq<Action>): World
    requires Possible(pools, x, acts)
    decreases |acts|
  {
    if acts == [] then x else After(pools, Do(pools, x, acts[0]), acts[1..])
  }

  /** The events a tick adds to the ledger are those the process logs. */
  lemma LedgerFollowsTheLog(pools: seq<Pool>, x: World, t: Tick)
    requires x.process.Up?
    ensures var w, w1 := x.process.w, TickOf(pools, x.process.w, t).0;
            w.log <= w1.log && Do(pools, x, Run(t)).ledger.events == x.ledger.events + w1.log[|w.log|..]
  {
    hide TickOf, ScanIn, Works;
    TickShape(pools, x.process.w, t);
    assert x.ledger.events + [] == x.ledger.events;
  }

  // ---------- what is covered ----------

  predicate LogsUnder(events: seq<Event>, p: Pool, slot: int, epoch: int) {
    exists e :: e in events && e.pool == p && e.slot == slot && e.epoch == epoch
  }

  /** A scan passed over the slot and, if it leads for the pool in the epoch of that scan, the pair
      was classified under that epoch or given up. */
  predicate PairDone(pools: seq<Pool>, table: Table, g: Ledger, i: nat, s: int)
    requires i < |pools|
  {
    && s in g.under
    && (s in Schedule(table, pools[i].id, g.under[s]) ==>
          LogsUnder(g.events, pools[i], s, g.under[s]) || (i, s) in g.lost)
  }

  predicate SlotDone(pools: seq<Pool>, table: Table, g: Ledger, s: int) {
    s in g.under && forall i: nat :: i < |pools| ==> PairDone(pools, table, g, i, s)
  }

  /** Every slot from `base` (excluded) to `slot` is done. */
  ghost predicate Covered(pools: seq<Pool>, table: Table, base: int, slot: int, g: Ledger) {
    base <= slot && forall s :: base < s <= slot ==> SlotDone(pools, table, g, s)
  }

  /** What is done up to `slot` stays done. */
  predicate Extends(g: Ledger, g': Ledger, slot: int) {
    && g.events <= g'.events && g.lost <= g'.lost
    && forall s :: s in g.under && s <= slot ==> s in g'.under && g'.under[s] == g.under[s]
  }

  lemma CoveredStays(pools: seq<Pool>, table: Table, base: int, slot: int, g: Ledger, g': Ledger, upTo: int)
    requires Covered(pools, table, base, slot, g) && Extends(g, g', upTo) && slot <= upTo
    ensures Covered(pools, table, base, slot, g')
  {
    hide Schedule;
    forall s | base < s <= slot
      ensures SlotDone(pools, table, g', s)
    {
      assert SlotDone(pools, table, g, s);
      forall i: nat | i < |pools|
        ensures PairDone(pools, table, g', i, s)
      {
        assert PairDone(pools, table, g, i, s);
        if LogsUnder(g.events, pools[i], s, g.under[s]) {
          var e :| e in g.events && e.pool == pools[i] && e.slot == s && e.epoch == g.under[s];
          assert e in g'.events;
        }
      }
    }
  }

  /** Everything the ticks read belongs to `table`. */
  predicate AllRead(acts: seq<Action>, table: Table) {
    forall k :: 0 <= k < |acts| && (acts[k].Run? || acts[k].KillAfterScan? || acts[k].KillAfterTransitionSave?) ==>
      Reads(acts[k].t, table)
  }

  /** A pair that a scan reached and did not give up on is classified as the final table has it. */
  lemma ScannedPair(c: Context, slot: int, end: int, table: Table, i: nat, s: int)
    requires DistinctIds(c.pools) && i < |c.pools| && slot <= end
    requires c.table <= table && UniqueKeys(table) && Counted(table) && HonestDriver(c.oracle)
    requires slot <= s <= ScanFrom(c, slot, end).last && !GivenUp(ScanFrom(c, slot, end), i, s)
    requires s in Schedule(table, c.pools[i].id, c.epoch)
    ensures LogsUnder(ScanFrom(c, slot, end).events, c.pools[i], s, c.epoch)
  {
    hide ScanFrom, GivenUp, Schedule, HonestDriver, UniqueKeys, Counted;
    ScanCoverageLater(c, slot, end, table, i, s);
    ScanFromScheduled(c, slot, end, table);
  }

  lemma NewSlotDone(pools: seq<Pool>, table: Table, g: Ledger, w: Watcher, t: Tick, s: int)
    requires DistinctIds(pools) && UniqueKeys(table) && Counted(table) && Reads(t, table)
    requires Works(pools, w, t) && !ScanIn(pools, w, t).stop.Crashed?
    requires w.position.slot < s <= ScanIn(pools, w, t).last
    ensures SlotDone(pools, table, Note(pools, g, w, t), s)
  {
    hide NextOf, ScanFrom, Schedule, HonestDriver, UniqueKeys, Counted, EndSlot, LogsUnder;
    var scan := ScanIn(pools, w, t);
    var g' := Note(pools, g, w, t);
    assert g'.under[s] == w.position.epoch;
    forall i: nat | i < |pools| && s in Schedule(table, pools[i].id, w.position.epoch)
      ensures LogsUnder(g'.events, pools[i], s, w.position.epoch) || (i, s) in g'.lost
    {
      if !GivenUp(scan, i, s) {
        ScannedPair(Context(pools, t.table, t.oracle, w.position.epoch), w.position.slot + 1, EndSlot(w, t).value, table, i, s);
        MoreLogs(g.events, scan.events, pools[i], s, w.position.epoch);
      }
    }
  }

  lemma MoreLogs(a: seq<Event>, b: seq<Event>, p: Pool, slot: int, epoch: int)
    requires LogsUnder(b, p, slot, epoch)
    ensures LogsUnder(a + b, p, slot, epoch)
  {
    var e :| e in b && e.pool == p && e.slot == slot && e.epoch == epoch;
    assert e in a + b;
  }

  lemma NoteExtends(pools: seq<Pool>, g: Ledger, w: Watcher, t: Tick)
    ensures Extends(g, Note(pools, g, w, t), w.position.slot)
  {
    hide Works, ScanIn;
  }

  lemma NoteCovers(pools: seq<Pool>, table: Table, base: int, g: Ledger, w: Watcher, t: Tick)
    requires DistinctIds(pools) && UniqueKeys(table) && Counted(table) && Reads(t, table)
    requires Works(pools, w, t) && !ScanIn(pools, w, t).stop.Crashed?
    requires Covered(pools, table, base, w.position.slot, g)
    ensures Covered(pools, table, base, ScanIn(pools, w, t).last, Note(pools, g, w, t))
  {
    hide NextOf, ScanIn, SlotDone, Note, Reads, UniqueKeys, Counted, Extends;
    NoteExtends(pools, g, w, t);
    CoveredStays(pools, table, base, w.position.slot, g, Note(pools, g, w, t), w.position.slot);
    ScanGetsAhead(pools, w, t);
    forall s | w.position.slot < s <= ScanIn(pools, w, t).last
      ensures SlotDone(pools, table, Note(pools, g, w, t), s)
    {
      NewSlotDone(pools, table, g, w, t, s);
    }
  }

  lemma ScanGetsAhead(pools: seq<Pool>, w: Watcher, t: Tick)
    requires Works(pools, w, t)
    ensures w.position.slot < ScanIn(pools, w, t).last
  {
    hide ScanFrom, NextOf, EndSlot;
    ScanReaches(Context(pools, t.table, t.oracle, w.position.epoch), w.position.slot + 1, EndSlot(w, t).value);
  }

  // ---------- the invariant ----------

  /** At most one row, with the fixed id, at a slot no further than `slot`. */
  predicate OneRow(rows: seq<StateRow>, slot: int) {
    rows == [] || (|rows| == 1 && rows[0].id == 1 && rows[0].position.slot <= slot)
  }

  /** The one row holds exactly this slot. */
  predicate SavedAt(rows: seq<StateRow>, slot: int) {
    |rows| == 1 && rows[0].id == 1 && rows[0].position.slot == slot
  }

  /** Holds, among others, of an empty table with no process. */
  ghost predicate Inv(pools: seq<Pool>, table: Table, x: World) {
    && |x.rows| <= 1
    && (x.rows != [] ==> x.rows[0].id == 1 && Covered(pools, table, x.base, x.rows[0].position.slot, x.ledger))
    && (x.process.Up? ==>
          var w := x.process.w;
          && w.rows == x.rows && OneRow(x.rows, w.position.slot)
          && Covered(pools, table, x.base, w.position.slot, x.ledger))
  }

  /** A save that is not lost leaves its own row and no other. */
  lemma SaveReplaces(rows: seq<StateRow>, p: Position, write: Write)
    requires |rows| <= 1 && (rows != [] ==> rows[0].id == 1)
    ensures SaveRow(rows, p, write) == if write.Lost? then rows else [StateRow(1, p)]
  {
    if rows != [] {
      assert Without(rows[1..], 1) == [] by { assert rows[1..] == []; }
    }
    assert Without(rows, 1) == [];
  }

  lemma SaveKeepsOneRow(rows: seq<StateRow>, slot: int, p: Position, write: Write)
    requires OneRow(rows, slot) && slot <= p.slot
    ensures OneRow(SaveRow(rows, p, write), p.slot)
    ensures SaveRow(rows, p, write) == rows || SavedAt(SaveRow(rows, p, write), p.slot)
  {
    SaveReplaces(rows, p, write);
  }

  /** The rows and the slot after a step that may have saved. */
  predicate Kept(w: Watcher, w1: Watcher) {
    && OneRow(w1.rows, w1.position.slot) && w.position.slot <= w1.position.slot
    && (w1.rows == w.rows || SavedAt(w1.rows, w1.position.slot))
  }

  /** Processing saves the slot it moves to, if the write is not lost. */
  lemma ProcessKeepsRows(pools: seq<Pool>, w: Watcher, t: Tick)
    requires t.latest.Got? && OneRow(w.rows, w.position.slot)
    ensures var w1 := Process(pools, w, t).0;
            && Kept(w, w1)
            && (Ahead(w, t) && !ScanIn(pools, w, t).stop.Crashed? ==> w1.position.slot == ScanIn(pools, w, t).last)
            && (!Ahead(w, t) || ScanIn(pools, w, t).stop.Crashed? ==> w1.position == w.position && w1.rows == w.rows)
  {
    hide ScanFrom, SaveRow, EndSlot;
    if Ahead(w, t) {
      ScanReaches(Context(pools, t.table, t.oracle, w.position.epoch), w.position.slot + 1, EndSlot(w, t).value);
      var s := ScanIn(pools, w, t);
      SaveKeepsOneRow(w.rows, w.position.slot, Position(w.position.epoch, s.last), t.write);
    }
  }

  lemma TransitionKeepsRows(pools: seq<Pool>, w: Watcher, t: Tick)
    requires OneRow(w.rows, w.position.slot)
    ensures var w1 := HandleTransition(pools, w, t).0;
            && w1.position.slot == w.position.slot && OneRow(w1.rows, w.position.slot)
            && (w1.rows == w.rows || SavedAt(w1.rows, w1.position.slot))
  {
    hide AssignedFrom, SaveRow;
    if t.latestEpoch.Got? {
      SaveKeepsOneRow(w.rows, w.position.slot, Position(t.latestEpoch.value, w.position.slot), t.transitionWrite);
    }
  }

  lemma TickKeepsRows(pools: seq<Pool>, w: Watcher, t: Tick)
    requires OneRow(w.rows, w.position.slot)
    ensures var (w1, flow) := TickOf(pools, w, t);
            && Kept(w, w1)
            && (Works(pools, w, t) && !ScanIn(pools, w, t).stop.Crashed? ==> w1.position.slot == ScanIn(pools, w, t).last)
            && (!Works(pools, w, t) ==> w1.position.slot == w.position.slot)
            && (Works(pools, w, t) && ScanIn(pools, w, t).stop.Crashed? ==> w1.rows == w.rows && !Alive(flow))
  {
    hide ScanOf, NextLeadersFrom, WatcherModel.Process, HandleTransition, ResetMetrics, OneRow, SavedAt, EndSlot;
    TickShape(pools, w, t);
    if t.healthy && t.latest.Got? {
      var next := NextOf(pools, w, t);
      var w0 := w.(metrics := w.metrics.(nextSlotLeader := next.gauge));
      if next.reply.Ok? {
        PositionSteers(pools, w, w0, t);
        var (w1, flow) := Process(pools, w0, t);
        ProcessKeepsRows(pools, w0, t);
        TransitionKeepsRows(pools, w1, t);
        if Works(pools, w, t) && ScanIn(pools, w, t).stop.Crashed? {
          CrashEndsTick(pools, w0, t);
        }
      }
    }
  }

  lemma CrashEndsTick(pools: seq<Pool>, w: Watcher, t: Tick)
    requires Ahead(w, t) && ScanIn(pools, w, t).stop.Crashed?
    ensures Process(pools, w, t).1.Panicked?
  {
    hide ScanFrom, SaveRow, EndSlot, CountAll;
  }

  lemma ScanKeepsInv(pools: seq<Pool>, table: Table, x: World, t: Tick, rows: seq<StateRow>, slot: int)
    requires Inv(pools, table, x) && x.process.Up?
    requires DistinctIds(pools) && UniqueKeys(table) && Counted(table) && Reads(t, table)
    requires Works(pools, x.process.w, t) && !ScanIn(pools, x.process.w, t).stop.Crashed?
    requires slot == ScanIn(pools, x.process.w, t).last && OneRow(rows, slot)
    requires rows == x.rows || SavedAt(rows, slot)
    ensures var g := Note(pools, x.ledger, x.process.w, t);
            && Covered(pools, table, x.base, slot, g)
            && (rows != [] ==> rows[0].id == 1 && Covered(pools, table, x.base, rows[0].position.slot, g))
  {
    hide Works, ScanIn, Note, SlotDone, Reads, UniqueKeys, Counted;
    NoteCovers(pools, table, x.base, x.ledger, x.process.w, t);
  }

  lemma IdleKeepsInv(pools: seq<Pool>, table: Table, x: World, t: Tick)
    requires Inv(pools, table, x) && x.process.Up?
    requires !Works(pools, x.process.w, t) || ScanIn(pools, x.process.w, t).stop.Crashed?
    ensures var w := x.process.w; var g := Note(pools, x.ledger, w, t);
            && Covered(pools, table, x.base, w.position.slot, g)
            && (x.rows != [] ==> Covered(pools, table, x.base, x.rows[0].position.slot, g))
  {
    hide Works, ScanIn, SlotDone, Extends, Note, Covered;
    var w := x.process.w;
    NoteExtends(pools, x.ledger, w, t);
    CoveredStays(pools, table, x.base, w.position.slot, x.ledger, Note(pools, x.ledger, w, t), w.position.slot);
    if x.rows != [] {
      CoveredStays(pools, table, x.base, x.rows[0].position.slot, x.ledger, Note(pools, x.ledger, w, t), w.position.slot);
    }
  }

  lemma RunKeepsInv(pools: seq<Pool>, table: Table, x: World, t: Tick)
    requires Inv(pools, table, x) && x.process.Up?
    requires DistinctIds(pools) && UniqueKeys(table) && Counted(table) && Reads(t, table)
    ensures Inv(pools, table, Do(pools, x, Run(t)))
  {
    hide TickOf, ScanIn, NextOf, Note, Covered, Reads, UniqueKeys, Counted;
    var w := x.process.w;
    var w1 := TickOf(pools, w, t).0;
    TickKeepsRows(pools, w, t);
    if Works(pools, w, t) && !ScanIn(pools, w, t).stop.Crashed? {
      ScanKeepsInv(pools, table, x, t, w1.rows, w1.position.slot);
    } else {
      IdleKeepsInv(pools, table, x, t);
      SavedSlotIsCovered(pools, table, x, Note(pools, x.ledger, w, t), w1.rows);
    }
  }

  /** The one row holds either what it held or the slot the process stands at. */
  lemma SavedSlotIsCovered(pools: seq<Pool>, table: Table, x: World, g: Ledger, rows: seq<StateRow>)
    requires Inv(pools, table, x) && x.process.Up?
    requires Covered(pools, table, x.base, x.process.w.position.slot, g)
    requires x.rows != [] ==> Covered(pools, table, x.base, x.rows[0].position.slot, g)
    ensures rows == x.rows || SavedAt(rows, x.process.w.position.slot) ==>
              |rows| <= 1 && (rows != [] ==> rows[0].id == 1 && Covered(pools, table, x.base, rows[0].position.slot, g))
  {
    hide Covered;
  }

  lemma KillInScanKeepsInv(pools: seq<Pool>, table: Table, x: World, a: Action)
    requires Inv(pools, table, x) && Enabled(pools, x, a) && (a.Kill? || a.KillInScan?)
    ensures Inv(pools, table, Do(pools, x, a))
  {
    hide ScanIn, Works, SlotDone, Covered;
    var g := Do(pools, x, a).ledger;
    if x.rows != [] {
      CoveredStays(pools, table, x.base, x.rows[0].position.slot, x.ledger, g, x.rows[0].position.slot);
    }
  }

  lemma KillLaterKeepsInv(pools: seq<Pool>, table: Table, x: World, a: Action)
    requires Inv(pools, table, x) && Enabled(pools, x, a) && (a.KillAfterScan? || a.KillAfterTransitionSave?)
    requires DistinctIds(pools) && UniqueKeys(table) && Counted(table) && Reads(a.t, table)
    ensures Inv(pools, table, Do(pools, x, a))
  {
    hide ScanOf, WatcherModel.Process, HandleTransition, Note, NextOf, EndSlot, Covered, Reads, UniqueKeys, Counted;
    var w := x.process.w;
    ProcessKeepsRows(pools, w, a.t);
    if a.KillAfterTransitionSave? {
      ContinueIsNoCrash(pools, w, a.t);
      TransitionKeepsRows(pools, Process(pools, w, a.t).0, a.t);
    }
    ScanKeepsInv(pools, table, x, a.t, Do(pools, x, a).rows, ScanIn(pools, w, a.t).last);
  }

  lemma ContinueIsNoCrash(pools: seq<Pool>, w: Watcher, t: Tick)
    requires Ahead(w, t) && Process(pools, w, t).1.Continue?
    ensures !ScanIn(pools, w, t).stop.Crashed?
  {
    hide ScanFrom, SaveRow, EndSlot, CountAll;
  }

  /** A start either resumes at the saved row or sets the position anew. */
  lemma StartShape(pools: seq<Pool>, rows: seq<StateRow>, b: Boot)
    requires |rows| <= 1 && (rows != [] ==> rows[0].id == 1)
    ensures var (w, flow) := StartUp(pools, rows, b);
            && w.log == []
            && (w.rows == rows || SavedAt(w.rows, w.position.slot))
            && (rows != [] && flow.Continue? && w.rows == rows ==> w.position == rows[0].position)
  {
    hide AssignedFrom, ResetMetrics, SaveRow;
    if b.currentEpoch.Got? && b.firstBlock.Got? {
      SaveReplaces(rows, Position(b.currentEpoch.value, b.firstBlock.value.slot), b.write);
    }
  }

  lemma StartKeepsInv(pools: seq<Pool>, table: Table, x: World, b: Boot)
    requires Inv(pools, table, x) && x.process.Stopped?
    ensures Inv(pools, table, Do(pools, x, Start(b)))
  {
    hide StartUp, SlotDone;
    StartShape(pools, x.rows, b);
  }

  lemma ActionKeepsInv(pools: seq<Pool>, table: Table, x: World, a: Action)
    requires Inv(pools, table, x) && Enabled(pools, x, a)
    requires DistinctIds(pools) && UniqueKeys(table) && Counted(table) && AllRead([a], table)
    ensures Inv(pools, table, Do(pools, x, a))
  {
    hide Do, Inv, Works, ScanIn, Reads, UniqueKeys, Counted;
    assert [a][0] == a;
    match a
    case Start(b) => StartKeepsInv(pools, table, x, b);
    case Run(t) => RunKeepsInv(pools, table, x, t);
    case Kill => KillInScanKeepsInv(pools, table, x, a);
    case KillInScan(_, _) => KillInScanKeepsInv(pools, table, x, a);
    case _ => KillLaterKeepsInv(pools, table, x, a);
  }

  // ---------- at least once ----------

  /** At least once across crashes.  After any sequence of starts, ticks, lost writes and kills
      there is at most one saved row, and some scan passed over every slot from the base to the
      saved slot; every pair that leads in the epoch of that scan is among the classifications of
      all processes, unless a scan that failed gave up on it. */
  lemma {:induction false} AtLeastOnceAcrossCrashes(pools: seq<Pool>, table: Table, x: World, acts: seq<Action>)
    requires DistinctIds(pools) && UniqueKeys(table) && Counted(table) && AllRead(acts, table)
    requires Inv(pools, table, x) && Possible(pools, x, acts)
    ensures var x' := After(pools, x, acts);
            && Inv(pools, table, x')
            && |x'.rows| <= 1
            && (x'.rows != [] ==>
                  && x'.base <= x'.rows[0].position.slot
                  && forall i: nat, s :: i < |pools| && x'.base < s <= x'.rows[0].position.slot ==>
                       PairDone(pools, table, x'.ledger, i, s))
    decreases |acts|
  {
    if acts == [] {
      hide PairDone;
      if x.rows != [] {
        forall i: nat, s | i < |pools| && x.base < s <= x.rows[0].position.slot
          ensures PairDone(pools, table, x.ledger, i, s)
        {
          assert SlotDone(pools, table, x.ledger, s);
        }
      }
    } else {
      hide Do, Enabled, Inv, Reads, UniqueKeys, Counted, PairDone;
      assert AllRead([acts[0]], table);
      ActionKeepsInv(pools, table, x, acts[0]);
      AtLeastOnceAcrossCrashes(pools, table, Do(pools, x, acts[0]), acts[1..]);
    }
  }

  /** Every scan of the run is made in `epoch`, and every start is within the epoch then saved. */
  predicate WithinSavedEpoch(pools: seq<Pool>, x: World, acts: seq<Action>, epoch: int)
    requires Possible(pools, x, acts)
    decreases |acts|
  {
    acts != [] ==>
      && (match acts[0]
          case Start(b) => x.rows != [] && (b.currentEpoch.Got? ==> b.currentEpoch.value <= x.rows[0].position.epoch)
          case _ => x.process.Up? && x.process.w.position.epoch == epoch)
      && WithinSavedEpoch(pools, Do(pools, x, acts[0]), acts[1..], epoch)
  }

  /** Starting again within the saved epoch resumes exactly at the saved slot and forgets nothing. */
  lemma RestartResumes(pools: seq<Pool>, x: World, b: Boot)
    requires x.process.Stopped? && x.rows != []
    requires b.currentEpoch.Got? ==> b.currentEpoch.value <= x.rows[0].position.epoch
    ensures var x' := Do(pools, x, Start(b));
            && x'.rows == x.rows && x'.base == x.base && x'.ledger == x.ledger
            && (x'.process.Up? ==> x'.process.w.position == x.rows[0].position)
  {
    hide AssignedFrom, ResetMetrics, SaveRow;
  }

  /** No action but a start on an empty table or in a newer epoch moves the base, and scans label
      their slots with their epoch. */
  lemma ActionKeepsBase(pools: seq<Pool>, x: World, a: Action, epoch: int)
    requires Enabled(pools, x, a) && WithinSavedEpoch(pools, x, [a], epoch)
    requires forall s :: s in x.ledger.under && x.base < s ==> x.ledger.under[s] == epoch
    ensures var x' := Do(pools, x, a);
            x'.base == x.base && forall s :: s in x'.ledger.under && x'.base < s ==> x'.ledger.under[s] == epoch
  {
    hide TickOf, ScanIn, Works, WatcherModel.Process, HandleTransition, StartUp;
    assert [a][0] == a;
    if a.Start? {
      RestartResumes(pools, x, a.b);
    }
  }

  /** Within one epoch.  From the moment the base was set, through any ticks, lost writes, kills and
      restarts of that epoch, the base stays, and every slot of the epoch's schedules from there to
      the saved slot was classified for its pool in some process, or given up by a failed scan. */
  lemma {:induction false} AtLeastOnceWithinAnEpoch(pools: seq<Pool>, table: Table, x: World, acts: seq<Action>, epoch: int)
    requires DistinctIds(pools) && UniqueKeys(table) && Counted(table) && AllRead(acts, table)
    requires Inv(pools, table, x) && Possible(pools, x, acts) && WithinSavedEpoch(pools, x, acts, epoch)
    requires forall s :: s in x.ledger.under && x.base < s ==> x.ledger.under[s] == epoch
    ensures var x' := After(pools, x, acts);
            && x'.base == x.base
            && (x'.rows != [] ==>
                  forall i: nat, s ::
                    i < |pools| && x.base < s <= x'.rows[0].position.slot && s in Schedule(table, pools[i].id, epoch) ==>
                      LogsUnder(x'.ledger.events, pools[i], s, epoch) || (i, s) in x'.ledger.lost)
    decreases |acts|
  {
    hide Do, Enabled, Inv, Reads, UniqueKeys, Counted, Schedule, LogsUnder;
    if acts == [] {
      AtLeastOnceAcrossCrashes(pools, table, x, acts);
      if x.rows != [] {
        forall i: nat, s | i < |pools| && x.base < s <= x.rows[0].position.slot && s in Schedule(table, pools[i].id, epoch)
          ensures LogsUnder(x.ledger.events, pools[i], s, epoch) || (i, s) in x.ledger.lost
        {
          assert PairDone(pools, table, x.ledger, i, s);
        }
      }
    } else {
      var x1 := Do(pools, x, acts[0]);
      assert AllRead([acts[0]], table);
      ActionKeepsInv(pools, table, x, acts[0]);
      assert [acts[0]][1..] == [];
      ActionKeepsBase(pools, x, acts[0], epoch);
      AtLeastOnceWithinAnEpoch(pools, table, x1, acts[1..], epoch);
    }
  }

  // ---------- what a start gives up ----------

  lemma TickLogsAhead(pools: seq<Pool>, w: Watcher, t: Tick)
    requires DistinctIds(pools)
    ensures var w1 := TickOf(pools, w, t).0;
            && w.log <= w1.log && w.position.slot <= w1.position.slot
            && forall e :: e in w1.log[|w.log|..] ==> w.position.slot < e.slot
  {
    hide TickOf, NextLeadersFrom, EndSlot, ScanFrom, OnceEach;
    TickShape(pools, w, t);
    var w1 := TickOf(pools, w, t).0;
    if Works(pools, w, t) {
      var c, end := Context(pools, t.table, t.oracle, w.position.epoch), EndSlot(w, t).value;
      ScanFromOnce(c, w.position.slot + 1, end);
      ScanReaches(c, w.position.slot + 1, end);
      assert w1.log[|w.log|..] == ScanIn(pools, w, t).events;
    } else {
      assert w1.log[|w.log|..] == [];
    }
  }

  /** A process never goes back to a slot at or before the one it started from. */
  lemma {:induction false} NothingBeforeTheStart(pools: seq<Pool>, w: Watcher, ts: seq<Tick>, start: int)
    requires DistinctIds(pools) && start <= w.position.slot && forall e :: e in w.log ==> start < e.slot
    ensures forall e :: e in Ticks(pools, w, ts).0.log ==> start < e.slot
    decreases |ts|
  {
    hide TickOf;
    if ts != [] {
      var (w1, flow) := TickOf(pools, w, ts[0]);
      TickLogsAhead(pools, w, ts[0]);
      assert w1.log == w.log + w1.log[|w.log|..];
      if Alive(flow) {
        NothingBeforeTheStart(pools, w1, ts[1..], start);
      }
    }
  }

  /** A start in an epoch newer than the saved one gives up every slot up to and including the
      first block of that epoch: the process begins at that slot, saves it, and classifies later
      slots only. */
  lemma NewerEpochStartsAfterItsFirstBlock(pools: seq<Pool>, x: World, b: Boot, ts: seq<Tick>)
    requires DistinctIds(pools) && |x.rows| == 1 && x.rows[0].id == 1 && x.process.Stopped?
    requires b.currentEpoch.Got? && x.rows[0].position.epoch < b.currentEpoch.value
    requires StartUp(pools, x.rows, b).1.Continue?
    ensures b.firstBlock.Got?
    ensures var first := Position(b.currentEpoch.value, b.firstBlock.value.slot); var x' := Do(pools, x, Start(b));
            && x'.process == Up(StartUp(pools, x.rows, b).0) && x'.process.w.position == first
            && x'.rows == [StateRow(1, first)] && x'.base == first.slot
    ensures forall e :: e in Lifetime(pools, x.rows, b, ts).0.log ==> b.firstBlock.value.slot < e.slot
  {
    hide AssignedFrom, ResetMetrics, SaveRow, Ticks;
    var first := Position(b.currentEpoch.value, b.firstBlock.value.slot);
    SaveReplaces(x.rows, first, b.write);
    NothingBeforeTheStart(pools, StartUp(pools, x.rows, b).0, ts, first.slot);
  }

  /** Every start of the run finds a saved row and is within the epoch then saved. */
  predicate ResumesOnly(pools: seq<Pool>, x: World, acts: seq<Action>)
    requires Possible(pools, x, acts)
    decreases |acts|
  {
    acts != [] ==>
      && (acts[0].Start? ==>
            x.rows != [] && (acts[0].b.currentEpoch.Got? ==> acts[0].b.currentEpoch.value <= x.rows[0].position.epoch))
      && ResumesOnly(pools, Do(pools, x, acts[0]), acts[1..])
  }

  lemma NoteLogsAhead(pools: seq<Pool>, g: Ledger, w: Watcher, t: Tick)
    requires DistinctIds(pools)
    ensures g.events <= Note(pools, g, w, t).events
    ensures forall e :: e in Note(pools, g, w, t).events[|g.events|..] ==> w.position.slot < e.slot
    ensures Works(pools, w, t) ==> forall e :: e in ScanIn(pools, w, t).events ==> w.position.slot < e.slot
  {
    hide ScanFrom, OnceEach, EndSlot, NextOf;
    if Works(pools, w, t) {
      ScanFromOnce(Context(pools, t.table, t.oracle, w.position.epoch), w.position.slot + 1, EndSlot(w, t).value);
      assert Note(pools, g, w, t).events[|g.events|..] == ScanIn(pools, w, t).events;
    } else {
      assert Note(pools, g, w, t).events[|g.events|..] == [];
    }
  }

  /** No action but a start on an empty table or in a newer epoch moves the base, and none records
      a slot at or before it. */
  lemma ActionStaysAhead(pools: seq<Pool>, table: Table, x: World, a: Action)
    requires DistinctIds(pools) && Inv(pools, table, x) && Enabled(pools, x, a)
    requires a.Start? ==> x.rows != [] && (a.b.currentEpoch.Got? ==> a.b.currentEpoch.value <= x.rows[0].position.epoch)
    ensures var x' := Do(pools, x, a);
            && x'.base == x.base && x.ledger.events <= x'.ledger.events
            && forall e :: e in x'.ledger.events[|x.ledger.events|..] ==> x.base < e.slot
  {
    hide TickOf, ScanIn, Note, Works, WatcherModel.Process, HandleTransition, StartUp, SlotDone;
    if a.Start? {
      RestartResumes(pools, x, a.b);
    } else if a.Kill? {
      assert x.ledger.events[|x.ledger.events|..] == [];
    } else {
      NoteLogsAhead(pools, x.ledger, x.process.w, a.t);
      if a.KillInScan? {
        KillLogsAhead(pools, x, a);
      }
    }
  }

  lemma KillLogsAhead(pools: seq<Pool>, x: World, a: Action)
    requires Enabled(pools, x, a) && a.KillInScan?
    requires forall e :: e in ScanIn(pools, x.process.w, a.t).events ==> x.process.w.position.slot < e.slot
    ensures var events := Do(pools, x, a).ledger.events;
            x.ledger.events <= events && forall e :: e in events[|x.ledger.events|..] ==> x.process.w.position.slot < e.slot
  {
    hide ScanIn, NextOf;
    var made := ScanIn(pools, x.process.w, a.t).events[..a.n];
    assert (x.ledger.events + made)[|x.ledger.events|..] == made;
  }

  /** As long as every start resumes at the saved row, no process records a slot at or before the
      base, whatever fails and however often the process is killed. */
  lemma {:induction false} NothingUpToTheBase(pools: seq<Pool>, table: Table, x: World, acts: seq<Action>)
    requires DistinctIds(pools) && UniqueKeys(table) && Counted(table) && AllRead(acts, table)
    requires Inv(pools, table, x) && Possible(pools, x, acts) && ResumesOnly(pools, x, acts)
    ensures var x' := After(pools, x, acts);
            && x'.base == x.base && x.ledger.events <= x'.ledger.events
            && forall e :: e in x'.ledger.events[|x.ledger.events|..] ==> x.base < e.slot
    decreases |acts|
  {
    hide Do, Enabled, Inv, Reads, UniqueKeys, Counted;
    if acts != [] {
      var x1 := Do(pools, x, acts[0]);
      assert AllRead([acts[0]], table);
      ActionKeepsInv(pools, table, x, acts[0]);
      ActionStaysAhead(pools, table, x, acts[0]);
      NothingUpToTheBase(pools, table, x1, acts[1..]);
      var events := After(pools, x, acts).ledger.events;
      assert events[|x.ledger.events|..]
          == x1.ledger.events[|x.ledger.events|..] + events[|x1.ledger.events|..];
    }
  }

  /** So the first block of an epoch that some start was newer than the saved one for, and what was
      scheduled before it, is never counted by that process nor by those that resume after it. */
  lemma FirstBlockIsNeverCounted(pools: seq<Pool>, table: Table, x: World, b: Boot, acts: seq<Action>)
    requires DistinctIds(pools) && UniqueKeys(table) && Counted(table) && AllRead(acts, table)
    requires Inv(pools, table, x) && x.process.Stopped? && x.rows != []
    requires b.currentEpoch.Got? && x.rows[0].position.epoch < b.currentEpoch.value
    requires StartUp(pools, x.rows, b).1.Continue?
    requires var x1 := Do(pools, x, Start(b)); Possible(pools, x1, acts) && ResumesOnly(pools, x1, acts)
    ensures b.firstBlock.Got?
    ensures var events := After(pools, Do(pools, x, Start(b)), acts).ledger.events;
            x.ledger.events <= events
            && forall e :: e in events[|x.ledger.events|..] ==> b.firstBlock.value.slot < e.slot
  {
    hide Ticks, StartUp, SlotDone, Schedule, UniqueKeys, Counted, Reads, Possible, ResumesOnly;
    NewerEpochStartsAfterItsFirstBlock(pools, x, b, []);
    StartKeepsInv(pools, table, x, b);
    NothingUpToTheBase(pools, table, Do(pools, x, Start(b)), acts);
  }

  /** A start in epoch 1 over a row saved in epoch 0: the pool leads, and made, the first block of
      epoch 1 at slot 432003, and no run of the process records that slot. */
  lemma {:induction false} FirstBlockSkipped(ts: seq<Tick>)
    ensures var pools, rows := [Pool("p", "", "", false, true)], [StateRow(1, Position(0, 10))];
            var table := [Row(1, 1, "p", 1, [432003])];
            var b := Boot(Got(1), true, Failure, Got(Block(1, 432003, 3)), Committed, table, map[]);
            && 432003 in Schedule(table, "p", 1)
            && StartUp(pools, rows, b).1.Continue? && StartUp(pools, rows, b).0.position == Position(1, 432003)
            && forall e :: e in Lifetime(pools, rows, b, ts).0.log ==> e.slot != 432003
  {
    hide Ticks, Schedule, ResetMetrics, AssignedFrom, Select;
    var pools, rows := [Pool("p", "", "", false, true)], [StateRow(1, Position(0, 10))];
    var table := [Row(1, 1, "p", 1, [432003])];
    var b := Boot(Got(1), true, Failure, Got(Block(1, 432003, 3)), Committed, table, map[]);
    OnlyRow(table, 1);
    OneIsAssigned(pools, table, map[], 1);
    NewerEpochStartsAfterItsFirstBlock(pools, World(rows, Stopped, 10, Ledger([], map[], {})), b, ts);
  }
}
