/** Polling refines one pass: however the ticks cut up the chain, an error-free process records
      what a single left-to-right pass over the slots would. */
module Polling {
  import opened Pools
  import opened SlotLeader
  import opened Upstream
  import opened WatcherModel
  import opened Coverage
  import opened Epochs
  import opened OnePool
  import opened Outcomes
  import opened ScheduleRefresh

  // ---------- the reference: one pass ----------

  function ChainOutcome(ch: Chain, p: Pool, slot: int): Outcome {
    if slot !in ch.leaders then Missed
    else if ch.leaders[slot] == p.id then Validated
    else Orphaned
  }

  /** What the chain and the final schedules say about one pool at one slot. */
  function ChainEvents(ch: Chain, table: Table, p: Pool, slot: int): seq<Event> {
    var e := ch.Label(slot);
    if slot in Schedule(table, p.id, e) then [Event(p, e, slot, ChainOutcome(ch, p, slot))] else []
  }

  function OneSlot(ch: Chain, table: Table, pools: seq<Pool>, slot: int, k: nat): seq<Event>
    requires k <= |pools|
    decreases |pools| - k
  {
    if k == |pools| then [] else ChainEvents(ch, table, pools[k], slot) + OneSlot(ch, table, pools, slot, k + 1)
  }

  /** One pass over the slots lo, ..., hi and, in each, the pools in order. */
  function OnePass(ch: Chain, table: Table, pools: seq<Pool>, lo: int, hi: int): seq<Event>
    decreases hi - lo
  {
    if lo > hi then [] else OneSlot(ch, table, pools, lo, 0) + OnePass(ch, table, pools, lo + 1, hi)
  }

  lemma {:induction false} OnePassSplits(ch: Chain, table: Table, pools: seq<Pool>, lo: int, mid: int, hi: int)
    requires lo <= mid + 1 && mid <= hi
    ensures OnePass(ch, table, pools, lo, hi) == OnePass(ch, table, pools, lo, mid) + OnePass(ch, table, pools, mid + 1, hi)
    decreases mid - lo
  {
    hide OneSlot;
    if lo <= mid {
      OnePassSplits(ch, table, pools, lo + 1, mid, hi);
      var a, b, c := OneSlot(ch, table, pools, lo, 0), OnePass(ch, table, pools, lo + 1, mid), OnePass(ch, table, pools, mid + 1, hi);
      assert a + (b + c) == (a + b) + c;
    }
  }

  // ---------- one tick ----------

  /** The answers about blocks are those of the chain, and the driver reports no spurious "no rows". */
  ghost predicate AnswersFromChain(ch: Chain, pools: seq<Pool>, o: Oracle) {
    && HonestDriver(o)
    && forall p, slot {:trigger o.BlockAt(p.id, slot)} :: p in pools ==>
         if slot in ch.leaders then o.BlockAt(p.id, slot) == Found(ch.leaders[slot])
         else o.BlockAt(p.id, slot).Error? && SaysNotFound(o.BlockAt(p.id, slot).message)
  }

  /** A tick that goes through without an error, answered truthfully, at most one epoch ahead. */
  ghost predicate CleanTick(ch: Chain, table: Table, pools: seq<Pool>, w: Watcher, t: Tick) {
    && TickOf(pools, w, t).1.Continue?
    && HonestTick(ch, w.position.epoch, t)
    && AnswersFromChain(ch, pools, t.oracle)
    && t.table <= table
    && (t.healthy && t.latest.Got? ==>
          && t.latest.value.epoch <= w.position.epoch + 1
          && (EntersNewEpoch(w, t) ==> t.latestEpoch == Got(t.latest.value.epoch)))
  }

  /** The position lies in the range of its epoch. */
  predicate InRange(ch: Chain, p: Position) {
    ch.End(p.epoch - 1) <= p.slot <= ch.End(p.epoch)
  }

  lemma VisitIsChain(ch: Chain, table: Table, c: Context, p: Pool, slot: int)
    requires Settled(VisitOf(c, p, slot)) && AnswersFromChain(ch, c.pools, c.oracle) && p in c.pools
    requires c.table <= table && UniqueKeys(table) && Counted(table)
    requires ch.Label(slot) == c.epoch
    ensures EventsOf(c, p, slot) == ChainEvents(ch, table, p, slot)
  {
    assert Counted(c.table) by {
      forall i | 0 <= i < |c.table|
        ensures c.table[i].qty == |c.table[i].slots|
      {
        assert c.table[i] == table[i];
      }
    }
    VisitMeaning(c, p, slot);
    assert HasRow(c.table, p.id, c.epoch);
    RowsPersist(c.table, table, p.id, c.epoch);
    var reply := c.oracle.BlockAt(p.id, slot);
    if VisitOf(c, p, slot).Classified? {
      VisitEndsExactly(c, p, slot);
      assert if slot in ch.leaders then reply == Found(ch.leaders[slot]) else reply.Error? && SaysNotFound(reply.message);
    }
  }

  lemma {:induction false} PassIsChain(ch: Chain, table: Table, c: Context, slot: int, k: nat)
    requires k <= |c.pools| && PassFrom(c, slot, k).stop == Completed
    requires AnswersFromChain(ch, c.pools, c.oracle)
    requires c.table <= table && UniqueKeys(table) && Counted(table) && ch.Label(slot) == c.epoch
    ensures PassFrom(c, slot, k).events == OneSlot(ch, table, c.pools, slot, k)
    decreases |c.pools| - k
  {
    hide VisitOf, EventsOf, ChainEvents, AnswersFromChain, UniqueKeys, Counted;
    if k < |c.pools| {
      PassShape(c, slot, k);
      VisitIsChain(ch, table, c, c.pools[k], slot);
      PassIsChain(ch, table, c, slot, k + 1);
    }
  }

  lemma {:induction false} ScanIsChain(ch: Chain, table: Table, c: Context, lo: int, hi: int)
    requires ScanFrom(c, lo, hi).stop == Completed && ch.End(c.epoch - 1) < lo && hi <= ch.End(c.epoch)
    requires AnswersFromChain(ch, c.pools, c.oracle)
    requires c.table <= table && UniqueKeys(table) && Counted(table)
    ensures ScanFrom(c, lo, hi).events == OnePass(ch, table, c.pools, lo, hi)
    decreases hi - lo
  {
    hide PassFrom, OneSlot, AnswersFromChain, UniqueKeys, Counted;
    if lo <= hi {
      LabelIsTheRange(ch, c.epoch, lo);
      PassIsChain(ch, table, c, lo, 0);
      ScanIsChain(ch, table, c, lo + 1, hi);
    }
  }

  /** Where a tick takes the position, from what it sees of the chain alone. */
  function Advance(ch: Chain, p: Position, t: Tick): Position {
    if !t.healthy || t.latest.Failure? then p
    else if t.latest.value.epoch > p.epoch then Position(t.latest.value.epoch, ch.End(p.epoch))
    else Position(p.epoch, if t.latest.value.slot > p.slot then t.latest.value.slot else p.slot)
  }

  function AdvanceAll(ch: Chain, p: Position, ts: seq<Tick>): Position
    decreases |ts|
  {
    if ts == [] then p else AdvanceAll(ch, Advance(ch, p, ts[0]), ts[1..])
  }

  lemma CleanTickScans(ch: Chain, table: Table, pools: seq<Pool>, w: Watcher, t: Tick)
    requires CleanTick(ch, table, pools, w, t) && Works(pools, w, t)
    ensures ScanIn(pools, w, t).stop == Completed && ScanIn(pools, w, t).last == EndSlot(w, t).value
  {
    hide TickOf, ScanFrom, NextLeadersFrom, HonestTick, AnswersFromChain, EndSlot;
    TickShape(pools, w, t);
    ScanShape(Context(pools, t.table, t.oracle, w.position.epoch), w.position.slot + 1, EndSlot(w, t).value);
  }

  /** A tick that goes through gets past every gate before the scan. */
  lemma ContinueMeansGates(pools: seq<Pool>, w: Watcher, t: Tick)
    requires TickOf(pools, w, t).1.Continue? && t.healthy
    ensures t.latest.Got? && EndSlot(w, t).Got? && (Ahead(w, t) ==> Works(pools, w, t))
  {
    hide ScanFrom, AssignedFrom, ResetMetrics, CountAll, SaveRow;
  }

  lemma CleanTickEpoch(ch: Chain, table: Table, pools: seq<Pool>, w: Watcher, t: Tick)
    requires CleanTick(ch, table, pools, w, t) && t.healthy
    ensures TickOf(pools, w, t).0.position.epoch == (if EntersNewEpoch(w, t) then t.latest.value.epoch else w.position.epoch)
  {
    hide ScanFrom, AssignedFrom, NextLeadersFrom, ResetMetrics, CountAll, SaveRow, AnswersFromChain;
  }

  lemma CleanTickPosition(ch: Chain, table: Table, pools: seq<Pool>, w: Watcher, t: Tick)
    requires ch.base <= 1 && InRange(ch, w.position) && CleanTick(ch, table, pools, w, t)
    ensures var w1 := TickOf(pools, w, t).0;
            w1.position == Advance(ch, w.position, t) && InRange(ch, w1.position)
  {
    hide TickOf, ScanFrom, NextLeadersFrom, AnswersFromChain;
    if t.healthy {
      ContinueMeansGates(pools, w, t);
      CleanTickEpoch(ch, table, pools, w, t);
      TickShape(pools, w, t);
      GoalWithinEpoch(ch, w, t);
      if Works(pools, w, t) {
        CleanTickScans(ch, table, pools, w, t);
      }
      if EntersNewEpoch(w, t) {
        EndFromAnyBlock(ch, w, t);
      }
    } else {
      UnhealthyTick(pools, w, t);
    }
  }

  lemma UnhealthyTick(pools: seq<Pool>, w: Watcher, t: Tick)
    requires !t.healthy
    ensures TickOf(pools, w, t) == (w, Continue)
  {
  }

  lemma CleanTickLog(ch: Chain, table: Table, pools: seq<Pool>, w: Watcher, t: Tick)
    requires ch.base <= 1 && InRange(ch, w.position) && CleanTick(ch, table, pools, w, t)
    requires UniqueKeys(table) && Counted(table)
    ensures var w1 := TickOf(pools, w, t).0;
            && w.position.slot <= w1.position.slot
            && w1.log == w.log + OnePass(ch, table, pools, w.position.slot + 1, w1.position.slot)
  {
    hide TickOf, ScanFrom, NextLeadersFrom, EndSlot, AnswersFromChain, HonestTick, UniqueKeys, Counted;
    TickShape(pools, w, t);
    if Works(pools, w, t) {
      CleanTickScans(ch, table, pools, w, t);
      GoalWithinEpoch(ch, w, t);
      WorkAdvances(pools, w, t);
      var c := Context(pools, t.table, t.oracle, w.position.epoch);
      ScanIsChain(ch, table, c, w.position.slot + 1, EndSlot(w, t).value);
    } else {
      assert w.log + [] == w.log;
    }
  }

  // ---------- whole runs ----------

  ghost predicate CleanRun(ch: Chain, table: Table, pools: seq<Pool>, w: Watcher, ts: seq<Tick>)
    decreases |ts|
  {
    ts != [] ==> CleanTick(ch, table, pools, w, ts[0]) && CleanRun(ch, table, pools, TickOf(pools, w, ts[0]).0, ts[1..])
  }

  /** Polling refines one pass.  For every error-free run over a fixed chain, whatever block each
      tick saw and however health flapped, the record is that of one pass over (start, position],
      and the position depends on the blocks seen alone. */
  lemma {:induction false} PollingIsOnePass(ch: Chain, table: Table, pools: seq<Pool>, w: Watcher, ts: seq<Tick>)
    requires ch.base <= 1 && InRange(ch, w.position) && UniqueKeys(table) && Counted(table)
    requires CleanRun(ch, table, pools, w, ts)
    ensures var (w', flow) := Ticks(pools, w, ts);
            && flow.Continue?
            && w'.position == AdvanceAll(ch, w.position, ts) && InRange(ch, w'.position)
            && w.position.slot <= w'.position.slot
            && w'.log == w.log + OnePass(ch, table, pools, w.position.slot + 1, w'.position.slot)
    decreases |ts|
  {
    hide TickOf, OnePass, UniqueKeys, Counted, AnswersFromChain, HonestTick, Advance;
    if ts == [] {
      OnePassEmpty(ch, table, pools, w.position.slot + 1, w.position.slot);
      assert w.log + [] == w.log;
    } else {
      var w1 := TickOf(pools, w, ts[0]).0;
      CleanTickPosition(ch, table, pools, w, ts[0]);
      CleanTickLog(ch, table, pools, w, ts[0]);
      PollingIsOnePass(ch, table, pools, w1, ts[1..]);
      var w' := Ticks(pools, w1, ts[1..]).0;
      var lo, mid, hi := w.position.slot + 1, w1.position.slot, w'.position.slot;
      OnePassSplits(ch, table, pools, lo, mid, hi);
      var a, b := OnePass(ch, table, pools, lo, mid), OnePass(ch, table, pools, mid + 1, hi);
      assert w.log + (a + b) == (w.log + a) + b;
    }
  }

  lemma OnePassEmpty(ch: Chain, table: Table, pools: seq<Pool>, lo: int, hi: int)
    requires lo > hi
    ensures OnePass(ch, table, pools, lo, hi) == []
  {
  }

  /** Two pollers that start alike and end at the same slot have recorded the same. */
  lemma {:induction false} PollersAgree(ch: Chain, table: Table, pools: seq<Pool>, w: Watcher, ts: seq<Tick>, us: seq<Tick>)
    requires ch.base <= 1 && InRange(ch, w.position) && UniqueKeys(table) && Counted(table)
    requires CleanRun(ch, table, pools, w, ts) && CleanRun(ch, table, pools, w, us)
    requires AdvanceAll(ch, w.position, ts).slot == AdvanceAll(ch, w.position, us).slot
    ensures Ticks(pools, w, ts).0.log == Ticks(pools, w, us).0.log
  {
    hide UniqueKeys, Counted, CleanRun, Ticks, AdvanceAll;
    PollingIsOnePass(ch, table, pools, w, ts);
    PollingIsOnePass(ch, table, pools, w, us);
  }

  /** When the last tick sees a block of the position's epoch that is not behind it, the run ends
      at that block, wherever it had been before. */
  lemma {:induction false} LastBlockDecides(ch: Chain, p: Position, ts: seq<Tick>, t: Tick)
    requires t.healthy && t.latest.Got?
    requires var before := AdvanceAll(ch, p, ts);
             t.latest.value.epoch == before.epoch && before.slot <= t.latest.value.slot
    ensures AdvanceAll(ch, p, ts + [t]) == Position(t.latest.value.epoch, t.latest.value.slot)
    decreases |ts|
  {
    if ts == [] {
      assert ([] + [t])[1..] == [];
    } else {
      assert (ts + [t])[1..] == ts[1..] + [t];
      LastBlockDecides(ch, Advance(ch, p, ts[0]), ts[1..], t);
    }
  }

  // ---------- what one pass classifies ----------

  /** The epoch the slot truly belongs to. */
  function TrueEpoch(ch: Chain, slot: int): int { (slot - ch.origin - ch.base) / MAX_SLOT_PER_EPOCH }

  lemma TrueEpochIsTheRange(ch: Chain, e: int, slot: int)
    ensures TrueEpoch(ch, slot) == e <==> ch.TrueFirst(e) <= slot <= ch.TrueLast(e)
  {
  }

  lemma {:induction false} OneSlotLogs(ch: Chain, table: Table, pools: seq<Pool>, slot: int, k: nat, i: nat, s: int)
    requires DistinctIds(pools) && k <= |pools| && i < |pools|
    ensures Logs(OneSlot(ch, table, pools, slot, k), pools[i], s) <==>
              s == slot && k <= i && slot in Schedule(table, pools[i].id, ch.Label(slot))
    decreases |pools| - k
  {
    hide Schedule;
    if k < |pools| {
      OneSlotLogs(ch, table, pools, slot, k + 1, i, s);
      LogsJoin(ChainEvents(ch, table, pools[k], slot), OneSlot(ch, table, pools, slot, k + 1), pools[i], s);
      if slot in Schedule(table, pools[k].id, ch.Label(slot)) {
        var e := Event(pools[k], ch.Label(slot), slot, ChainOutcome(ch, pools[k], slot));
        assert e in ChainEvents(ch, table, pools[k], slot);
      }
    }
  }

  lemma {:induction false} OnePassLogs(ch: Chain, table: Table, pools: seq<Pool>, lo: int, hi: int, i: nat, s: int)
    requires DistinctIds(pools) && i < |pools|
    ensures Logs(OnePass(ch, table, pools, lo, hi), pools[i], s) <==>
              lo <= s <= hi && s in Schedule(table, pools[i].id, ch.Label(s))
    decreases hi - lo
  {
    hide Schedule, OneSlot;
    if lo <= hi {
      OneSlotLogs(ch, table, pools, lo, 0, i, s);
      OnePassLogs(ch, table, pools, lo + 1, hi, i, s);
      LogsJoin(OneSlot(ch, table, pools, lo, 0), OnePass(ch, table, pools, lo + 1, hi), pools[i], s);
    }
  }

  /** When every stored schedule holds slots of its own epoch, a pass classifies a slot that is
      scheduled in its true epoch if and only if the watcher puts it in that epoch: always when
      epoch slots are numbered from 1, and except for the first slot of an epoch when they are
      numbered from 0. */
  lemma FirstSlotOfEpochLost(ch: Chain, table: Table, pools: seq<Pool>, lo: int, hi: int, i: nat, s: int)
    requires DistinctIds(pools) && i < |pools| && lo <= s <= hi
    requires 0 <= ch.base <= 1 && OwnEpochOnly(ch, table)
    requires s in Schedule(table, pools[i].id, TrueEpoch(ch, s))
    ensures Logs(OnePass(ch, table, pools, lo, hi), pools[i], s) <==>
              !(ch.base == 0 && s == ch.TrueFirst(TrueEpoch(ch, s)))
  {
    hide OnePass;
    OnePassLogs(ch, table, pools, lo, hi, i, s);
    TrueEpochIsTheRange(ch, TrueEpoch(ch, s), s);
    LabelIsTheRange(ch, TrueEpoch(ch, s), s);
    LabelIsTheRange(ch, TrueEpoch(ch, s) - 1, s);
    var e := ch.Label(s);
    if s in Schedule(table, pools[i].id, e) {
      var r := Select(table, pools[i].id, e)[0];
      assert r in Select(table, pools[i].id, e);
      TrueEpochIsTheRange(ch, e, s);
    }
  }

  // ---------- whole processes ----------

  /** What a start is told about the chain is true of it, and so is a saved position. */
  predicate HonestBoot(ch: Chain, rows: seq<StateRow>, b: Boot) {
    && (b.latest.Got? ==> ch.Honest(b.latest.value))
    && (b.firstBlock.Got? && b.currentEpoch.Got? ==>
          ch.Honest(b.firstBlock.value) && b.firstBlock.value.epoch == b.currentEpoch.value)
    && (rows != [] ==> InRange(ch, rows[0].position))
  }

  lemma HonestBlockInRange(ch: Chain, block: Block)
    requires 0 <= ch.base <= 1 && ch.Honest(block)
    ensures InRange(ch, Position(block.epoch, block.slot))
  {
  }

  /** Every start from an honest chain lies in the range of its epoch. */
  lemma {:induction false} StartInRange(ch: Chain, pools: seq<Pool>, rows: seq<StateRow>, b: Boot)
    requires 0 <= ch.base <= 1 && HonestBoot(ch, rows, b) && StartUp(pools, rows, b).1.Continue?
    ensures InRange(ch, StartUp(pools, rows, b).0.position) && StartUp(pools, rows, b).0.log == []
  {
    hide AssignedFrom, ResetMetrics, SaveRow, InRange;
    if b.latest.Got? {
      HonestBlockInRange(ch, b.latest.value);
    }
    if b.firstBlock.Got? && b.currentEpoch.Got? {
      HonestBlockInRange(ch, b.firstBlock.value);
    }
  }

  /** A process that starts on an honest chain and meets no error records one pass over the slots
      between where it started and where it got. */
  lemma LifetimeIsOnePass(ch: Chain, table: Table, pools: seq<Pool>, rows: seq<StateRow>, b: Boot, ts: seq<Tick>)
    requires 0 <= ch.base <= 1 && HonestBoot(ch, rows, b) && UniqueKeys(table) && Counted(table)
    requires StartUp(pools, rows, b).1.Continue? && CleanRun(ch, table, pools, StartUp(pools, rows, b).0, ts)
    ensures var start := StartUp(pools, rows, b).0.position; var (w, flow) := Lifetime(pools, rows, b, ts);
            && flow.Continue? && w.position == AdvanceAll(ch, start, ts)
            && w.log == OnePass(ch, table, pools, start.slot + 1, w.position.slot)
  {
    hide StartUp, Ticks, CleanRun, OnePass, UniqueKeys, Counted, AdvanceAll;
    StartInRange(ch, pools, rows, b);
    PollingIsOnePass(ch, table, pools, StartUp(pools, rows, b).0, ts);
    var w := Ticks(pools, StartUp(pools, rows, b).0, ts).0;
    var pass := OnePass(ch, table, pools, StartUp(pools, rows, b).0.position.slot + 1, w.position.slot);
    assert [] + pass == pass;
  }

  /** So of the slots it gets past, those scheduled in their true epoch are all on record if epoch
      slots are numbered from 1, and all but the first slots of epochs if they are numbered from 0. */
  lemma {:induction false} FirstSlotNeverRecorded(ch: Chain, table: Table, pools: seq<Pool>, rows: seq<StateRow>, b: Boot, ts: seq<Tick>,
                               i: nat, s: int)
    requires 0 <= ch.base <= 1 && HonestBoot(ch, rows, b) && UniqueKeys(table) && Counted(table)
    requires StartUp(pools, rows, b).1.Continue? && CleanRun(ch, table, pools, StartUp(pools, rows, b).0, ts)
    requires DistinctIds(pools) && i < |pools| && OwnEpochOnly(ch, table)
    requires StartUp(pools, rows, b).0.position.slot < s <= Lifetime(pools, rows, b, ts).0.position.slot
    requires s in Schedule(table, pools[i].id, TrueEpoch(ch, s))
    ensures Logs(Lifetime(pools, rows, b, ts).0.log, pools[i], s) <==>
              !(ch.base == 0 && s == ch.TrueFirst(TrueEpoch(ch, s)))
  {
    hide StartUp, Lifetime, CleanRun, OnePass, UniqueKeys, Counted, AdvanceAll, Logs, OwnEpochOnly, Schedule;
    LifetimeIsOnePass(ch, table, pools, rows, b, ts);
    FirstSlotOfEpochLost(ch, table, pools, StartUp(pools, rows, b).0.position.slot + 1,
                         Lifetime(pools, rows, b, ts).0.position.slot, i, s);
  }

  // ---------- a run that loses a first slot ----------

  lemma NoBlocksAnywhere(ch: Chain, pools: seq<Pool>, o: Oracle)
    requires ch.leaders == map[] && o == Oracle(map[], map[], map[])
    ensures AnswersFromChain(ch, pools, o)
  {
    NotFoundSaysSo();
  }

  /** Slots numbered from 0, one pool that leads slot 432000, the first of epoch 1, and a tick that
      sees epoch 1 with one slot left of epoch 0 as the watcher has it. */
  const ZERO_BASED := Chain(0, 0, map[])
  const LEADER := Pool("p", "", "", false, true)
  const TWO_ROWS: Table := [Row(1, 0, "p", 1, [5]), Row(2, 1, "p", 1, [MAX_SLOT_PER_EPOCH])]
  const SAVED := [StateRow(1, Position(0, MAX_SLOT_PER_EPOCH - 1))]
  const BOOT := Boot(Got(0), true, Failure, Failure, Committed, TWO_ROWS, map[])
  const CLOSING_TICK :=
    Tick(true, Got(Block(1, MAX_SLOT_PER_EPOCH + 5, 5)), Got(Block(0, MAX_SLOT_PER_EPOCH - 1, MAX_SLOT_PER_EPOCH - 1)), Got(1),
         TWO_ROWS, Oracle(map[], map[], map[]), map[], Committed, Committed, NoError, TWO_ROWS, map[])

  lemma {:induction false} SavedStart()
    ensures var (w, flow) := StartUp([LEADER], SAVED, BOOT); flow.Continue? && w.position == SAVED[0].position
    ensures HonestBoot(ZERO_BASED, SAVED, BOOT)
  {
    hide ResetMetrics;
    assert AssignedFrom([LEADER], TWO_ROWS, map[], 0, 1) == AllAssigned;
    assert AssignedFrom([LEADER], TWO_ROWS, map[], 0, 0) == AllAssigned;
  }

  /** A pool with one slot in epoch 0 and one in epoch 1. */
  lemma {:induction false} TwoRowsMeaning(table: Table, pool: string, a: int, b: int)
    requires |table| == 2 && table[0] == Row(1, 0, pool, 1, [a]) && table[1] == Row(2, 1, pool, 1, [b])
    ensures UniqueKeys(table) && Counted(table)
    ensures HasRow(table, pool, 0) && Schedule(table, pool, 0) == [a] && Quantity(table, pool, 0) == 1
    ensures Schedule(table, pool, 1) == [b]
  {
    hide Select, HasRow, Schedule, Quantity, UniqueKeys, Counted;
    TwoRowsAreFine(table);
    OneOfTwoRows(table, 0);
    OneOfTwoRows(table, 1);
  }

  /** Both slots are slots of their epoch. */
  lemma {:induction false} TwoRowsAreOwn(ch: Chain, table: Table, pool: string, a: int, b: int)
    requires |table| == 2 && table[0] == Row(1, 0, pool, 1, [a]) && table[1] == Row(2, 1, pool, 1, [b])
    requires ch.TrueFirst(0) <= a <= ch.TrueLast(0) && ch.TrueFirst(1) <= b <= ch.TrueLast(1)
    ensures OwnEpochOnly(ch, table)
  {
  }

  lemma {:induction false} ClosingTickIsClean(w: Watcher)
    requires w.position == SAVED[0].position
    ensures CleanTick(ZERO_BASED, TWO_ROWS, [LEADER], w, CLOSING_TICK)
  {
    hide TickOf, AnswersFromChain, UniqueKeys, Counted, HasRow, Schedule, Quantity;
    TwoRowsMeaning(TWO_ROWS, LEADER.id, 5, MAX_SLOT_PER_EPOCH);
    QuietClose([LEADER], w, CLOSING_TICK);
    NoBlocksAnywhere(ZERO_BASED, [LEADER], CLOSING_TICK.oracle);
  }

  /** The stored schedules hold `s`, the first slot of its epoch numbered from 0, for pool `i`. */
  predicate LeadsFirst(ch: Chain, table: Table, pools: seq<Pool>, i: nat, s: int) {
    && ch.base == 0 && s == ch.TrueFirst(TrueEpoch(ch, s))
    && UniqueKeys(table) && Counted(table) && OwnEpochOnly(ch, table)
    && DistinctIds(pools) && i < |pools| && s in Schedule(table, pools[i].id, TrueEpoch(ch, s))
  }

  /** A start on the chain and one clean tick that gets past `s`. */
  ghost predicate GetsPast(ch: Chain, table: Table, pools: seq<Pool>, rows: seq<StateRow>, b: Boot, t: Tick, s: int) {
    var (w, flow) := StartUp(pools, rows, b);
    && HonestBoot(ch, rows, b) && flow.Continue? && CleanTick(ch, table, pools, w, t)
    && w.position.slot < s <= Advance(ch, w.position, t).slot
  }

  /** The process of that tick meets no error, gets past the slot and does not record it. */
  lemma {:induction false} OneTickLosesFirst(ch: Chain, table: Table, pools: seq<Pool>, rows: seq<StateRow>, b: Boot, t: Tick,
                                             i: nat, s: int)
    requires LeadsFirst(ch, table, pools, i, s) && GetsPast(ch, table, pools, rows, b, t, s)
    ensures var w := StartUp(pools, rows, b).0; var (w', flow) := Lifetime(pools, rows, b, [t]);
            && CleanRun(ch, table, pools, w, [t]) && flow.Continue?
            && w.position.slot < s <= w'.position.slot && !Logs(w'.log, pools[i], s)
  {
    hide StartUp, Lifetime, CleanRun, CleanTick, Schedule, UniqueKeys, Counted, OwnEpochOnly, HonestBoot, Logs, AdvanceAll,
         Advance, TrueEpoch;
    var w := StartUp(pools, rows, b).0;
    CleanOneTick(ch, table, pools, w, t);
    LifetimeIsOnePass(ch, table, pools, rows, b, [t]);
    OneAdvance(ch, w.position, t);
    FirstSlotNeverRecorded(ch, table, pools, rows, b, [t], i, s);
  }

  lemma {:induction false} LeaderLeadsFirst()
    ensures LeadsFirst(ZERO_BASED, TWO_ROWS, [LEADER], 0, MAX_SLOT_PER_EPOCH)
  {
    hide Schedule, UniqueKeys, Counted, OwnEpochOnly, HasRow, Quantity, TrueEpoch, Select;
    FirstSlotOfEpochOne();
    LeaderRows();
    LeaderRowsAreOwn();
  }

  lemma {:induction false} LeaderRows()
    ensures UniqueKeys(TWO_ROWS) && Counted(TWO_ROWS) && Schedule(TWO_ROWS, LEADER.id, 1) == [MAX_SLOT_PER_EPOCH]
  {
    hide *;
    TheTwoRows();
    TwoRowsMeaning(TWO_ROWS, LEADER.id, 5, MAX_SLOT_PER_EPOCH);
  }

  lemma TheTwoRows()
    ensures |TWO_ROWS| == 2
    ensures TWO_ROWS[0] == Row(1, 0, LEADER.id, 1, [5])
    ensures TWO_ROWS[1] == Row(2, 1, LEADER.id, 1, [MAX_SLOT_PER_EPOCH])
  {
  }

  lemma OwnSlots()
    ensures ZERO_BASED.TrueFirst(0) <= 5 <= ZERO_BASED.TrueLast(0)
    ensures ZERO_BASED.TrueFirst(1) <= MAX_SLOT_PER_EPOCH <= ZERO_BASED.TrueLast(1)
  {
  }

  lemma {:induction false} LeaderRowsAreOwn()
    ensures OwnEpochOnly(ZERO_BASED, TWO_ROWS)
  {
    hide *;
    TheTwoRows();
    OwnSlots();
    TwoRowsAreOwn(ZERO_BASED, TWO_ROWS, LEADER.id, 5, MAX_SLOT_PER_EPOCH);
  }

  lemma FirstSlotOfEpochOne()
    ensures TrueEpoch(ZERO_BASED, MAX_SLOT_PER_EPOCH) == 1
  {
  }

  lemma {:induction false} ClosingTickGetsPast()
    ensures GetsPast(ZERO_BASED, TWO_ROWS, [LEADER], SAVED, BOOT, CLOSING_TICK, MAX_SLOT_PER_EPOCH)
  {
    hide StartUp, CleanTick, HonestBoot;
    SavedStart();
    ClosingTickIsClean(StartUp([LEADER], SAVED, BOOT).0);
  }

  /** That process exists. */
  lemma {:induction false} LostFirstSlot()
    ensures LeadsFirst(ZERO_BASED, TWO_ROWS, [LEADER], 0, MAX_SLOT_PER_EPOCH)
    ensures var w := StartUp([LEADER], SAVED, BOOT).0; var (w', flow) := Lifetime([LEADER], SAVED, BOOT, [CLOSING_TICK]);
            && CleanRun(ZERO_BASED, TWO_ROWS, [LEADER], w, [CLOSING_TICK]) && flow.Continue?
            && w.position.slot < MAX_SLOT_PER_EPOCH <= w'.position.slot
            && !Logs(w'.log, LEADER, MAX_SLOT_PER_EPOCH)
  {
    hide StartUp, Lifetime, CleanRun, LeadsFirst, GetsPast, Logs;
    LeaderLeadsFirst();
    ClosingTickGetsPast();
    OneTickLosesFirst(ZERO_BASED, TWO_ROWS, [LEADER], SAVED, BOOT, CLOSING_TICK, 0, MAX_SLOT_PER_EPOCH);
  }

  lemma {:induction false} CleanOneTick(ch: Chain, table: Table, pools: seq<Pool>, w: Watcher, t: Tick)
    requires CleanTick(ch, table, pools, w, t)
    ensures CleanRun(ch, table, pools, w, [t])
  {
    hide TickOf, CleanTick;
    assert [t][0] == t && [t][1..] == [];
  }

  lemma OneAdvance(ch: Chain, p: Position, t: Tick)
    ensures AdvanceAll(ch, p, [t]) == Advance(ch, p, t)
  {
    assert [t][1..] == [];
  }
}
