/** Where epochs end, and which epoch a slot is counted under. */
module Epochs {
  import opened Pools
  import opened SlotLeader
  import opened Upstream
  import opened WatcherModel
  import opened Coverage
  import opened OnePool
  import opened ScheduleRefresh

  /** The chain: within epoch e the difference between slot and epoch slot is constant, and epoch
      slots are numbered base, ..., base + 431999.  `leaders` gives the block producers per slot. */
  datatype Chain = Chain(origin: int, base: int, leaders: map<int, string>)
  {
    function Offset(e: int): int { origin + MAX_SLOT_PER_EPOCH * e }

    /** Where the watcher believes epoch e ends. */
    function End(e: int): int { Offset(e) + MAX_SLOT_PER_EPOCH }

    function TrueFirst(e: int): int { Offset(e) + base }

    function TrueLast(e: int): int { Offset(e) + base + MAX_SLOT_PER_EPOCH - 1 }

    /** The epoch whose range (End(e - 1), End(e)] holds the slot. */
    function Label(slot: int): int { (slot - origin - 1) / MAX_SLOT_PER_EPOCH }

    predicate Honest(b: Block) {
      b.slot - b.epochSlot == Offset(b.epoch) && base <= b.epochSlot < base + MAX_SLOT_PER_EPOCH
    }
  }

  /** With numbering base b the believed end exceeds the true last slot by 1 - b. */
  lemma EndExceedsTrueLast(ch: Chain, e: int)
    ensures ch.End(e) - ch.TrueLast(e) == 1 - ch.base
    ensures ch.TrueFirst(e + 1) == ch.TrueLast(e) + 1
  {
  }

  lemma LabelIsTheRange(ch: Chain, e: int, slot: int)
    ensures ch.Label(slot) == e <==> ch.End(e - 1) < slot <= ch.End(e)
  {
  }

  /** The end a tick computes does not depend on which block of the epoch came last. */
  lemma EndFromAnyBlock(ch: Chain, w: Watcher, t: Tick)
    requires t.latest.Got? && EntersNewEpoch(w, t)
    requires t.lastBlock.Got? && ch.Honest(t.lastBlock.value) && t.lastBlock.value.epoch == w.position.epoch
    ensures EndSlot(w, t) == Got(ch.End(w.position.epoch))
  {
  }

  /** What a tick is told about blocks and epochs is true of the chain; an epoch asked for after a
      block is not older than that block. */
  predicate HonestTick(ch: Chain, epoch: int, t: Tick) {
    && (t.latest.Got? ==> ch.Honest(t.latest.value))
    && (t.lastBlock.Got? ==> ch.Honest(t.lastBlock.value) && t.lastBlock.value.epoch == epoch)
    && (t.latest.Got? && t.latestEpoch.Got? ==> t.latest.value.epoch <= t.latestEpoch.value)
  }

  predicate HonestRun(ch: Chain, pools: seq<Pool>, w: Watcher, ts: seq<Tick>)
    decreases |ts|
  {
    ts != [] ==>
      var (w1, flow) := TickOf(pools, w, ts[0]);
      HonestTick(ch, w.position.epoch, ts[0]) && (Alive(flow) ==> HonestRun(ch, pools, w1, ts[1..]))
  }

  lemma EndsGrow(ch: Chain, e: int, e': int)
    requires e <= e'
    ensures ch.End(e) <= ch.End(e')
  {
  }

  lemma GoalWithinEpoch(ch: Chain, w: Watcher, t: Tick)
    requires ch.base <= 1 && HonestTick(ch, w.position.epoch, t) && t.latest.Got? && EndSlot(w, t).Got?
    ensures EndSlot(w, t).value <= ch.End(w.position.epoch)
  {
    if EntersNewEpoch(w, t) {
      EndFromAnyBlock(ch, w, t);
    } else {
      EndsGrow(ch, t.latest.value.epoch, w.position.epoch);
    }
  }

  /** The epoch moves, if at all, to one at least as new as the block seen. */
  lemma TickEpoch(pools: seq<Pool>, w: Watcher, t: Tick)
    ensures var w1 := TickOf(pools, w, t).0;
            w1.position.epoch == w.position.epoch
            || (t.latest.Got? && EntersNewEpoch(w, t) && t.latestEpoch == Got(w1.position.epoch))
  {
    hide ScanFrom, AssignedFrom, NextLeadersFrom, ResetMetrics, CountAll, SaveRow;
  }

  /** In every reachable state the slot is at most the end of the position's epoch, and the epoch
      never goes back. */
  lemma {:induction false} SlotWithinEpochEnd(ch: Chain, pools: seq<Pool>, w: Watcher, ts: seq<Tick>)
    requires ch.base <= 1 && HonestRun(ch, pools, w, ts) && w.position.slot <= ch.End(w.position.epoch)
    ensures var w' := Ticks(pools, w, ts).0;
            w'.position.slot <= ch.End(w'.position.epoch) && w.position.epoch <= w'.position.epoch
    decreases |ts|
  {
    hide TickOf, Works, ScanIn, EndSlot, HonestTick;
    if ts != [] {
      var (w1, flow) := TickOf(pools, w, ts[0]);
      TickWithinEpochEnd(ch, pools, w, ts[0]);
      if Alive(flow) {
        SlotWithinEpochEnd(ch, pools, w1, ts[1..]);
      }
    }
  }

  lemma TickWithinEpochEnd(ch: Chain, pools: seq<Pool>, w: Watcher, t: Tick)
    requires ch.base <= 1 && HonestTick(ch, w.position.epoch, t) && w.position.slot <= ch.End(w.position.epoch)
    ensures var w1 := TickOf(pools, w, t).0;
            w1.position.slot <= ch.End(w1.position.epoch) && w.position.epoch <= w1.position.epoch
  {
    hide TickOf, NextLeadersFrom, ScanFrom;
    TickShape(pools, w, t);
    TickEpoch(pools, w, t);
    var w1 := TickOf(pools, w, t).0;
    if Works(pools, w, t) {
      GoalWithinEpoch(ch, w, t);
      ScanReaches(Context(pools, t.table, t.oracle, w.position.epoch), w.position.slot + 1, EndSlot(w, t).value);
    }
    EndsGrow(ch, w.position.epoch, w1.position.epoch);
  }

  /** A start from an honest chain begins within the end of its epoch. */
  lemma StartWithinEpochEnd(ch: Chain, pools: seq<Pool>, rows: seq<StateRow>, b: Boot)
    requires ch.base <= 1
    requires b.latest.Got? ==> ch.Honest(b.latest.value)
    requires b.firstBlock.Got? && b.currentEpoch.Got? ==>
               ch.Honest(b.firstBlock.value) && b.firstBlock.value.epoch == b.currentEpoch.value
    requires rows != [] ==> rows[0].position.slot <= ch.End(rows[0].position.epoch)
    ensures var (w, flow) := StartUp(pools, rows, b); flow.Continue? ==> w.position.slot <= ch.End(w.position.epoch)
  {
    hide AssignedFrom, ResetMetrics, SaveRow;
  }

  /** A tick that sees a new epoch and ends well had all it needed. */
  lemma CleanTransitionTick(pools: seq<Pool>, w: Watcher, t: Tick)
    requires t.healthy && t.latest.Got? && EntersNewEpoch(w, t) && TickOf(pools, w, t).1.Continue?
    ensures t.lastBlock.Got? && t.latestEpoch == Got(TickOf(pools, w, t).0.position.epoch)
    ensures NextOf(pools, w, t).reply.Ok?
  {
    hide ScanFrom, AssignedFrom, NextLeadersFrom, ResetMetrics, CountAll, SaveRow;
  }

  /** A tick that sees a new epoch and goes through without error leaves the slot exactly at the
      end of the old one. */
  lemma TransitionLandsOnEnd(ch: Chain, pools: seq<Pool>, w: Watcher, t: Tick)
    requires ch.base <= 1 && HonestTick(ch, w.position.epoch, t) && w.position.slot <= ch.End(w.position.epoch)
    requires t.healthy && t.latest.Got? && EntersNewEpoch(w, t) && TickOf(pools, w, t).1.Continue?
    ensures var w1 := TickOf(pools, w, t).0;
            && w1.position.slot == ch.End(w.position.epoch)
            && t.latestEpoch == Got(w1.position.epoch) && w.position.epoch < w1.position.epoch
  {
    hide TickOf, NextOf, ScanFrom, ScanEvents, PassEvents, PassFrom;
    CleanTransitionTick(pools, w, t);
    EndFromAnyBlock(ch, w, t);
    TickShape(pools, w, t);
    if Works(pools, w, t) {
      hide EndSlot;
      ScanShape(Context(pools, t.table, t.oracle, w.position.epoch), w.position.slot + 1, EndSlot(w, t).value);
    }
  }

  // ---------- which epoch an event is counted under ----------

  /** Everything on record was scheduled for its pool in the epoch it is counted under. */
  predicate Scheduled(log: seq<Event>, table: Table) {
    forall e :: e in log ==> e.slot in Schedule(table, e.pool.id, e.epoch)
  }

  /** The tables the ticks read are all part of `table`: rows are only ever added. */
  predicate ReadFrom(ts: seq<Tick>, table: Table) {
    forall k :: 0 <= k < |ts| ==> ts[k].table <= table
  }

  lemma VisitScheduled(c: Context, p: Pool, slot: int, table: Table)
    requires VisitOf(c, p, slot).Classified? && c.table <= table && UniqueKeys(table)
    ensures slot in Schedule(table, p.id, c.epoch)
  {
    RowsPersist(c.table, table, p.id, c.epoch);
  }

  lemma {:induction false} PassScheduled(c: Context, slot: int, k: nat, j: nat, table: Table)
    requires j <= |c.pools| && c.table <= table && UniqueKeys(table)
    ensures forall e :: e in PassEvents(c, slot, k, j) ==> e.epoch == c.epoch && e.slot in Schedule(table, e.pool.id, c.epoch)
    decreases j - k
  {
    hide VisitOf, Schedule, UniqueKeys;
    if k < j {
      PassScheduled(c, slot, k + 1, j, table);
      if VisitOf(c, c.pools[k], slot).Classified? {
        VisitScheduled(c, c.pools[k], slot, table);
      }
    }
  }

  lemma {:induction false} ScanScheduled(c: Context, lo: int, hi: int, table: Table)
    requires c.table <= table && UniqueKeys(table)
    ensures forall e :: e in ScanEvents(c, lo, hi) ==> e.epoch == c.epoch && e.slot in Schedule(table, e.pool.id, c.epoch)
    decreases hi - lo
  {
    hide PassEvents, Schedule, UniqueKeys;
    if lo <= hi {
      PassScheduled(c, lo, 0, |c.pools|, table);
      ScanScheduled(c, lo + 1, hi, table);
    }
  }

  lemma ScanFromScheduled(c: Context, slot: int, end: int, table: Table)
    requires slot <= end && c.table <= table && UniqueKeys(table)
    ensures forall e :: e in ScanFrom(c, slot, end).events ==>
              e.epoch == c.epoch && e.slot in Schedule(table, e.pool.id, c.epoch)
  {
    hide ScanFrom, Schedule, UniqueKeys, PassEvents, ScanEvents;
    ScanShape(c, slot, end);
    var s := ScanFrom(c, slot, end);
    if s.stop == Completed {
      ScanScheduled(c, slot, end, table);
    } else {
      ScanScheduled(c, slot, s.last - 1, table);
      PassScheduled(c, s.last, 0, StopIndex(c, s.stop), table);
    }
  }

  /** What a tick adds to the record is scheduled in, and counted under, the position's epoch. */
  lemma TickScheduled(pools: seq<Pool>, w: Watcher, t: Tick, table: Table)
    requires t.table <= table && UniqueKeys(table)
    ensures var w1 := TickOf(pools, w, t).0;
            && w.log <= w1.log
            && forall e :: e in w1.log[|w.log|..] ==>
                 e.epoch == w.position.epoch && e.slot in Schedule(table, e.pool.id, e.epoch)
  {
    hide TickOf, NextLeadersFrom, ScanFrom, Schedule, UniqueKeys, EndSlot;
    TickShape(pools, w, t);
    var w1 := TickOf(pools, w, t).0;
    if Works(pools, w, t) {
      ScanFromScheduled(Context(pools, t.table, t.oracle, w.position.epoch), w.position.slot + 1, EndSlot(w, t).value, table);
      assert w1.log[|w.log|..] == ScanIn(pools, w, t).events;
    } else {
      assert w1.log[|w.log|..] == [];
    }
  }

  /** Every increment labelled with an epoch is for a slot in the stored schedule of that pool and
      epoch, over any run. */
  lemma {:induction false} EveryCountWasScheduled(pools: seq<Pool>, w: Watcher, ts: seq<Tick>, table: Table)
    requires ReadFrom(ts, table) && UniqueKeys(table) && Scheduled(w.log, table)
    ensures Scheduled(Ticks(pools, w, ts).0.log, table)
    decreases |ts|
  {
    hide TickOf, Schedule, UniqueKeys;
    if ts != [] {
      var (w1, flow) := TickOf(pools, w, ts[0]);
      TickScheduled(pools, w, ts[0], table);
      assert w1.log == w.log + w1.log[|w.log|..];
      if Alive(flow) {
        EveryCountWasScheduled(pools, w1, ts[1..], table);
      }
    }
  }

  /** Stored schedules hold slots of their own epoch only. */
  predicate OwnEpochOnly(ch: Chain, table: Table) {
    forall r, s :: r in table && s in r.slots ==> ch.TrueFirst(r.epoch) <= s <= ch.TrueLast(r.epoch)
  }

  /** Then no slot is ever counted under another epoch, however many epochs pass between ticks. */
  lemma NoForeignCounts(ch: Chain, pools: seq<Pool>, w: Watcher, ts: seq<Tick>, table: Table, e: Event)
    requires ReadFrom(ts, table) && UniqueKeys(table) && OwnEpochOnly(ch, table)
    requires w.log == [] && e in Ticks(pools, w, ts).0.log
    ensures ch.TrueFirst(e.epoch) <= e.slot <= ch.TrueLast(e.epoch)
  {
    hide Ticks, UniqueKeys;
    EveryCountWasScheduled(pools, w, ts, table);
    OwnSlot(ch, table, e);
  }

  /** An epoch that no tick is told about, and that the position does not start in, contributes no
      counts. */
  lemma {:induction false} SkippedEpochsUncounted(pools: seq<Pool>, w: Watcher, ts: seq<Tick>, table: Table, epoch: int)
    requires ReadFrom(ts, table) && UniqueKeys(table)
    requires w.position.epoch != epoch && forall k :: 0 <= k < |ts| ==> ts[k].latestEpoch != Got(epoch)
    ensures w.log <= Ticks(pools, w, ts).0.log
    ensures forall e :: e in Ticks(pools, w, ts).0.log[|w.log|..] ==> e.epoch != epoch
    decreases |ts|
  {
    hide TickOf, Schedule, UniqueKeys;
    if ts != [] {
      var (w1, flow) := TickOf(pools, w, ts[0]);
      TickScheduled(pools, w, ts[0], table);
      TickEpoch(pools, w, ts[0]);
      if Alive(flow) {
        SkippedEpochsUncounted(pools, w1, ts[1..], table, epoch);
        var w' := Ticks(pools, w1, ts[1..]).0;
        assert w'.log[|w.log|..] == w1.log[|w.log|..] + w'.log[|w1.log|..];
      }
    }
  }

  /** What is true of the ticks of a run up to some point and from there on. */
  lemma {:induction false} RunSplits(ch: Chain, pools: seq<Pool>, w: Watcher, before: seq<Tick>, after: seq<Tick>)
    requires HonestRun(ch, pools, w, before + after)
    ensures HonestRun(ch, pools, w, before)
    ensures var (w1, flow) := Ticks(pools, w, before);
            && (Alive(flow) ==> HonestRun(ch, pools, w1, after))
            && Ticks(pools, w, before + after) == if Alive(flow) then Ticks(pools, w1, after) else (w1, flow)
    decreases |before|
  {
    hide TickOf, HonestTick;
    if before == [] {
      assert before + after == after;
    } else {
      assert (before + after)[1..] == before[1..] + after;
      var (w1, flow) := TickOf(pools, w, before[0]);
      if Alive(flow) {
        RunSplits(ch, pools, w1, before[1..], after);
      }
    }
  }

  /** Over an honest run the position's epoch only grows, and every count made lies between the
      epoch it starts from and the one it ends in. */
  lemma {:induction false} CountsBetweenEpochs(ch: Chain, pools: seq<Pool>, w: Watcher, ts: seq<Tick>, table: Table)
    requires ReadFrom(ts, table) && UniqueKeys(table) && HonestRun(ch, pools, w, ts)
    ensures var w' := Ticks(pools, w, ts).0;
            && w.log <= w'.log && w.position.epoch <= w'.position.epoch
            && forall e :: e in w'.log[|w.log|..] ==> w.position.epoch <= e.epoch <= w'.position.epoch
    decreases |ts|
  {
    hide TickOf, Schedule, UniqueKeys;
    if ts != [] {
      var (w1, flow) := TickOf(pools, w, ts[0]);
      TickScheduled(pools, w, ts[0], table);
      TickEpoch(pools, w, ts[0]);
      if Alive(flow) {
        CountsBetweenEpochs(ch, pools, w1, ts[1..], table);
        var w' := Ticks(pools, w1, ts[1..]).0;
        assert w'.log[|w.log|..] == w1.log[|w.log|..] + w'.log[|w1.log|..];
      }
    }
  }

  lemma OtherEpochsSlot(ch: Chain, e: int, e': int, slot: int)
    requires e != e' && ch.TrueFirst(e) <= slot <= ch.TrueLast(e)
    ensures !(ch.TrueFirst(e') <= slot <= ch.TrueLast(e'))
  {
  }

  /** When some tick of an honest run moves the position from before an epoch to after it, the whole
      run counts nothing under that epoch - and, if the stored schedules hold only slots of their
      own epoch, it classifies no slot of that epoch at all. */
  lemma JumpedEpochsAreLost(ch: Chain, pools: seq<Pool>, w: Watcher, before: seq<Tick>, t: Tick, after: seq<Tick>,
                            table: Table, epoch: int)
    requires ReadFrom(before + ([t] + after), table) && UniqueKeys(table)
    requires HonestRun(ch, pools, w, before + ([t] + after)) && Alive(Ticks(pools, w, before).1)
    requires var w1 := Ticks(pools, w, before).0;
             w1.position.epoch < epoch < TickOf(pools, w1, t).0.position.epoch
    ensures var w' := Ticks(pools, w, before + ([t] + after)).0;
            && w.log <= w'.log
            && forall e :: e in w'.log[|w.log|..] ==>
                 && e.epoch != epoch
                 && (OwnEpochOnly(ch, table) ==> !(ch.TrueFirst(epoch) <= e.slot <= ch.TrueLast(epoch)))
  {
    hide TickOf, Ticks, UniqueKeys, HonestTick, Schedule;
    var ts := before + ([t] + after);
    var w1 := Ticks(pools, w, before).0;
    RunSplits(ch, pools, w, before, [t] + after);
    assert ReadFrom(before, table) by { PartsRead(before, [t] + after, table); }
    assert ReadFrom([t] + after, table) by { PartsRead(before, [t] + after, table); }
    CountsBetweenEpochs(ch, pools, w, before, table);
    CountsAroundJump(ch, pools, w1, t, after, table, epoch);
    var w' := Ticks(pools, w, ts).0;
    assert w'.log[|w.log|..] == w1.log[|w.log|..] + w'.log[|w1.log|..];
    if OwnEpochOnly(ch, table) {
      forall e | e in w'.log[|w.log|..]
        ensures !(ch.TrueFirst(epoch) <= e.slot <= ch.TrueLast(epoch))
      {
        NewCountsAreScheduled(pools, w, ts, table);
        OwnSlot(ch, table, e);
        if ch.TrueFirst(epoch) <= e.slot <= ch.TrueLast(epoch) {
          OtherEpochsSlot(ch, epoch, e.epoch, e.slot);
        }
      }
    }
  }

  lemma PartsRead(before: seq<Tick>, after: seq<Tick>, table: Table)
    requires ReadFrom(before + after, table)
    ensures ReadFrom(before, table) && ReadFrom(after, table)
  {
    forall k | 0 <= k < |before|
      ensures before[k].table <= table
    {
      assert (before + after)[k] == before[k];
    }
    forall k | 0 <= k < |after|
      ensures after[k].table <= table
    {
      assert (before + after)[|before| + k] == after[k];
    }
  }

  lemma CountsAroundJump(ch: Chain, pools: seq<Pool>, w: Watcher, t: Tick, after: seq<Tick>, table: Table, epoch: int)
    requires ReadFrom([t] + after, table) && UniqueKeys(table) && HonestRun(ch, pools, w, [t] + after)
    requires w.position.epoch < epoch < TickOf(pools, w, t).0.position.epoch
    ensures var w' := Ticks(pools, w, [t] + after).0;
            w.log <= w'.log && forall e :: e in w'.log[|w.log|..] ==> e.epoch != epoch
  {
    hide TickOf, UniqueKeys, HonestTick, Schedule;
    var ts := [t] + after;
    assert ts[0] == t && ts[1..] == after;
    var (w1, flow) := TickOf(pools, w, t);
    assert ReadFrom(after, table) by { PartsRead([t], after, table); }
    TickScheduled(pools, w, t, table);
    if Alive(flow) {
      CountsBetweenEpochs(ch, pools, w1, after, table);
      var w' := Ticks(pools, w1, after).0;
      assert w'.log[|w.log|..] == w1.log[|w.log|..] + w'.log[|w1.log|..];
    }
  }

  lemma {:induction false} NewCountsAreScheduled(pools: seq<Pool>, w: Watcher, ts: seq<Tick>, table: Table)
    requires ReadFrom(ts, table) && UniqueKeys(table)
    ensures w.log <= Ticks(pools, w, ts).0.log && Scheduled(Ticks(pools, w, ts).0.log[|w.log|..], table)
    decreases |ts|
  {
    hide TickOf, Schedule, UniqueKeys;
    if ts != [] {
      var (w1, flow) := TickOf(pools, w, ts[0]);
      TickScheduled(pools, w, ts[0], table);
      if Alive(flow) {
        NewCountsAreScheduled(pools, w1, ts[1..], table);
        var w' := Ticks(pools, w1, ts[1..]).0;
        assert w'.log[|w.log|..] == w1.log[|w.log|..] + w'.log[|w1.log|..];
      }
    }
  }

  /** What is scheduled under an epoch is a slot of that epoch, if schedules hold only such. */
  lemma OwnSlot(ch: Chain, table: Table, e: Event)
    requires OwnEpochOnly(ch, table) && e.slot in Schedule(table, e.pool.id, e.epoch)
    ensures ch.TrueFirst(e.epoch) <= e.slot <= ch.TrueLast(e.epoch)
  {
    var r := Select(table, e.pool.id, e.epoch)[0];
    assert r in Select(table, e.pool.id, e.epoch);
  }

  /** A tick that sees epoch 2 while the position stands at the end of epoch 0: the pool leads slot
      432005 in epoch 1, the run is honest, and that slot is not recorded. */
  lemma {:induction false} JumpedEpoch()
    returns (ch: Chain, pools: seq<Pool>, table: Table, w: Watcher, t: Tick)
    ensures ch.base == 0 && OwnEpochOnly(ch, table) && UniqueKeys(table) && HonestRun(ch, pools, w, [t])
    ensures |pools| == 1 && t.table == t.tableAfter == table && 432005 in Schedule(table, pools[0].id, 1)
    ensures ch.TrueFirst(1) <= 432005 <= ch.TrueLast(1) && w.position == Position(0, ch.End(0)) && w.log == []
    ensures var (w', flow) := Ticks(pools, w, [t]);
            flow.Continue? && w'.position.epoch == 2 && forall e :: e in w'.log ==> e.slot != 432005
  {
    hide TickOf, Select;
    ch, pools, table := Chain(0, 0, map[]), [Pool("p", "", "", false, true)], [Row(1, 1, "p", 1, [432005])];
    w := Watcher(Position(0, 432000), [], NO_METRICS, [], 0);
    t := Tick(true, Got(Block(2, 864005, 5)), Got(Block(0, 431999, 431999)), Got(2), table, Oracle(map[], map[], map[]),
              map[], Committed, Committed, NoError, table, map[]);
    OnlyRow(table, 1);
    IdleMove(pools, w, t);
    assert [t][0] == t && [t][1..] == [];
    assert HonestRun(ch, pools, TickOf(pools, w, t).0, []);
    assert [] + ([t] + []) == [t];
    assert Ticks(pools, w, []) == (w, Continue);
    JumpedEpochsAreLost(ch, pools, w, [], t, [], table, 1);
  }
}
