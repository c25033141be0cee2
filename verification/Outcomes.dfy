/** Which outcome a leader slot gets, and what makes a visit fail, for any answers. */
module Outcomes {
  import opened Pools
  import opened SlotLeader
  import opened WatcherModel
  import opened Coverage

  function Lower(s: string): (l: string)
    ensures |l| == |s| && forall i :: 0 <= i < |s| ==> l[i] == LowerCase(s[i])
  {
    seq(|s|, i requires 0 <= i < |s| => LowerCase(s[i]))
  }

  predicate IsAt(s: string, i: nat, part: string) { i + |part| <= |s| && s[i..i + |part|] == part }

  predicate Contains(s: string, part: string) { exists i :: 0 <= i <= |s| && IsAt(s, i, part) }

  /** An error counts as "not found" if and only if its lower-case text contains these words. */
  lemma SaysNotFoundExactly(message: string)
    ensures SaysNotFound(message) <==> Contains(Lower(message), "not found")
  {
    forall i | 0 <= i <= |message|
      ensures MatchesAt(message, i, "not found") <==> IsAt(Lower(message), i, "not found")
    {
      MatchIsPart(message, i, "not found");
    }
  }

  lemma MatchIsPart(message: string, i: nat, part: string)
    ensures MatchesAt(message, i, part) <==> IsAt(Lower(message), i, part)
  {
    if i + |part| <= |message| {
      var piece := Lower(message)[i..i + |part|];
      assert |piece| == |part| && forall k :: 0 <= k < |part| ==> piece[k] == LowerCase(message[i + k]);
    }
  }

  lemma NotFoundInAnyCase()
    ensures SaysNotFound("404 Not Found") && SaysNotFound("NOT FOUND") && !SaysNotFound("no found")
  {
    assert MatchesAt("404 Not Found", 4, "not found");
    assert MatchesAt("NOT FOUND", 0, "not found");
  }

  /** The outcome the reply to the block query calls for: a block of the pool is validated, a block
      of another is orphaned, and a block that is not found is missed. */
  predicate Fits(reply: BlockReply, pool: string, outcome: Outcome) {
    && (outcome.Validated? <==> reply == Found(pool))
    && (outcome.Orphaned? <==> reply.Found? && reply.slotLeader != pool)
    && (outcome.Missed? <==> reply.Error? && SaysNotFound(reply.message))
  }

  /** The block query is reached: the pool has slots or must have some, and leads this one. */
  predicate Leads(c: Context, p: Pool, slot: int) {
    && c.oracle.EmptyFault(p.id, slot).NoFault? && c.oracle.LeaderFault(p.id, slot).NoFault?
    && HasRow(c.table, p.id, c.epoch) && slot in Schedule(c.table, p.id, c.epoch)
    && (p.allowEmptySlots ==> Quantity(c.table, p.id, c.epoch) != 0)
  }

  /** A visit classifies if and only if the slot is led and its block is there or is said not to be
      found, and then with the outcome that fits.  It fails if and only if the first query fails, the
      second one does where it is asked, or the block of a led slot cannot be had. */
  lemma VisitEndsExactly(c: Context, p: Pool, slot: int)
    ensures var v := VisitOf(c, p, slot); var reply := c.oracle.BlockAt(p.id, slot);
            var lost := reply.Error? && !SaysNotFound(reply.message);
            && (v.Classified? <==> Leads(c, p, slot) && !lost)
            && (v.Classified? ==> Fits(reply, p.id, v.outcome))
            && (v.VisitFails? <==>
                  || !c.oracle.EmptyFault(p.id, slot).NoFault?
                  || (HasRow(c.table, p.id, c.epoch) && c.oracle.LeaderFault(p.id, slot).ReadFailed?
                      && (p.allowEmptySlots ==> Schedule(c.table, p.id, c.epoch) != [] && Quantity(c.table, p.id, c.epoch) != 0))
                  || (Leads(c, p, slot) && lost))
  {
    hide SaysNotFound, Select;
  }

  lemma {:induction false} PassFits(c: Context, slot: int, k: nat, j: nat)
    requires j <= |c.pools|
    ensures forall e :: e in PassEvents(c, slot, k, j) ==> Fits(c.oracle.BlockAt(e.pool.id, e.slot), e.pool.id, e.outcome)
    decreases j - k
  {
    hide VisitOf, Fits;
    if k < j {
      VisitEndsExactly(c, c.pools[k], slot);
      PassFits(c, slot, k + 1, j);
    }
  }

  lemma {:induction false} ScanFits(c: Context, lo: int, hi: int)
    ensures forall e :: e in ScanEvents(c, lo, hi) ==> Fits(c.oracle.BlockAt(e.pool.id, e.slot), e.pool.id, e.outcome)
    decreases hi - lo
  {
    hide PassEvents, Fits;
    if lo <= hi {
      PassFits(c, lo, 0, |c.pools|);
      ScanFits(c, lo + 1, hi);
    }
  }

  /** Whatever is answered, every event a tick logs has the outcome that fits the reply it got. */
  lemma TickLogsWhatFits(pools: seq<Pool>, w: Watcher, t: Tick)
    ensures var w1 := TickOf(pools, w, t).0;
            && w.log <= w1.log
            && forall e :: e in w1.log[|w.log|..] ==> Fits(t.oracle.BlockAt(e.pool.id, e.slot), e.pool.id, e.outcome)
  {
    hide TickOf, NextOf, ScanFrom, ScanEvents, PassEvents, PassFrom, EndSlot, Fits;
    TickShape(pools, w, t);
    var w1 := TickOf(pools, w, t).0;
    if Works(pools, w, t) {
      var c := Context(pools, t.table, t.oracle, w.position.epoch);
      var s := ScanIn(pools, w, t);
      ScanShape(c, w.position.slot + 1, EndSlot(w, t).value);
      ScanFits(c, w.position.slot + 1, EndSlot(w, t).value);
      ScanFits(c, w.position.slot + 1, s.last - 1);
      PassFits(c, s.last, 0, StopIndex(c, s.stop));
      assert w1.log[|w.log|..] == s.events;
    } else {
      assert w1.log[|w.log|..] == [];
    }
  }

  /** A block of a led slot that cannot be had, for any other reason than not being found, stops the
      scan there: at that slot no pool from the one affected on is classified by this tick. */
  lemma LostBlockStopsTheScan(c: Context, slot: int, end: int, i: nat, s: int)
    requires i < |c.pools| && slot <= s <= end && Leads(c, c.pools[i], s)
    requires var reply := c.oracle.BlockAt(c.pools[i].id, s); reply.Error? && !SaysNotFound(reply.message)
    ensures var scan := ScanFrom(c, slot, end); scan.stop != Completed && (scan.last < s || (scan.last == s && scan.stop.k <= i))
  {
    hide ScanFrom, VisitOf, Leads, SaysNotFound, PassFrom, ScanEvents, PassEvents;
    VisitEndsExactly(c, c.pools[i], s);
    ScanReaches(c, slot, end);
    ScanShape(c, slot, end);
    if !GivenUp(ScanFrom(c, slot, end), i, s) && s <= ScanFrom(c, slot, end).last {
      ScanVisits(c, slot, end, i, s);
      assert false;
    }
  }
}
