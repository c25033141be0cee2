/** Cooldowns under any interleaving of dials and probes.  A goroutine whose dial failed reads
    the clock in one step and writes the cooldown in a later one; in between, any other
    goroutine may fail, clear or write the same endpoint. */
module Cooldown {
  import opened Timing

  /** A write that some goroutine has decided on but not made: endpoint `ep` down, with the
      clock read at `at`. */
  datatype Failure = Failure(ep: nat, at: int)

  datatype State = State(clock: int, downs: seq<int>, pending: seq<Failure>, failures: set<Failure>)

  datatype Step =
    | TimePasses(d: nat)
    | DialFails(ep: nat)    // the dial or probe of `ep` failed and its goroutine reads the clock
    | MarkDown(k: nat)      // the k-th pending goroutine writes
    | ClearDown(ep: nat)    // a goroutine whose dial of `ep` succeeded writes

  predicate Initial(s: State) {
    s.clock >= 0 && s.pending == [] && s.failures == {} && forall i :: 0 <= i < |s.downs| ==> s.downs[i] == 0
  }

  predicate Enabled(s: State, step: Step) {
    match step
    case TimePasses(_) => true
    case DialFails(ep) => ep < |s.downs|
    case MarkDown(k) => k < |s.pending| && s.pending[k].ep < |s.downs|
    case ClearDown(ep) => ep < |s.downs|
  }

  function Do(s: State, step: Step): State
    requires Enabled(s, step)
  {
    match step
    case TimePasses(d) => s.(clock := s.clock + d)
    case DialFails(ep) =>
      var f := Failure(ep, s.clock);
      s.(pending := s.pending + [f], failures := s.failures + {f})
    case MarkDown(k) =>
      var f := s.pending[k];
      s.(downs := s.downs[f.ep := f.at + FAILOVER_COOLDOWN], pending := s.pending[..k] + s.pending[k + 1..])
    case ClearDown(ep) => s.(downs := s.downs[ep := 0])
  }

  predicate Possible(s: State, steps: seq<Step>)
    decreases |steps|
  {
    steps == [] || (Enabled(s, steps[0]) && Possible(Do(s, steps[0]), steps[1..]))
  }

  function After(s: State, steps: seq<Step>): State
    requires Possible(s, steps)
    decreases |steps|
  {
    if steps == [] then s else After(Do(s, steps[0]), steps[1..])
  }

  /** What isDown answers for a clock reading `now`. */
  predicate Down(s: State, ep: nat, now: int) {
    ep < |s.downs| && now < s.downs[ep]
  }

  /** Every cooldown on record was caused by a failure that really happened. */
  predicate Inv(s: State) {
    && s.clock >= 0
    && (forall f :: f in s.failures ==> f.at <= s.clock)
    && (forall k :: 0 <= k < |s.pending| ==> s.pending[k] in s.failures)
    && (forall i: nat :: i < |s.downs| && s.downs[i] != 0 ==> Failure(i, s.downs[i] - FAILOVER_COOLDOWN) in s.failures)
  }

  lemma {:induction false} InvHolds(s: State, steps: seq<Step>)
    requires Inv(s) && Possible(s, steps)
    ensures Inv(After(s, steps)) && s.failures <= After(s, steps).failures
    ensures |After(s, steps).downs| == |s.downs|
    decreases |steps|
  {
    if steps != [] {
      InvHolds(Do(s, steps[0]), steps[1..]);
    }
  }

  /** An endpoint reported down for a clock reading `now` failed a dial or probe at some moment
      less than a cooldown before `now`; so one without such a failure is always eligible. */
  lemma DownMeansRecentFailure(s: State, steps: seq<Step>, ep: nat, now: int)
    requires Initial(s) && Possible(s, steps) && 0 <= now
    requires Down(After(s, steps), ep, now)
    ensures exists f :: f in After(s, steps).failures && f.ep == ep && now - FAILOVER_COOLDOWN < f.at <= After(s, steps).clock
  {
    InvHolds(s, steps);
    var s' := After(s, steps);
    assert Failure(ep, s'.downs[ep] - FAILOVER_COOLDOWN) in s'.failures;
  }

  /** `steps` contains no write that marks `ep` down. */
  predicate NoMarkOf(s: State, steps: seq<Step>, ep: nat)
    requires Possible(s, steps)
    decreases |steps|
  {
    steps == [] ||
    ((steps[0].MarkDown? ==> s.pending[steps[0].k].ep != ep) && NoMarkOf(Do(s, steps[0]), steps[1..], ep))
  }

  /** Once cleared, an endpoint stays eligible through any steps that do not write it down. */
  lemma {:induction false} ClearedStaysEligible(s: State, steps: seq<Step>, ep: nat, now: int)
    requires ep < |s.downs| && s.downs[ep] == 0 && 0 <= now
    requires Possible(s, steps) && NoMarkOf(s, steps, ep)
    ensures !Down(After(s, steps), ep, now)
    decreases |steps|
  {
    if steps != [] {
      ClearedStaysEligible(Do(s, steps[0]), steps[1..], ep, now);
    }
  }

  /** The steps contain no new failure of `ep`. */
  predicate NoNewFailure(steps: seq<Step>, ep: nat) {
    forall i :: 0 <= i < |steps| ==> steps[i] != DialFails(ep)
  }

  /** Some goroutine has yet to write a failure of `ep` whose cooldown reaches past the moment `t`. */
  predicate StaleWritePending(s: State, ep: nat, t: int) {
    exists k :: 0 <= k < |s.pending| && s.pending[k].ep == ep && t < s.pending[k].at + FAILOVER_COOLDOWN
  }

  /** Whatever runs from `s` on, as long as `ep` does not fail again, no reading of the clock finds
      it down. */
  ghost predicate UpUntilNextFailure(s: State, ep: nat) {
    forall steps, now ::
      Possible(s, steps) && NoNewFailure(steps, ep) && s.clock <= now ==> !Down(After(s, steps), ep, now)
  }

  lemma NoNewStaleWrite(s: State, step: Step, ep: nat, t: int)
    requires Enabled(s, step) && step != DialFails(ep) && StaleWritePending(Do(s, step), ep, t)
    ensures StaleWritePending(s, ep, t)
  {
    var s1 := Do(s, step);
    var k :| 0 <= k < |s1.pending| && s1.pending[k].ep == ep && t < s1.pending[k].at + FAILOVER_COOLDOWN;
    var j := if step.MarkDown? && step.k <= k then k + 1 else k;
    assert s.pending[j] == s1.pending[k];
  }

  lemma {:induction false} NothingStaleStaysUp(s: State, steps: seq<Step>, ep: nat, t: int, now: int)
    requires 0 <= t <= now && Possible(s, steps) && NoNewFailure(steps, ep)
    requires !Down(s, ep, t) && !StaleWritePending(s, ep, t)
    ensures !Down(After(s, steps), ep, now)
    decreases |steps|
  {
    if steps != [] {
      var s1 := Do(s, steps[0]);
      if StaleWritePending(s1, ep, t) {
        NoNewStaleWrite(s, steps[0], ep, t);
        assert false;
      }
      if steps[0].MarkDown? {
        var f := s.pending[steps[0].k];
        assert f.ep == ep ==> f.at + FAILOVER_COOLDOWN <= t;
      }
      NothingStaleStaysUp(s1, steps[1..], ep, t, now);
    }
  }

  /** After a success has been written an endpoint stays eligible until it fails again if and only
      if no failure from before is still waiting to be written whose cooldown has not run out. */
  lemma UpAfterSuccessExactly(s: State, ep: nat)
    requires 0 <= s.clock && ep < |s.downs|
    ensures var s' := Do(s, ClearDown(ep)); UpUntilNextFailure(s', ep) <==> !StaleWritePending(s', ep, s'.clock)
  {
    var s' := Do(s, ClearDown(ep));
    if StaleWritePending(s', ep, s'.clock) {
      var k :| 0 <= k < |s'.pending| && s'.pending[k].ep == ep && s'.clock < s'.pending[k].at + FAILOVER_COOLDOWN;
      OneStep(s', MarkDown(k));
      assert NoNewFailure([MarkDown(k)], ep) && Down(After(s', [MarkDown(k)]), ep, s'.clock);
    } else {
      forall steps, now | Possible(s', steps) && NoNewFailure(steps, ep) && s'.clock <= now
        ensures !Down(After(s', steps), ep, now)
      {
        NothingStaleStaysUp(s', steps, ep, s'.clock, now);
      }
    }
  }

  lemma OneStep(s: State, step: Step)
    requires Enabled(s, step)
    ensures Possible(s, [step]) && After(s, [step]) == Do(s, step)
  {
    assert [step][1..] == [];
  }

  /** The write matters, not the failure: a probe that failed before a successful dial may write
      after it, and then the endpoint is down although the last answer from it was a success. */
  lemma StaleFailureOverridesSuccess()
    ensures var s := State(0, [0], [], {});
            var steps := [DialFails(0), TimePasses(SECOND), ClearDown(0), MarkDown(0)];
            Initial(s) && Possible(s, steps) && Down(After(s, steps), 0, SECOND)
  {
    var s0 := State(0, [0], [], {});
    var s1 := Do(s0, DialFails(0));
    var s2 := Do(s1, TimePasses(SECOND));
    var s3 := Do(s2, ClearDown(0));
    var s4 := Do(s3, MarkDown(0));
    RunStep(s3, MarkDown(0), [], s4);
    RunStep(s2, ClearDown(0), [MarkDown(0)], s4);
    RunStep(s1, TimePasses(SECOND), [ClearDown(0), MarkDown(0)], s4);
    RunStep(s0, DialFails(0), [TimePasses(SECOND), ClearDown(0), MarkDown(0)], s4);
    assert [DialFails(0)] + [TimePasses(SECOND), ClearDown(0), MarkDown(0)]
        == [DialFails(0), TimePasses(SECOND), ClearDown(0), MarkDown(0)];
    assert [TimePasses(SECOND)] + [ClearDown(0), MarkDown(0)] == [TimePasses(SECOND), ClearDown(0), MarkDown(0)];
    assert [ClearDown(0)] + [MarkDown(0)] == [ClearDown(0), MarkDown(0)];
    assert [MarkDown(0)] + [] == [MarkDown(0)];
  }

  lemma RunStep(s: State, step: Step, rest: seq<Step>, end: State)
    requires Enabled(s, step) && Possible(Do(s, step), rest) && After(Do(s, step), rest) == end
    ensures Possible(s, [step] + rest) && After(s, [step] + rest) == end
  {
    assert ([step] + rest)[1..] == rest;
  }
}
