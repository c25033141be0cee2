/** When health probing alone keeps an unreachable endpoint in cooldown.
    A round dials the endpoints in order; the next round starts at the first tick after
    this one started, or at once if that tick fired while the round was still running. */
module ProbeCadence {
  import opened Timing

  /** One call of probeAll: when it starts and how long each endpoint's dial takes. */
  datatype Round = Round(start: int, durations: seq<int>)

  function Sum(xs: seq<int>): int {
    if xs == [] then 0 else Sum(xs[..|xs| - 1]) + xs[|xs| - 1]
  }

  /** The tick of a ticker created at `created` that follows the moment `t`. */
  function NextTick(created: int, t: int): (tick: int)
    requires created <= t
    ensures t < tick <= t + PROBE_INTERVAL
    ensures (tick - created) % PROBE_INTERVAL == 0
  {
    var k := (t - created) / PROBE_INTERVAL;
    TickBounds(t - created);
    created + PROBE_INTERVAL * (k + 1)
  }

  lemma TickBounds(d: int)
    requires d >= 0
    ensures var k := d / PROBE_INTERVAL;
            d < PROBE_INTERVAL * (k + 1) <= d + PROBE_INTERVAL && (PROBE_INTERVAL * (k + 1)) % PROBE_INTERVAL == 0
  {
  }

  /** Every probe is bounded by its timeout and `n` endpoints are probed. */
  predicate Bounded(r: Round, n: nat) {
    |r.durations| == n && forall j :: 0 <= j < n ==> 0 <= r.durations[j] <= PROBE_TIMEOUT
  }

  function End(r: Round): int { r.start + Sum(r.durations) }

  /** The moment the probe of endpoint `i` returns in a round. */
  function ProbedAt(r: Round, i: nat): int
    requires i < |r.durations|
  {
    r.start + Sum(r.durations[..i + 1])
  }

  function Max(a: int, b: int): int { if a < b then b else a }

  /** A history of runHealthProbe over `n` endpoints. */
  predicate History(created: int, n: nat, rounds: seq<Round>) {
    && (forall k :: 0 <= k < |rounds| ==> Bounded(rounds[k], n) && created <= rounds[k].start)
    && (forall k :: 0 <= k < |rounds| - 1 ==>
          rounds[k + 1].start == Max(End(rounds[k]), NextTick(created, rounds[k].start)))
  }

  /** Endpoint `i` fails every probe of the history and nothing else writes its cooldown.  At
      time `t` the failures recorded before `t` still hold it down. */
  predicate HeldDown(n: nat, rounds: seq<Round>, i: nat, t: int)
    requires i < n && forall k :: 0 <= k < |rounds| ==> |rounds[k].durations| == n
  {
    exists k :: 0 <= k < |rounds| && ProbedAt(rounds[k], i) < t < ProbedAt(rounds[k], i) + FAILOVER_COOLDOWN
  }

  /** In no history is endpoint `i` of `n` readmitted between its first and its last failed probe. */
  ghost predicate NeverReadmitted(n: nat, i: nat)
    requires i < n
  {
    forall created, rounds, t ::
      History(created, n, rounds) && |rounds| > 0
      && ProbedAt(rounds[0], i) < t <= ProbedAt(rounds[|rounds| - 1], i)
      ==> HeldDown(n, rounds, i, t)
  }

  lemma {:induction false} SumBounds(xs: seq<int>, k: nat)
    requires k <= |xs| && forall j :: 0 <= j < |xs| ==> 0 <= xs[j] <= PROBE_TIMEOUT
    ensures 0 <= Sum(xs[..k]) <= PROBE_TIMEOUT * k
    ensures Sum(xs[..k]) <= Sum(xs) <= Sum(xs[..k]) + PROBE_TIMEOUT * (|xs| - k)
    decreases |xs|
  {
    if k == |xs| {
      assert xs[..k] == xs;
      if xs != [] {
        var init := xs[..|xs| - 1];
        SumBounds(init, |init|);
        assert init[..|init|] == init;
      }
    } else {
      var init := xs[..|xs| - 1];
      assert init[..k] == xs[..k];
      SumBounds(init, k);
    }
  }

  /** Two successive failures of endpoint `i` are less than a cooldown apart. */
  lemma NextFailureInTime(created: int, n: nat, rounds: seq<Round>, i: nat, k: nat)
    requires i <= 1 && i < n <= 5
    requires History(created, n, rounds) && k + 1 < |rounds|
    ensures ProbedAt(rounds[k + 1], i) < ProbedAt(rounds[k], i) + FAILOVER_COOLDOWN
  {
    SumBounds(rounds[k].durations, i + 1);
    SumBounds(rounds[k + 1].durations, i + 1);
    assert rounds[k + 1].start == Max(End(rounds[k]), NextTick(created, rounds[k].start));
  }

  /** Between the first and the `m`-th failure some earlier failure covers `t`. */
  lemma {:induction false} Covered(created: int, n: nat, rounds: seq<Round>, i: nat, t: int, m: nat)
    requires i <= 1 && i < n <= 5
    requires History(created, n, rounds) && m < |rounds|
    requires ProbedAt(rounds[0], i) < t <= ProbedAt(rounds[m], i)
    ensures HeldDown(n, rounds, i, t)
    decreases m
  {
    if ProbedAt(rounds[m - 1], i) < t {
      NextFailureInTime(created, n, rounds, i, m - 1);
    } else {
      Covered(created, n, rounds, i, t, m - 1);
    }
  }

  function Constant(len: nat, v: int): (xs: seq<int>)
    ensures |xs| == len && forall j :: 0 <= j < len ==> xs[j] == v
  {
    seq(len, _ => v)
  }

  lemma {:induction false} SumConstant(len: nat, v: int)
    ensures Sum(Constant(len, v)) == len * v
  {
    if len > 0 {
      SumConstant(len - 1, v);
      assert Constant(len, v)[..len - 1] == Constant(len - 1, v);
    }
  }

  lemma {:induction false} SumAppend(xs: seq<int>, ys: seq<int>)
    ensures Sum(xs + ys) == Sum(xs) + Sum(ys)
  {
    if ys == [] {
      assert xs + ys == xs;
    } else {
      var init := ys[..|ys| - 1];
      assert (xs + ys)[..|xs + ys| - 1] == xs + init;
      SumAppend(xs, init);
    }
  }

  /** A round in which the endpoint answers at once, and all after it take the whole timeout. */
  function FirstRound(n: nat, i: nat): (r: Round)
    requires i < n
    ensures Bounded(r, n)
  {
    Round(0, Constant(i + 1, 0) + Constant(n - i - 1, PROBE_TIMEOUT))
  }

  /** Followed by one in which every probe takes the whole timeout. */
  function BadHistory(n: nat, i: nat): (rounds: seq<Round>)
    requires i < n
    ensures |rounds| == 2 && History(0, n, rounds)
  {
    var first := FirstRound(n, i);
    [first, Round(Max(End(first), NextTick(0, 0)), Constant(n, PROBE_TIMEOUT))]
  }

  lemma FirstRoundTimes(n: nat, i: nat)
    requires i < n
    ensures ProbedAt(FirstRound(n, i), i) == 0
    ensures End(FirstRound(n, i)) == PROBE_TIMEOUT * (n - i - 1)
  {
    SumConstant(i + 1, 0);
    SumConstant(n - i - 1, PROBE_TIMEOUT);
    SumAppend(Constant(i + 1, 0), Constant(n - i - 1, PROBE_TIMEOUT));
    assert FirstRound(n, i).durations[..i + 1] == Constant(i + 1, 0);
  }

  lemma BadHistoryReadmits(n: nat, i: nat)
    requires i < n && (i >= 2 || n >= 6)
    ensures var rounds := BadHistory(n, i);
            && ProbedAt(rounds[0], i) < FAILOVER_COOLDOWN <= ProbedAt(rounds[1], i)
            && !HeldDown(n, rounds, i, FAILOVER_COOLDOWN)
  {
    hide HeldDown, History;
    var rounds := BadHistory(n, i);
    FirstRoundTimes(n, i);
    SumConstant(i + 1, PROBE_TIMEOUT);
    assert rounds[1].durations[..i + 1] == Constant(i + 1, PROBE_TIMEOUT);
    assert ProbedAt(rounds[1], i) >= FAILOVER_COOLDOWN;
    NotHeldBetween(n, rounds, i);
  }

  lemma NotHeldBetween(n: nat, rounds: seq<Round>, i: nat)
    requires i < n && |rounds| == 2 && forall k :: 0 <= k < 2 ==> |rounds[k].durations| == n
    requires ProbedAt(rounds[0], i) <= 0 && FAILOVER_COOLDOWN <= ProbedAt(rounds[1], i)
    ensures !HeldDown(n, rounds, i, FAILOVER_COOLDOWN)
  {
    hide ProbedAt;
  }

  /** Probing alone keeps an unreachable endpoint out of use for good exactly when it is one of
      the first two and there are at most five endpoints. */
  lemma ProbingKeepsDeadNodesOut(n: nat, i: nat)
    requires i < n
    ensures NeverReadmitted(n, i) <==> i <= 1 && n <= 5
  {
    if i <= 1 && n <= 5 {
      forall created, rounds, t |
        History(created, n, rounds) && |rounds| > 0
        && ProbedAt(rounds[0], i) < t <= ProbedAt(rounds[|rounds| - 1], i)
        ensures HeldDown(n, rounds, i, t)
      {
        Covered(created, n, rounds, i, t, |rounds| - 1);
      }
    } else {
      BadHistoryReadmits(n, i);
    }
  }
}
