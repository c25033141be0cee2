/** Failover between remote endpoints: dialling in priority order, probing, and the gauges
    that are meant to show which endpoint a dial would pick.  One call runs by itself here;
    module Cooldown interleaves them. */
module SocketProxy {
  import opened Timing

  datatype Option<+T> = None | Some(value: T)

  /** What dialling an endpoint yields, and the clock reading taken right after it. */
  datatype DialReply = DialReply(ok: bool, at: int)

  class RemoteEndpoint {
    const addr: string
    var downUntil: int

    constructor (addr: string)
      ensures this.addr == addr && downUntil == 0
    {
      this.addr := addr;
      downUntil := 0;
    }

    predicate Down(now: int)
      reads this
    {
      now < downUntil
    }

    method IsDown(now: int) returns (down: bool)
      ensures down == Down(now)
    {
      down := now < downUntil;
    }

    method MarkDown(until: int)
      modifies this
      ensures downUntil == until
    {
      downUntil := until;
    }

    /** The zero time lies before every clock reading. */
    method ClearDown()
      modifies this
      ensures downUntil == 0
    {
      downUntil := 0;
    }
  }

  // ---------- specification, on the sequence of downUntil values ----------

  /** The indices among the first `n` that are not in cooldown, in configured order. */
  function UpIndices(downs: seq<int>, now: int, n: nat): (ups: seq<nat>)
    requires n <= |downs|
    ensures forall k :: 0 <= k < |ups| ==> ups[k] < n && !(now < downs[ups[k]])
    ensures forall j, k :: 0 <= j < k < |ups| ==> ups[j] < ups[k]
    ensures forall i :: 0 <= i < n && !(now < downs[i]) ==> i in ups
  {
    if n == 0 then []
    else if now < downs[n - 1] then UpIndices(downs, now, n - 1)
    else UpIndices(downs, now, n - 1) + [n - 1]
  }

  function AllIndices(n: nat): (all: seq<nat>)
    ensures |all| == n && forall k :: 0 <= k < n ==> all[k] == k
  {
    seq(n, i => i)
  }

  lemma OneMoreIndex(n: nat)
    ensures AllIndices(n + 1) == AllIndices(n) + [n] && n !in AllIndices(n)
  {
  }

  /** The endpoints a dial tries, in order: those not in cooldown, or all of them if none is. */
  function Candidates(downs: seq<int>, now: int): (cs: seq<nat>)
    ensures forall k :: 0 <= k < |cs| ==> cs[k] < |downs|
    ensures forall j, k :: 0 <= j < k < |cs| ==> cs[j] < cs[k]
    ensures |downs| > 0 ==> |cs| > 0
  {
    var ups := UpIndices(downs, now, |downs|);
    if ups == [] then AllIndices(|downs|) else ups
  }

  /** The endpoint `i` is the first, in configured order, that is not in cooldown at `now`. */
  predicate FirstUp(downs: seq<int>, now: int, i: nat) {
    i < |downs| && !(now < downs[i]) && forall j :: 0 <= j < i ==> now < downs[j]
  }

  /** No later one among the first `n` endpoints has the address of endpoint `i`. */
  predicate LastOf(addrs: seq<string>, i: nat, n: nat)
    requires i < n <= |addrs|
  {
    forall j :: i < j < n ==> addrs[j] != addrs[i]
  }

  /** What the gauges of one endpoint must read: `up` by its own cooldown, `active` on the first
      one that is up. */
  predicate GaugeShows(addrs: seq<string>, downs: seq<int>, now: int, i: nat, up: map<string, int>, active: map<string, int>)
    requires i < |addrs| == |downs|
  {
    && addrs[i] in up && up[addrs[i]] == (if now < downs[i] then 0 else 1)
    && addrs[i] in active && active[addrs[i]] == (if FirstUp(downs, now, i) then 1 else 0)
  }

  /** What the gauges of the first `n` endpoints must read.  Endpoints with one address share a
      gauge; the last of them shows. */
  predicate GaugesShow(addrs: seq<string>, downs: seq<int>, now: int, n: nat, up: map<string, int>, active: map<string, int>) {
    && n <= |addrs| == |downs|
    && forall i :: 0 <= i < n && LastOf(addrs, i, n) ==> GaugeShows(addrs, downs, now, i, up, active)
  }

  predicate Distinct(addrs: seq<string>) {
    forall i, j :: 0 <= i < j < |addrs| ==> addrs[i] != addrs[j]
  }

  /** The cooldowns after the endpoints `dialled` were tried in turn. */
  predicate CooldownsAfter(downs: seq<int>, dialled: seq<nat>, replies: seq<DialReply>, downs': seq<int>) {
    && |downs| == |replies| == |downs'|
    && forall i :: 0 <= i < |downs| ==>
        downs'[i] ==
          if i !in dialled then downs[i]
          else if replies[i].ok then 0
          else replies[i].at + FAILOVER_COOLDOWN
  }

  /** Some endpoint among the first `n` is up. */
  predicate SomeUp(downs: seq<int>, now: int, n: nat)
    requires n <= |downs|
  {
    exists j :: 0 <= j < n && !(now < downs[j])
  }

  lemma NoGauges(addrs: seq<string>, downs: seq<int>, now: int, up: map<string, int>, active: map<string, int>)
    requires |addrs| == |downs|
    ensures GaugesShow(addrs, downs, now, 0, up, active) && !SomeUp(downs, now, 0)
  {
  }

  lemma GaugeStep(addrs: seq<string>, downs: seq<int>, now: int, n: nat,
                  up: map<string, int>, active: map<string, int>, activeSet: bool)
    requires n < |addrs| == |downs| && GaugesShow(addrs, downs, now, n, up, active)
    requires activeSet <==> SomeUp(downs, now, n)
    ensures var down := now < downs[n];
            && (SomeUp(downs, now, n + 1) <==> activeSet || !down)
            && GaugesShow(addrs, downs, now, n + 1,
                          up[addrs[n] := if down then 0 else 1],
                          active[addrs[n] := if !down && !activeSet then 1 else 0])
  {
    hide FirstUp;
    var down := now < downs[n];
    var up', active' := up[addrs[n] := if down then 0 else 1], active[addrs[n] := if !down && !activeSet then 1 else 0];
    SomeUpOneMore(downs, now, n);
    forall i | 0 <= i < n + 1 && LastOf(addrs, i, n + 1)
      ensures GaugeShows(addrs, downs, now, i, up', active')
    {
      if i < n {
        assert LastOf(addrs, i, n) && addrs[n] != addrs[i];
        assert GaugeShows(addrs, downs, now, i, up, active);
      }
    }
  }

  lemma SomeUpOneMore(downs: seq<int>, now: int, n: nat)
    requires n < |downs|
    ensures SomeUp(downs, now, n + 1) <==> SomeUp(downs, now, n) || !(now < downs[n])
    ensures FirstUp(downs, now, n) <==> !SomeUp(downs, now, n) && !(now < downs[n])
  {
  }

  lemma LastWhenDistinct(addrs: seq<string>, i: nat)
    requires Distinct(addrs) && i < |addrs|
    ensures LastOf(addrs, i, |addrs|)
  {
  }

  lemma NothingDialled(before: seq<int>, replies: seq<DialReply>)
    requires |replies| == |before|
    ensures CooldownsAfter(before, [], replies, before)
  {
  }

  lemma CooldownStep(before: seq<int>, dialled: seq<nat>, replies: seq<DialReply>, downs: seq<int>, c: nat)
    requires CooldownsAfter(before, dialled, replies, downs) && c < |before| && c !in dialled
    ensures CooldownsAfter(before, dialled + [c], replies,
                           downs[c := if replies[c].ok then 0 else replies[c].at + FAILOVER_COOLDOWN])
  {
  }

  /** `dialled` is the prefix of the candidates that ends with the first one to answer, and that
      one is returned; if none answers, all were dialled and nothing is returned. */
  predicate StopsAtFirst(candidates: seq<nat>, replies: seq<DialReply>, dialled: seq<nat>, conn: Option<nat>) {
    && dialled <= candidates
    && (forall k :: 0 <= k < |dialled| ==> dialled[k] < |replies|)
    && (forall k :: 0 <= k < |dialled| && (conn.Some? ==> k < |dialled| - 1) ==> !replies[dialled[k]].ok)
    && (match conn
        case Some(i) => dialled != [] && i == dialled[|dialled| - 1] && replies[i].ok
        case None => dialled == candidates)
  }

  /** The first `k` candidates fail. */
  predicate FailFrom(candidates: seq<nat>, replies: seq<DialReply>, k: nat)
    requires k <= |candidates| && forall j :: 0 <= j < |candidates| ==> candidates[j] < |replies|
  {
    forall j :: 0 <= j < k ==> !replies[candidates[j]].ok
  }

  lemma StopsHere(candidates: seq<nat>, replies: seq<DialReply>, k: nat)
    requires k < |candidates| && forall j :: 0 <= j < |candidates| ==> candidates[j] < |replies|
    requires FailFrom(candidates, replies, k) && replies[candidates[k]].ok
    ensures StopsAtFirst(candidates, replies, candidates[..k + 1], Some(candidates[k]))
  {
  }

  lemma AllFail(candidates: seq<nat>, replies: seq<DialReply>)
    requires forall j :: 0 <= j < |candidates| ==> candidates[j] < |replies|
    requires FailFrom(candidates, replies, |candidates|)
    ensures StopsAtFirst(candidates, replies, candidates[..|candidates|], None)
  {
    assert candidates[..|candidates|] == candidates;
  }

  class SocketProxy {
    const endpoints: seq<RemoteEndpoint>
    const hasMetrics: bool
    var nodeUp: map<string, int>
    var nodeActive: map<string, int>

    ghost predicate Valid() {
      && |endpoints| > 0
      && forall i, j :: 0 <= i < j < |endpoints| ==> endpoints[i] != endpoints[j]
    }

    ghost function Downs(): (downs: seq<int>)
      reads endpoints
      ensures |downs| == |endpoints| && forall i :: 0 <= i < |endpoints| ==> downs[i] == endpoints[i].downUntil
    {
      seq(|endpoints|, i requires 0 <= i < |endpoints| reads endpoints => endpoints[i].downUntil)
    }

    ghost function Addrs(): (addrs: seq<string>)
      ensures |addrs| == |endpoints| && forall i :: 0 <= i < |endpoints| ==> addrs[i] == endpoints[i].addr
    {
      seq(|endpoints|, i requires 0 <= i < |endpoints| => endpoints[i].addr)
    }

    constructor (endpoints: seq<RemoteEndpoint>, hasMetrics: bool)
      requires |endpoints| > 0
      requires forall i, j :: 0 <= i < j < |endpoints| ==> endpoints[i] != endpoints[j]
      ensures Valid() && this.endpoints == endpoints && this.hasMetrics == hasMetrics
    {
      this.endpoints, this.hasMetrics := endpoints, hasMetrics;
      nodeUp, nodeActive := map[], map[];
    }

    /** Publishes the gauges, unless there are no metrics. */
    method UpdateMetrics(now: int)
      requires Valid()
      modifies this`nodeUp, this`nodeActive
      ensures hasMetrics ==> GaugesShow(Addrs(), Downs(), now, |endpoints|, nodeUp, nodeActive)
      ensures !hasMetrics ==> nodeUp == old(nodeUp) && nodeActive == old(nodeActive)
    {
      if !hasMetrics {
        return;
      }
      hide GaugesShow, SomeUp;
      ghost var addrs, downs := Addrs(), Downs();
      NoGauges(addrs, downs, now, nodeUp, nodeActive);
      var activeSet := false;
      for i := 0 to |endpoints|
        invariant downs == Downs()
        invariant activeSet <==> SomeUp(downs, now, i)
        invariant GaugesShow(addrs, downs, now, i, nodeUp, nodeActive)
      {
        var ep := endpoints[i];
        var down := ep.IsDown(now);
        GaugeStep(addrs, downs, now, i, nodeUp, nodeActive, activeSet);
        nodeUp := nodeUp[ep.addr := if down then 0 else 1];
        var active := 0;
        if !down && !activeSet {
          active := 1;
          activeSet := true;
        }
        nodeActive := nodeActive[ep.addr := active];
      }
    }

    /** The endpoints worth dialling. */
    method SelectCandidates(now: int) returns (candidates: seq<nat>)
      requires Valid()
      ensures candidates == Candidates(Downs(), now)
    {
      ghost var downs := Downs();
      candidates := [];
      for i := 0 to |endpoints|
        invariant candidates == UpIndices(downs, now, i)
      {
        var down := endpoints[i].IsDown(now);
        if !down {
          candidates := candidates + [i];
        }
      }
      if |candidates| == 0 {
        candidates := AllIndices(|endpoints|);
      }
    }

    /** Writes the cooldown of one endpoint after a dial or a probe. */
    method Record(i: nat, reply: DialReply)
      requires Valid() && i < |endpoints|
      modifies endpoints[i]
      ensures Downs() == old(Downs())[i := if reply.ok then 0 else reply.at + FAILOVER_COOLDOWN]
    {
      if reply.ok {
        endpoints[i].ClearDown();
      } else {
        endpoints[i].MarkDown(reply.at + FAILOVER_COOLDOWN);
      }
    }

    /** Dials `candidates` in order and stops at the first success. */
    method DialFirst(candidates: seq<nat>, replies: seq<DialReply>)
      returns (conn: Option<nat>, lastErr: Option<nat>, ghost dialled: seq<nat>)
      requires Valid() && |replies| == |endpoints|
      requires forall k :: 0 <= k < |candidates| ==> candidates[k] < |endpoints|
      requires forall j, k :: 0 <= j < k < |candidates| ==> candidates[j] < candidates[k]
      modifies endpoints
      ensures StopsAtFirst(candidates, replies, dialled, conn)
      ensures conn.None? && |candidates| > 0 ==> lastErr == Some(candidates[|candidates| - 1])
      ensures CooldownsAfter(old(Downs()), dialled, replies, Downs())
    {
      hide CooldownsAfter, StopsAtFirst;
      ghost var before := Downs();
      ghost var downs := before;
      NothingDialled(before, replies);
      conn, lastErr, dialled := None, None, [];
      for k := 0 to |candidates|
        invariant dialled == candidates[..k]
        invariant FailFrom(candidates, replies, k)
        invariant conn.None? && lastErr == if k == 0 then None else Some(candidates[k - 1])
        invariant downs == Downs() && CooldownsAfter(before, dialled, replies, downs)
      {
        var c := candidates[k];
        assert c !in dialled;
        CooldownStep(before, dialled, replies, downs, c);
        Record(c, replies[c]);
        downs := Downs();
        dialled := dialled + [c];
        assert candidates[..k] + [c] == candidates[..k + 1];
        if replies[c].ok {
          conn := Some(c);
          StopsHere(candidates, replies, k);
          return;
        }
        lastErr := Some(c);
      }
      AllFail(candidates, replies);
    }

    /** One dial: choose the candidates, try them, publish the gauges.  `start` is the clock
        reading on entry, `end` the one the gauges use.  `lastErr` names the endpoint whose
        error is reported. */
    method DialRemote(start: int, replies: seq<DialReply>, end: int)
      returns (conn: Option<nat>, lastErr: Option<nat>, ghost dialled: seq<nat>)
      requires Valid() && |replies| == |endpoints|
      modifies this`nodeUp, this`nodeActive, endpoints
      ensures StopsAtFirst(Candidates(old(Downs()), start), replies, dialled, conn)
      ensures conn.None? ==> |dialled| > 0 && lastErr == Some(dialled[|dialled| - 1])
      ensures CooldownsAfter(old(Downs()), dialled, replies, Downs())
      ensures hasMetrics ==> GaugesShow(Addrs(), Downs(), end, |endpoints|, nodeUp, nodeActive)
      ensures !hasMetrics ==> nodeUp == old(nodeUp) && nodeActive == old(nodeActive)
    {
      var candidates := SelectCandidates(start);
      conn, lastErr, dialled := DialFirst(candidates, replies);
      UpdateMetrics(end);
    }

    /** Probes every endpoint in turn, whatever its cooldown, and publishes the gauges. */
    method ProbeAll(replies: seq<DialReply>, end: int)
      requires Valid() && |replies| == |endpoints|
      modifies this`nodeUp, this`nodeActive, endpoints
      ensures CooldownsAfter(old(Downs()), AllIndices(|endpoints|), replies, Downs())
      ensures hasMetrics ==> GaugesShow(Addrs(), Downs(), end, |endpoints|, nodeUp, nodeActive)
      ensures !hasMetrics ==> nodeUp == old(nodeUp) && nodeActive == old(nodeActive)
    {
      hide CooldownsAfter, GaugesShow;
      ghost var before := Downs();
      ghost var downs := before;
      NothingDialled(before, replies);
      assert AllIndices(0) == [];
      for i := 0 to |endpoints|
        invariant nodeUp == old(nodeUp) && nodeActive == old(nodeActive)
        invariant downs == Downs() && CooldownsAfter(before, AllIndices(i), replies, downs)
      {
        OneMoreIndex(i);
        CooldownStep(before, AllIndices(i), replies, downs, i);
        Record(i, replies[i]);
        downs := Downs();
      }
      UpdateMetrics(end);
    }
  }

  // ---------- what a dial and its gauges mean ----------

  predicate AllDown(downs: seq<int>, now: int) {
    forall i :: 0 <= i < |downs| ==> now < downs[i]
  }

  /** Whether a dial may try endpoint `i`: it is not in cooldown, or every endpoint is. */
  predicate Eligible(downs: seq<int>, now: int, i: nat) {
    i < |downs| && (!(now < downs[i]) || AllDown(downs, now))
  }

  lemma CandidatesAreEligible(downs: seq<int>, now: int)
    ensures forall i: nat :: i in Candidates(downs, now) <==> Eligible(downs, now, i)
  {
    var ups := UpIndices(downs, now, |downs|);
    if ups == [] {
      assert AllDown(downs, now);
      forall i: nat | i < |downs|
        ensures i in AllIndices(|downs|)
      {
        assert AllIndices(|downs|)[i] == i;
      }
    } else {
      assert !(now < downs[ups[0]]);
    }
  }

  /** A dial returns the first eligible endpoint, in configured order, that answers.  It dials
      exactly the eligible endpoints up to that one, each once and in order, and returns nothing
      only when every eligible endpoint failed. */
  lemma DialPicksFirstReachable(downs: seq<int>, start: int, replies: seq<DialReply>, dialled: seq<nat>, conn: Option<nat>)
    requires |downs| == |replies| > 0
    requires StopsAtFirst(Candidates(downs, start), replies, dialled, conn)
    ensures conn.None? ==> forall i: nat :: Eligible(downs, start, i) ==> !replies[i].ok
    ensures conn.Some? ==> Eligible(downs, start, conn.value) && replies[conn.value].ok
    ensures conn.Some? ==> forall i: nat :: i < conn.value && Eligible(downs, start, i) ==> !replies[i].ok
    ensures forall i: nat :: i in dialled <==> Eligible(downs, start, i) && (conn.Some? ==> i <= conn.value)
    ensures forall j, k :: 0 <= j < k < |dialled| ==> dialled[j] < dialled[k]
  {
    var cs := Candidates(downs, start);
    CandidatesAreEligible(downs, start);
    forall i: nat | i in cs && conn.Some? && i <= conn.value
      ensures i in dialled
    {
      var k :| 0 <= k < |cs| && cs[k] == i;
      assert k < |dialled|;
      assert dialled[k] == i;
    }
    forall i: nat | i in dialled
      ensures i in cs && (conn.Some? ==> i <= conn.value) && (conn.None? || i != conn.value ==> !replies[i].ok)
    {
      var k :| 0 <= k < |dialled| && dialled[k] == i;
      assert cs[k] == i;
    }
  }

  /** Each endpoint is shown up exactly while it is not in cooldown; exactly one is shown active iff
      some endpoint is up, and then it is the first. */
  lemma OneActiveEndpoint(addrs: seq<string>, downs: seq<int>, now: int, up: map<string, int>, active: map<string, int>)
    requires |addrs| == |downs| && Distinct(addrs) && GaugesShow(addrs, downs, now, |addrs|, up, active)
    ensures forall i: nat :: i < |addrs| ==> addrs[i] in up && addrs[i] in active && up[addrs[i]] == if now < downs[i] then 0 else 1
    ensures !AllDown(downs, now) <==> exists i: nat :: i < |addrs| && active[addrs[i]] == 1
    ensures forall i: nat, j: nat :: i < |addrs| && j < |addrs| && active[addrs[i]] == 1 == active[addrs[j]] ==> i == j
    ensures forall i: nat :: i < |addrs| && active[addrs[i]] == 1 ==> up[addrs[i]] == 1 && FirstUp(downs, now, i)
  {
    forall i: nat | i < |addrs|
      ensures addrs[i] in up && up[addrs[i]] == (if now < downs[i] then 0 else 1)
      ensures addrs[i] in active && active[addrs[i]] == (if FirstUp(downs, now, i) then 1 else 0)
    {
      LastWhenDistinct(addrs, i);
      assert GaugeShows(addrs, downs, now, i, up, active);
    }
    if !AllDown(downs, now) {
      var i := FirstUpIndex(downs, now);
      assert active[addrs[i]] == 1;
    }
  }

  function FirstUpIndex(downs: seq<int>, now: int): (i: nat)
    requires !AllDown(downs, now)
    ensures FirstUp(downs, now, i)
  {
    if AllDown(downs[..|downs| - 1], now) then
      assert forall i :: 0 <= i < |downs| - 1 ==> downs[..|downs| - 1][i] == downs[i];
      |downs| - 1
    else
      FirstUpIndex(downs[..|downs| - 1], now)
  }

  /** After a call of its own that returned endpoint `i`, the gauges show `i` as active exactly
      when nothing ahead of it has come out of cooldown by the time they are published. */
  lemma ActiveIsTheOneReturned(downs: seq<int>, start: int, replies: seq<DialReply>, dialled: seq<nat>, i: nat,
                               downs': seq<int>, end: int)
    requires |downs| == |replies| > 0 && 0 <= end
    requires StopsAtFirst(Candidates(downs, start), replies, dialled, Some(i))
    requires CooldownsAfter(downs, dialled, replies, downs')
    ensures FirstUp(downs', end, i) <==>
            forall j: nat :: j < i ==>
              end < if j in dialled then replies[j].at + FAILOVER_COOLDOWN else downs[j]
  {
    DialPicksFirstReachable(downs, start, replies, dialled, Some(i));
  }

  /** The clock along one call: each dial returns within its timeout of the previous reading. */
  predicate DialsOnTime(start: int, replies: seq<DialReply>, dialled: seq<nat>)
    requires forall k :: 0 <= k < |dialled| ==> dialled[k] < |replies|
  {
    forall k :: 0 <= k < |dialled| ==>
      var previous := if k == 0 then start else replies[dialled[k - 1]].at;
      previous <= replies[dialled[k]].at <= previous + DIAL_TIMEOUT
  }

  lemma {:induction false} ElapsedBetweenDials(start: int, replies: seq<DialReply>, dialled: seq<nat>, j: nat, k: nat)
    requires forall m :: 0 <= m < |dialled| ==> dialled[m] < |replies|
    requires DialsOnTime(start, replies, dialled) && j <= k < |dialled|
    ensures replies[dialled[k]].at <= replies[dialled[j]].at + DIAL_TIMEOUT * (k - j)
    decreases k - j
  {
    if j < k {
      ElapsedBetweenDials(start, replies, dialled, j, k - 1);
    }
  }

  /** With fewer than three failures before it, no skipped endpoint's cooldown running out during the
      call and the gauges published within a dial timeout of the answer, the endpoint returned is the
      one shown active. */
  lemma ActiveGaugeMatchesDial(downs: seq<int>, start: int, replies: seq<DialReply>, dialled: seq<nat>, i: nat,
                               downs': seq<int>, end: int)
    requires |downs| == |replies| > 0 && 0 <= end
    requires StopsAtFirst(Candidates(downs, start), replies, dialled, Some(i))
    requires CooldownsAfter(downs, dialled, replies, downs')
    requires DialsOnTime(start, replies, dialled) && replies[i].at <= end < replies[i].at + DIAL_TIMEOUT
    requires |dialled| - 1 < 3
    requires forall j: nat :: j < i && j !in dialled ==> end < downs[j]
    ensures FirstUp(downs', end, i)
  {
    hide Candidates, Eligible, CooldownsAfter, FirstUp;
    forall j: nat | j < i && j in dialled
      ensures end < replies[j].at + FAILOVER_COOLDOWN
    {
      var k :| 0 <= k < |dialled| && dialled[k] == j;
      ElapsedBetweenDials(start, replies, dialled, k, |dialled| - 1);
    }
    ActiveIsTheOneReturned(downs, start, replies, dialled, i, downs', end);
  }

  /** With every endpoint up and endpoint `m` the first to answer, the dial tries 0, ..., m. */
  lemma DialsUpToFirst(downs: seq<int>, now: int, replies: seq<DialReply>, m: nat)
    requires m < |downs| == |replies|
    requires forall i :: 0 <= i < |downs| ==> !(now < downs[i])
    requires replies[m].ok && forall k :: 0 <= k < m ==> !replies[k].ok
    ensures StopsAtFirst(Candidates(downs, now), replies, AllIndices(m + 1), Some(m))
  {
    hide UpIndices;
    AllUp(downs, now, |downs|);
  }

  /** Three failures are too many: when the first `m >= 3` endpoints take the whole dial timeout
      to fail, endpoint `m` is returned while the gauges show endpoint 0, whose cooldown ran out
      during the call. */
  lemma ThreeTimeoutsMislabelActive(downs: seq<int>, replies: seq<DialReply>, downs': seq<int>, m: nat)
    requires 3 <= m < |downs| == |replies|
    requires forall i :: 0 <= i < |downs| ==> !(0 < downs[i])
    requires replies[m].ok && forall k :: 0 <= k < m ==> !replies[k].ok
    requires forall k :: 0 <= k <= m ==> replies[k].at == DIAL_TIMEOUT * k + DIAL_TIMEOUT
    requires CooldownsAfter(downs, AllIndices(m + 1), replies, downs')
    ensures StopsAtFirst(Candidates(downs, 0), replies, AllIndices(m + 1), Some(m))
    ensures DialsOnTime(0, replies, AllIndices(m + 1))
    ensures FirstUp(downs', replies[m].at, 0)
  {
    hide CooldownsAfter, StopsAtFirst, FirstUp, UpIndices, Candidates;
    DialsUpToFirst(downs, 0, replies, m);
    FirstRunsOut(downs, replies, downs', m);
  }

  /** Such a call, on four endpoints. */
  lemma MislabelledCall() returns (downs: seq<int>, replies: seq<DialReply>, downs': seq<int>)
    ensures |downs| == |replies| == 4 && CooldownsAfter(downs, AllIndices(4), replies, downs')
    ensures StopsAtFirst(Candidates(downs, 0), replies, AllIndices(4), Some(3))
    ensures DialsOnTime(0, replies, AllIndices(4)) && FirstUp(downs', replies[3].at, 0)
  {
    downs := [0, 0, 0, 0];
    replies := [DialReply(false, DIAL_TIMEOUT), DialReply(false, 2 * DIAL_TIMEOUT),
                DialReply(false, 3 * DIAL_TIMEOUT), DialReply(true, 4 * DIAL_TIMEOUT)];
    downs' := [DIAL_TIMEOUT + FAILOVER_COOLDOWN, 2 * DIAL_TIMEOUT + FAILOVER_COOLDOWN,
               3 * DIAL_TIMEOUT + FAILOVER_COOLDOWN, 0];
    forall i: nat | i < 4
      ensures i in AllIndices(4)
    {
      assert AllIndices(4)[i] == i;
    }
    ThreeTimeoutsMislabelActive(downs, replies, downs', 3);
  }

  lemma FirstRunsOut(downs: seq<int>, replies: seq<DialReply>, downs': seq<int>, m: nat)
    requires 3 <= m < |downs| == |replies| && !replies[0].ok
    requires replies[0].at == DIAL_TIMEOUT && replies[m].at == DIAL_TIMEOUT * m + DIAL_TIMEOUT
    requires CooldownsAfter(downs, AllIndices(m + 1), replies, downs')
    ensures FirstUp(downs', replies[m].at, 0)
  {
    assert AllIndices(m + 1)[0] == 0;
  }

  lemma {:induction false} AllUp(downs: seq<int>, now: int, n: nat)
    requires n <= |downs| && forall i :: 0 <= i < |downs| ==> !(now < downs[i])
    ensures UpIndices(downs, now, n) == AllIndices(n)
  {
    if n == 0 {
      assert AllIndices(0) == [];
    } else {
      AllUp(downs, now, n - 1);
      OneMoreIndex(n - 1);
    }
  }
}
