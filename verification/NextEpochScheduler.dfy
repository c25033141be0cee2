/** The scheduler that computes the next epoch's schedules ahead of time. */
module NextEpochScheduler {
  import opened Upstream

  const MINUTE: int := 60_000_000_000
  const CHECK_INTERVAL: int := 30 * MINUTE
  const LEAD_TIME: int := 24 * 60 * MINUTE

  datatype EpochInfo = EpochInfo(epoch: int, endTime: int)

  /** One firing of the ticker: the clock reading and the answer about the latest epoch. */
  datatype Check = Check(now: int, latest: Answer<EpochInfo>)

  /** The check is answered and finds at most a day left of the latest epoch. */
  predicate Due(c: Check) { c.latest.Got? && c.latest.value.endTime - c.now <= LEAD_TIME }

  /** The positions of the due checks: all of them, each once, in order. */
  function DueAt(checks: seq<Check>): (at: seq<nat>)
    ensures forall k :: 0 <= k < |at| ==> at[k] < |checks| && Due(checks[at[k]])
    ensures forall j, k :: 0 <= j < k < |at| ==> at[j] < at[k]
    ensures forall i :: 0 <= i < |checks| && Due(checks[i]) ==> i in at
  {
    if checks == [] then []
    else DueAt(checks[..|checks| - 1]) + if Due(checks[|checks| - 1]) then [|checks| - 1] else []
  }

  /** One request per due check, in order, for the epoch after the one the check saw. */
  predicate Answers(checks: seq<Check>, requested: seq<int>) {
    && |requested| == |DueAt(checks)|
    && forall k :: 0 <= k < |requested| ==> requested[k] == checks[DueAt(checks)[k]].latest.value.epoch + 1
  }

  lemma AnswersMore(checks: seq<Check>, c: Check, requested: seq<int>)
    requires Answers(checks, requested)
    ensures Answers(checks + [c], if Due(c) then requested + [c.latest.value.epoch + 1] else requested)
  {
    assert (checks + [c])[..|checks|] == checks;
  }

  /** The loop.  A check that is not answered or comes too early is passed over, and a refresh that
      fails is logged; neither stops the loop. */
  method RunNextEpochScheduler(checks: seq<Check>) returns (requested: seq<int>)
    ensures Answers(checks, requested)
  {
    hide DueAt, Answers;
    requested := [];
    NoAnswers();
    for i := 0 to |checks|
      invariant Answers(checks[..i], requested)
    {
      var c := checks[i];
      assert checks[..i + 1] == checks[..i] + [c];
      AnswersMore(checks[..i], c, requested);
      if c.latest.Failure? {
        continue;
      }
      var timeUntilEnd := c.latest.value.endTime - c.now;
      if timeUntilEnd > LEAD_TIME {
        continue;
      }
      requested := requested + [c.latest.value.epoch + 1];
    }
    assert checks[..|checks|] == checks;
  }

  lemma NoAnswers()
    ensures Answers([], [])
  {
  }

  /** Checks that follow each other within the interval and are told the truth about the epoch
      that ends at `end`, for as long as it lasts. */
  predicate Regular(checks: seq<Check>, epoch: int, end: int) {
    && (forall i :: 0 <= i < |checks| - 1 ==> checks[i].now < checks[i + 1].now <= checks[i].now + CHECK_INTERVAL)
    && (forall i :: 0 <= i < |checks| && checks[i].now < end ==> checks[i].latest == Got(EpochInfo(epoch, end)))
  }

  /** The first check within the lead time. */
  function FirstWithin(checks: seq<Check>, end: int): (i: nat)
    requires checks != [] && end - LEAD_TIME <= checks[|checks| - 1].now
    ensures i < |checks| && end - LEAD_TIME <= checks[i].now
    ensures i > 0 ==> checks[i - 1].now < end - LEAD_TIME
  {
    var n := |checks| - 1;
    if n == 0 || checks[n - 1].now < end - LEAD_TIME then n else FirstWithin(checks[..n], end)
  }

  lemma {:induction false} WithinInterval(checks: seq<Check>, epoch: int, end: int, i: nat, j: nat)
    requires Regular(checks, epoch, end) && i < |checks| && end <= checks[|checks| - 1].now
    requires checks[i].now < end - LEAD_TIME + CHECK_INTERVAL && end - LEAD_TIME <= checks[i].now && j < 48
    ensures i + j < |checks| && end - LEAD_TIME <= checks[i + j].now < end - LEAD_TIME + CHECK_INTERVAL * (j + 1)
    decreases j
  {
    if j > 0 {
      WithinInterval(checks, epoch, end, i, j - 1);
    }
  }

  /** Due checks that follow each other without a gap are neighbours in the list of due checks. */
  lemma {:induction false} DueTogether(checks: seq<Check>, lo: nat, k: nat, j: nat)
    requires k < |DueAt(checks)| && DueAt(checks)[k] == lo && lo + j < |checks|
    requires forall i :: lo <= i <= lo + j ==> Due(checks[i])
    ensures k + j < |DueAt(checks)| && DueAt(checks)[k + j] == lo + j
    decreases j
  {
    hide Due, DueAt;
    if j > 0 {
      DueTogether(checks, lo, k, j - 1);
      var at := DueAt(checks);
      assert Due(checks[lo + j]);
      assert lo + j in at;
      var m :| 0 <= m < |at| && at[m] == lo + j;
      assert m >= k + j;
    }
  }

  lemma DueExactly(checks: seq<Check>, epoch: int, end: int)
    requires Regular(checks, epoch, end)
    ensures forall i :: 0 <= i < |checks| && checks[i].now < end ==> (Due(checks[i]) <==> end - LEAD_TIME <= checks[i].now)
  {
  }

  lemma TruthfulBefore(checks: seq<Check>, epoch: int, end: int, i: nat)
    requires Regular(checks, epoch, end) && i < |checks| && checks[i].now < end
    ensures checks[i].latest == Got(EpochInfo(epoch, end))
  {
  }

  /** The first check of the last day comes within an interval of its beginning. */
  lemma FirstIsEarly(checks: seq<Check>, epoch: int, end: int, i: nat)
    requires Regular(checks, epoch, end) && i < |checks| && checks[0].now <= end - LEAD_TIME <= checks[i].now
    requires i > 0 ==> checks[i - 1].now < end - LEAD_TIME
    ensures checks[i].now < end - LEAD_TIME + CHECK_INTERVAL
  {
    if i > 0 {
      assert checks[i - 1 + 1].now <= checks[i - 1].now + CHECK_INTERVAL;
    }
  }

  /** The next epoch is asked for exactly in the last day of the current one, and at least 48 times
      in a row, so a refresh that keeps failing is tried again that often before the epoch begins. */
  lemma NextEpochIsAskedFor48Times(checks: seq<Check>, epoch: int, end: int, requested: seq<int>) returns (first: nat)
    requires Regular(checks, epoch, end) && checks != []
    requires checks[0].now <= end - LEAD_TIME && end <= checks[|checks| - 1].now
    requires Answers(checks, requested)
    ensures forall i :: 0 <= i < |checks| && checks[i].now < end ==> (Due(checks[i]) <==> end - LEAD_TIME <= checks[i].now)
    ensures first + 48 <= |requested| && forall k :: first <= k < first + 48 ==> requested[k] == epoch + 1
  {
    hide DueAt, Due, Regular;
    DueExactly(checks, epoch, end);
    var i := FirstWithin(checks, end);
    FirstIsEarly(checks, epoch, end, i);
    forall m | i <= m < i + 48
      ensures m < |checks| && checks[m].now < end && Due(checks[m])
      ensures checks[m].latest == Got(EpochInfo(epoch, end))
    {
      WithinInterval(checks, epoch, end, i, m - i);
      TruthfulBefore(checks, epoch, end, m);
    }
    assert Due(checks[i]);
    assert i in DueAt(checks);
    first :| 0 <= first < |DueAt(checks)| && DueAt(checks)[first] == i;
    forall k | first <= k < first + 48
      ensures k < |requested| && requested[k] == epoch + 1
    {
      DueTogether(checks, i, first, k - first);
    }
    assert first + 47 < |requested| by { DueTogether(checks, i, first, 47); }
  }
}
