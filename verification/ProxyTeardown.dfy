/** The teardown of one proxied connection: two copy goroutines, the closer
    goroutine that waits for the context, and the main goroutine that owns both
    connections.  Every goroutine is a program counter and every statement that
    another goroutine can observe is one atomic action. */
module ProxyTeardown {

  /** A copy goroutine: inside io.Copy, returned but not yet sent on `done`, finished. */
  datatype Copy = Copying | Returned | Sent

  /** The closer: blocked on the context, then about to set each deadline in turn. */
  datatype Closer = AwaitingContext | SettingLocal | SettingRemote | CloserFinished

  /** The main goroutine; the last three steps are its deferred calls, last in first out. */
  datatype Main =
    | AwaitingFirst
    | Cancelling
    | AwaitingSecond
    | DeferredCancel
    | ClosingRemote
    | ClosingLocal
    | MainFinished

  datatype Side = Upload | Download

  datatype State = State(
    parentDone: bool,
    cancelled: bool,
    upload: Copy,
    download: Copy,
    closer: Closer,
    main: Main,
    queued: nat,
    localDeadline: bool,
    remoteDeadline: bool,
    localClosed: bool,
    remoteClosed: bool)
  {
    predicate ContextDone() { parentDone || cancelled }

    function CopyOf(side: Side): Copy { if side == Upload then upload else download }

    function WithCopy(side: Side, c: Copy): State {
      if side == Upload then this.(upload := c) else this.(download := c)
    }
  }

  datatype Action =
    | ParentCancel
    | CopyReturns(side: Side)
    | CopySends(side: Side)
    | CloserWakes
    | CloserSetsLocal
    | CloserSetsRemote
    | MainReceives
    | MainCancels
    | MainDeferredCancel
    | MainClosesRemote
    | MainClosesLocal

  const CHANNEL_CAPACITY: nat := 2

  const INITIAL := State(false, false, Copying, Copying, AwaitingContext, AwaitingFirst, 0, false, false, false, false)

  /** An action may happen.  A copy may return at any moment: its peer can hang up or fail. */
  predicate Enabled(s: State, a: Action) {
    match a
    case ParentCancel => !s.parentDone
    case CopyReturns(side) => s.CopyOf(side) == Copying
    case CopySends(side) => s.CopyOf(side) == Returned && s.queued < CHANNEL_CAPACITY
    case CloserWakes => s.closer == AwaitingContext && s.ContextDone()
    case CloserSetsLocal => s.closer == SettingLocal
    case CloserSetsRemote => s.closer == SettingRemote
    case MainReceives => (s.main == AwaitingFirst || s.main == AwaitingSecond) && s.queued > 0
    case MainCancels => s.main == Cancelling
    case MainDeferredCancel => s.main == DeferredCancel
    case MainClosesRemote => s.main == ClosingRemote
    case MainClosesLocal => s.main == ClosingLocal
  }

  /** An action the scheduler must eventually let happen.  The outside world owes nothing;
      a copy owes its return only once both of its connections carry an expired deadline. */
  predicate Guaranteed(s: State, a: Action) {
    && Enabled(s, a)
    && !a.ParentCancel?
    && (a.CopyReturns? ==> s.localDeadline && s.remoteDeadline)
  }

  function Do(s: State, a: Action): State
    requires Enabled(s, a)
  {
    match a
    case ParentCancel => s.(parentDone := true)
    case CopyReturns(side) => s.WithCopy(side, Returned)
    case CopySends(side) => s.WithCopy(side, Sent).(queued := s.queued + 1)
    case CloserWakes => s.(closer := SettingLocal)
    case CloserSetsLocal => s.(closer := SettingRemote, localDeadline := true)
    case CloserSetsRemote => s.(closer := CloserFinished, remoteDeadline := true)
    case MainReceives =>
      s.(queued := s.queued - 1, main := if s.main == AwaitingFirst then Cancelling else DeferredCancel)
    case MainCancels => s.(cancelled := true, main := AwaitingSecond)
    case MainDeferredCancel => s.(cancelled := true, main := ClosingRemote)
    case MainClosesRemote => s.(remoteClosed := true, main := ClosingLocal)
    case MainClosesLocal => s.(localClosed := true, main := MainFinished)
  }

  /** `acts` is a possible interleaving from `s`. */
  predicate Possible(s: State, acts: seq<Action>)
    decreases |acts|
  {
    acts == [] || (Enabled(s, acts[0]) && Possible(Do(s, acts[0]), acts[1..]))
  }

  function After(s: State, acts: seq<Action>): State
    requires Possible(s, acts)
    decreases |acts|
  {
    if acts == [] then s else After(Do(s, acts[0]), acts[1..])
  }

  /** A teardown has been asked for: the context ended or one direction is over. */
  predicate Triggered(s: State) {
    s.ContextDone() || s.upload != Copying || s.download != Copying
  }

  /** All four goroutines are gone. */
  predicate Final(s: State) {
    s.upload == Sent && s.download == Sent && s.closer == CloserFinished && s.main == MainFinished
  }

  function SentBy(c: Copy): nat { if c == Sent then 1 else 0 }

  function Received(m: Main): nat {
    match m
    case AwaitingFirst => 0
    case Cancelling | AwaitingSecond => 1
    case _ => 2
  }

  predicate Inv(s: State) {
    && s.queued + Received(s.main) == SentBy(s.upload) + SentBy(s.download)
    && (s.cancelled <==> s.main != AwaitingFirst && s.main != Cancelling)
    && (s.closer != AwaitingContext ==> s.ContextDone())
    && (s.localDeadline <==> s.closer == SettingRemote || s.closer == CloserFinished)
    && (s.remoteDeadline <==> s.closer == CloserFinished)
    && (s.remoteClosed <==> s.main == ClosingLocal || s.main == MainFinished)
    && (s.localClosed <==> s.main == MainFinished)
  }

  /** The number of actions the whole system can still take. */
  function Remaining(s: State): nat {
    (if s.parentDone then 0 else 1)
    + OfCopy(s.upload) + OfCopy(s.download) + OfCloser(s.closer) + OfMain(s.main)
  }

  function OfCopy(c: Copy): nat {
    match c case Copying => 2 case Returned => 1 case Sent => 0
  }

  function OfCloser(c: Closer): nat {
    match c case AwaitingContext => 3 case SettingLocal => 2 case SettingRemote => 1 case CloserFinished => 0
  }

  function OfMain(m: Main): nat {
    match m
    case AwaitingFirst => 6
    case Cancelling => 5
    case AwaitingSecond => 4
    case DeferredCancel => 3
    case ClosingRemote => 2
    case ClosingLocal => 1
    case MainFinished => 0
  }

  lemma StepKeepsInv(s: State, a: Action)
    requires Inv(s) && Enabled(s, a)
    ensures Inv(Do(s, a))
    ensures Triggered(s) ==> Triggered(Do(s, a))
  {
    match a
    case CopyReturns(side) => CopyStepKeepsInv(s, a);
    case CopySends(side) => CopyStepKeepsInv(s, a);
    case _ =>
  }

  lemma CopyStepKeepsInv(s: State, a: Action)
    requires Inv(s) && Enabled(s, a) && (a.CopyReturns? || a.CopySends?)
    ensures Inv(Do(s, a))
    ensures Triggered(s) ==> Triggered(Do(s, a))
  {
    if a.side == Upload {
    } else {
    }
  }

  lemma StepUsesOneUnit(s: State, a: Action)
    requires Enabled(s, a)
    ensures Remaining(Do(s, a)) == Remaining(s) - 1
  {
    match a
    case CopyReturns(side) => CopyAdvances(s, side, Returned);
    case CopySends(side) => CopyAdvances(s, side, Sent);
    case _ =>
  }

  lemma CopyAdvances(s: State, side: Side, c: Copy)
    requires OfCopy(c) == OfCopy(s.CopyOf(side)) - 1
    ensures Remaining(s.WithCopy(side, c)) == Remaining(s) - 1
  {
  }

  /** Every interleaving keeps the invariant and uses up exactly one unit of the measure per
      action, so no run of the four goroutines, however scheduled, exceeds 14 actions. */
  lemma {:induction false} RunsAreBounded(s: State, acts: seq<Action>)
    requires Inv(s) && Possible(s, acts)
    ensures Inv(After(s, acts))
    ensures |acts| + Remaining(After(s, acts)) == Remaining(s)
    decreases |acts|
  {
    if acts != [] {
      StepKeepsInv(s, acts[0]);
      StepUsesOneUnit(s, acts[0]);
      RunsAreBounded(Do(s, acts[0]), acts[1..]);
    }
  }

  /** In every reachable state some goroutine is owed a step exactly when a teardown was
      triggered and is not over: it never gets stuck, and it never starts by itself. */
  lemma StuckOnlyWhenFinal(acts: seq<Action>)
    requires Possible(INITIAL, acts)
    ensures var s := After(INITIAL, acts);
            (exists a :: Guaranteed(s, a)) <==> Triggered(s) && !Final(s)
  {
    RunsAreBounded(INITIAL, acts);
    var s := After(INITIAL, acts);
    if Triggered(s) && !Final(s) {
      var a := NextStep(s);
      assert Guaranteed(s, a);
    }
  }

  /** A step that is owed in a triggered, unfinished state. */
  function NextStep(s: State): (a: Action)
    requires Inv(s) && Triggered(s) && !Final(s)
    ensures Guaranteed(s, a)
  {
    if s.upload == Returned then CopySends(Upload)
    else if s.download == Returned then CopySends(Download)
    else if s.main == Cancelling then MainCancels
    else if s.main == DeferredCancel then MainDeferredCancel
    else if s.main == ClosingRemote then MainClosesRemote
    else if s.main == ClosingLocal then MainClosesLocal
    else if s.main != MainFinished && s.queued > 0 then MainReceives
    else if s.closer == AwaitingContext then CloserWakes
    else if s.closer == SettingLocal then CloserSetsLocal
    else if s.closer == SettingRemote then CloserSetsRemote
    else if s.upload == Copying then CopyReturns(Upload)
    else CopyReturns(Download)
  }

  /** From any triggered state, serving owed steps alone ends all four goroutines. */
  lemma {:induction false} TeardownCompletes(s: State) returns (acts: seq<Action>)
    requires Inv(s) && Triggered(s)
    ensures Possible(s, acts) && Final(After(s, acts))
    ensures |acts| <= Remaining(s)
    decreases Remaining(s)
  {
    if Final(s) {
      acts := [];
    } else {
      var a := NextStep(s);
      StepKeepsInv(s, a);
      StepUsesOneUnit(s, a);
      var rest := TeardownCompletes(Do(s, a));
      acts := [a] + rest;
      assert acts[1..] == rest;
    }
  }

  /** A send on `done` never blocks: whenever a copy has returned there is room for it. */
  lemma SendsNeverBlock(acts: seq<Action>, side: Side)
    requires Possible(INITIAL, acts)
    requires After(INITIAL, acts).CopyOf(side) == Returned
    ensures Enabled(After(INITIAL, acts), CopySends(side))
  {
    RunsAreBounded(INITIAL, acts);
  }

  /** What every reachable state promises about the two connections: they are closed once the
      main goroutine is gone, never while a copy still uses them, no deadline is set before a
      teardown was triggered, and nothing is left on the channel at the end. */
  lemma ConnectionsClosedExactlyAfterCopies(acts: seq<Action>)
    requires Possible(INITIAL, acts)
    ensures var s := After(INITIAL, acts);
            && (Final(s) ==> s.localClosed && s.remoteClosed && s.queued == 0)
            && (s.localClosed || s.remoteClosed ==> s.upload == Sent && s.download == Sent)
            && (s.localDeadline || s.remoteDeadline ==> Triggered(s))
  {
    RunsAreBounded(INITIAL, acts);
  }
}
