/** The block watcher on values: what one visit of a slot, one scan, one tick, one start-up and
    one run do.  The classes of module BlockWatcher are proved to do exactly this. */
module WatcherModel {
  import opened Pools
  import opened SlotLeader
  import opened ScheduleRefresh
  import opened Upstream

  const MAX_SLOT_PER_EPOCH: int := 432000

  datatype Block = Block(epoch: int, slot: int, epochSlot: int)

  /** The block of a slot, or an error with its text. */
  datatype BlockReply = Found(slotLeader: string) | Error(message: string)

  function LowerCase(c: char): char {
    if 'A' <= c <= 'Z' then (c as int - 'A' as int + 'a' as int) as char else c
  }

  predicate MatchesAt(message: string, i: nat, pattern: string) {
    i + |pattern| <= |message| && forall k :: 0 <= k < |pattern| ==> LowerCase(message[i + k]) == pattern[k]
  }

  /** The error text contains "not found" in any case. */
  predicate SaysNotFound(message: string) {
    exists i :: 0 <= i <= |message| && MatchesAt(message, i, "not found")
  }

  datatype Outcome = Missed | Validated | Orphaned

  /** One classified leader slot, with the epoch it is counted under. */
  datatype Event = Event(pool: Pool, epoch: int, slot: int, outcome: Outcome)

  /** The answers to the queries of one tick, per pool id and slot.  A tick asks finitely many
      questions, so finite maps hold any answers at all; a read that is not listed works, and a
      block that is not listed is not there. */
  datatype Oracle = Oracle(
    emptyFaults: map<(string, int), Fault>,
    leaderFaults: map<(string, int), Fault>,
    blocks: map<(string, int), BlockReply>)
  {
    function EmptyFault(pool: string, slot: int): Fault {
      if (pool, slot) in emptyFaults then emptyFaults[(pool, slot)] else NoFault
    }

    function LeaderFault(pool: string, slot: int): Fault {
      if (pool, slot) in leaderFaults then leaderFaults[(pool, slot)] else NoFault
    }

    function BlockAt(pool: string, slot: int): BlockReply {
      if (pool, slot) in blocks then blocks[(pool, slot)] else Error("not found")
    }
  }

  /** Failing reads of queries that are asked once per pool. */
  type Faults = map<string, Fault>

  function FaultOf(faults: Faults, pool: string): Fault { if pool in faults then faults[pool] else NoFault }

  datatype Context = Context(pools: seq<Pool>, table: Table, oracle: Oracle, epoch: int)

  // ---------- visiting one slot for one pool ----------

  datatype Visit = Quiet | Classified(outcome: Outcome) | VisitFails | VisitPanics

  function LeaderVisit(p: Pool, reply: BlockReply): Visit {
    match reply
    case Error(message) => if SaysNotFound(message) then Classified(Missed) else VisitFails
    case Found(leader) => Classified(if leader == p.id then Validated else Orphaned)
  }

  function VisitOf(c: Context, p: Pool, slot: int): Visit {
    match SlotsEmptyReply(c.table, p.id, c.epoch, c.oracle.EmptyFault(p.id, slot))
    case Err => VisitFails
    case Panic => VisitPanics
    case Ok(empty) =>
      if empty && p.allowEmptySlots then Quiet
      else
        match SlotLeaderReply(c.table, p.id, slot, c.epoch, c.oracle.LeaderFault(p.id, slot))
        case Err => VisitFails
        case Panic => VisitPanics
        case Ok(leads) => if leads then LeaderVisit(p, c.oracle.BlockAt(p.id, slot)) else Quiet
  }

  function EventsOf(c: Context, p: Pool, slot: int): seq<Event> {
    var v := VisitOf(c, p, slot);
    if v.Classified? then [Event(p, c.epoch, slot, v.outcome)] else []
  }

  // ---------- scanning a range of slots ----------

  /** How a scan ends; the number is the position of the pool whose visit ended it. */
  datatype Stop = Completed | Aborted(k: nat) | Crashed(k: nat)

  datatype Pass = Pass(events: seq<Event>, stop: Stop)

  /** One slot, from the pool at position `k` on. */
  function PassFrom(c: Context, slot: int, k: nat): Pass
    requires k <= |c.pools|
    decreases |c.pools| - k
  {
    if k == |c.pools| then Pass([], Completed)
    else
      var v := VisitOf(c, c.pools[k], slot);
      if v.VisitFails? then Pass([], Aborted(k))
      else if v.VisitPanics? then Pass([], Crashed(k))
      else
        var rest := PassFrom(c, slot, k + 1);
        Pass(EventsOf(c, c.pools[k], slot) + rest.events, rest.stop)
  }

  datatype Scan = Scan(events: seq<Event>, last: int, stop: Stop)

  /** The slots from `slot` to `end`; a scan that stops early reports the slot it stopped at. */
  function ScanFrom(c: Context, slot: int, end: int): Scan
    decreases if slot <= end then end - slot + 1 else 0
  {
    if slot > end then Scan([], end, Completed)
    else
      var pass := PassFrom(c, slot, 0);
      if pass.stop != Completed then Scan(pass.events, slot, pass.stop)
      else
        var rest := ScanFrom(c, slot + 1, end);
        rest.(events := pass.events + rest.events)
  }

  // ---------- metrics ----------

  datatype Metrics = Metrics(
    missed: map<Label, nat>,
    consecutive: map<Label, nat>,
    validated: map<Label, nat>,
    orphaned: map<Label, nat>,
    nextSlotLeader: map<Label, int>,
    latestSlot: int)

  /** A metric reads zero for a label that was never touched. */
  function Read(m: map<Label, nat>, l: Label): nat { if l in m then m[l] else 0 }

  function Inc(m: map<Label, nat>, l: Label): map<Label, nat> { m[l := Read(m, l) + 1] }

  function Count(m: Metrics, e: Event): Metrics {
    var l := LabelOf(e.pool, e.epoch);
    match e.outcome
    case Missed => m.(missed := Inc(m.missed, l), consecutive := Inc(m.consecutive, l))
    case Validated => m.(validated := Inc(m.validated, l), consecutive := m.consecutive[l := 0])
    case Orphaned => m.(orphaned := Inc(m.orphaned, l))
  }

  function CountAll(m: Metrics, events: seq<Event>): Metrics
    decreases |events|
  {
    if events == [] then m else CountAll(Count(m, events[0]), events[1..])
  }

  lemma {:induction false} CountAllAppend(m: Metrics, first: seq<Event>, second: seq<Event>)
    ensures CountAll(m, first + second) == CountAll(CountAll(m, first), second)
    decreases |first|
  {
    if first == [] {
      assert first + second == second;
    } else {
      assert (first + second)[1..] == first[1..] + second;
      CountAllAppend(Count(m, first[0]), first[1..], second);
    }
  }

  /** Add(0) for every pool: creates a missing label and changes nothing else. */
  function Touch(m: map<Label, nat>, pools: seq<Pool>, epoch: int): map<Label, nat> {
    if pools == [] then m
    else
      var m' := Touch(m, pools[..|pools| - 1], epoch);
      var l := LabelOf(pools[|pools| - 1], epoch);
      m'[l := Read(m', l)]
  }

  /** The counters start over; the consecutive-miss gauge does not. */
  function ResetMetrics(m: Metrics, pools: seq<Pool>, epoch: int): Metrics {
    m.(missed := Touch(map[], pools, epoch),
       validated := Touch(map[], pools, epoch),
       orphaned := Touch(map[], pools, epoch),
       consecutive := Touch(m.consecutive, pools, epoch))
  }

  // ---------- the next-leader gauge and the empty-schedule check ----------

  datatype NextLeaders = NextLeaders(gauge: map<Label, int>, reply: Reply<bool>)

  function NextLeadersFrom(pools: seq<Pool>, table: Table, faults: Faults, height: int, epoch: int,
                           k: nat, gauge: map<Label, int>): NextLeaders
    requires k <= |pools|
    decreases |pools| - k
  {
    if k == |pools| then NextLeaders(gauge, Ok(true))
    else if pools[k].allowEmptySlots then NextLeadersFrom(pools, table, faults, height, epoch, k + 1, gauge)
    else
      match NextSlotReply(table, pools[k].id, height, epoch, FaultOf(faults, pools[k].id))
      case Err => NextLeaders(gauge, Err)
      case Panic => NextLeaders(gauge, Panic)
      case Ok(next) =>
        NextLeadersFrom(pools, table, faults, height, epoch, k + 1, gauge[LabelOf(pools[k], epoch) := next])
  }

  /** Whether each pool that must have slots has some; a failing read is passed over. */
  datatype Assigned = AllAssigned | NotAssigned(k: nat) | AssignedPanics

  function AssignedFrom(pools: seq<Pool>, table: Table, faults: Faults, epoch: int, k: nat): Assigned
    requires k <= |pools|
    decreases |pools| - k
  {
    if k == |pools| then AllAssigned
    else if pools[k].allowEmptySlots then AssignedFrom(pools, table, faults, epoch, k + 1)
    else
      match SlotsEmptyReply(table, pools[k].id, epoch, FaultOf(faults, pools[k].id))
      case Err => AssignedFrom(pools, table, faults, epoch, k + 1)
      case Panic => AssignedPanics
      case Ok(empty) => if empty then NotAssigned(k) else AssignedFrom(pools, table, faults, epoch, k + 1)
  }

  // ---------- the saved position ----------

  datatype Position = Position(epoch: int, slot: int)

  /** A row of block_watcher_state. */
  datatype StateRow = StateRow(id: int, position: Position)

  /** A write is committed, lost, or committed although an error is reported. */
  datatype Write = Committed | Lost | CommittedWithError

  function Without(rows: seq<StateRow>, id: int): (rest: seq<StateRow>)
    ensures forall r :: r in rest <==> r in rows && r.id != id
  {
    if rows == [] then []
    else (if rows[0].id == id then [] else [rows[0]]) + Without(rows[1..], id)
  }

  /** INSERT OR REPLACE with id 1. */
  function SaveRow(rows: seq<StateRow>, p: Position, write: Write): seq<StateRow> {
    if write.Lost? then rows else Without(rows, 1) + [StateRow(1, p)]
  }

  // ---------- one tick ----------

  /** A running process: its position, the saved rows, its metrics, and a record of every
      classification it made with the point of the last reset in it. */
  datatype Watcher = Watcher(position: Position, rows: seq<StateRow>, metrics: Metrics, log: seq<Event>, resetAt: nat)

  /** How a step of the process ends: go on, log an error and go on, return it, or panic. */
  datatype Flow = Continue | Logged | Returned | Panicked

  predicate Alive(f: Flow) { f.Continue? || f.Logged? }

  /** Everything the outside contributes to one tick. */
  datatype Tick = Tick(
    healthy: bool,
    latest: Answer<Block>,
    lastBlock: Answer<Block>,
    latestEpoch: Answer<int>,
    table: Table,
    oracle: Oracle,
    nextFaults: Faults,
    write: Write,
    transitionWrite: Write,
    refresh: RefreshError,
    tableAfter: Table,
    assignedFaults: Faults)

  predicate EntersNewEpoch(w: Watcher, t: Tick)
    requires t.latest.Got?
  {
    t.latest.value.epoch > w.position.epoch
  }

  /** The slot a tick wants to reach. */
  function EndSlot(w: Watcher, t: Tick): Answer<int>
    requires t.latest.Got?
  {
    if !EntersNewEpoch(w, t) then Got(t.latest.value.slot)
    else if t.lastBlock.Failure? then Failure
    else Got(t.lastBlock.value.slot + (MAX_SLOT_PER_EPOCH - t.lastBlock.value.epochSlot))
  }

  function MoveTo(w: Watcher, p: Position, write: Write): Watcher {
    w.(position := p, rows := SaveRow(w.rows, p, write))
  }

  function ScanOf(pools: seq<Pool>, w: Watcher, t: Tick, end: int): Scan {
    ScanFrom(Context(pools, t.table, t.oracle, w.position.epoch), w.position.slot + 1, end)
  }

  function Process(pools: seq<Pool>, w: Watcher, t: Tick): (Watcher, Flow)
    requires t.latest.Got?
  {
    match EndSlot(w, t)
    case Failure => (w, Logged)
    case Got(end) =>
      if w.position.slot + 1 > end then (w, Continue)
      else
        var s := ScanOf(pools, w, t, end);
        var w1 := w.(metrics := CountAll(w.metrics, s.events), log := w.log + s.events);
        var p := Position(w.position.epoch, s.last);
        match s.stop
        case Crashed(_) => (w1, Panicked)
        case Aborted(_) => (MoveTo(w1, p, t.write), Logged)
        case Completed => (MoveTo(w1, p, t.write).(metrics := w1.metrics.(latestSlot := s.last)), Continue)
  }

  /** Handling a new epoch: the position's epoch moves before anything else can fail. */
  function HandleTransition(pools: seq<Pool>, w: Watcher, t: Tick): (Watcher, Flow) {
    match t.latestEpoch
    case Failure => (w, Logged)
    case Got(epoch) =>
      var w1 := MoveTo(w, Position(epoch, w.position.slot), t.transitionWrite);
      if !t.transitionWrite.Committed? then (w1, Logged)
      else
        match t.refresh
        case RefreshFailed(leaderLogs) => (w1, if leaderLogs then Returned else Logged)
        case NoError =>
          match AssignedFrom(pools, t.tableAfter, t.assignedFaults, epoch, 0)
          case AssignedPanics => (w1, Panicked)
          case NotAssigned(_) => (w1, Logged)
          case AllAssigned => (w1, Continue)
  }

  function ResetNow(pools: seq<Pool>, w: Watcher): Watcher {
    w.(metrics := ResetMetrics(w.metrics, pools, w.position.epoch), resetAt := |w.log|)
  }

  /** The metrics start over only once the transition has gone through. */
  function Transit(pools: seq<Pool>, w: Watcher, t: Tick): (Watcher, Flow) {
    var (w1, flow) := HandleTransition(pools, w, t);
    if flow.Continue? then (ResetNow(pools, w1), flow) else (w1, flow)
  }

  /** The next-leader gauge of a tick, set for the block it sees. */
  function NextOf(pools: seq<Pool>, w: Watcher, t: Tick): NextLeaders
    requires t.latest.Got?
  {
    NextLeadersFrom(pools, t.table, t.nextFaults, t.latest.value.slot, w.position.epoch, 0, w.metrics.nextSlotLeader)
  }

  function TickOf(pools: seq<Pool>, w: Watcher, t: Tick): (Watcher, Flow) {
    if !t.healthy then (w, Continue)
    else if t.latest.Failure? then (w, Logged)
    else
      var next := NextOf(pools, w, t);
      var w0 := w.(metrics := w.metrics.(nextSlotLeader := next.gauge));
      match next.reply
      case Err => (w0, Logged)
      case Panic => (w0, Panicked)
      case Ok(_) =>
        var (w1, flow) := Process(pools, w0, t);
        if flow.Continue? && EntersNewEpoch(w, t) then Transit(pools, w1, t) else (w1, flow)
  }

  /** The ticks of one process, up to the one that ends it. */
  function Ticks(pools: seq<Pool>, w: Watcher, ts: seq<Tick>): (Watcher, Flow)
    decreases |ts|
  {
    if ts == [] then (w, Continue)
    else
      var (w1, flow) := TickOf(pools, w, ts[0]);
      if Alive(flow) then Ticks(pools, w1, ts[1..]) else (w1, flow)
  }

  // ---------- start-up ----------

  /** Everything the outside contributes to a start. */
  datatype Boot = Boot(
    currentEpoch: Answer<int>,
    stateReadable: bool,
    latest: Answer<Block>,
    firstBlock: Answer<Block>,
    write: Write,
    table: Table,
    assignedFaults: Faults)

  datatype Loaded = Loaded(position: Position, rows: seq<StateRow>, ok: bool)

  function Load(rows: seq<StateRow>, initial: Position, b: Boot): Loaded {
    if !b.stateReadable then Loaded(initial, rows, false)
    else if rows != [] then Loaded(rows[0].position, rows, true)
    else if b.latest.Failure? then Loaded(initial, rows, false)
    else Loaded(Position(b.latest.value.epoch, b.latest.value.slot), rows, true)
  }

  /** Loads the saved position; in a newer epoch it jumps to that epoch's first block. */
  function LoadAndReconcile(rows: seq<StateRow>, initial: Position, b: Boot, currentEpoch: int): Loaded {
    var l := Load(rows, initial, b);
    if !l.ok || currentEpoch <= l.position.epoch then l
    else if b.firstBlock.Failure? then l.(ok := false)
    else
      var p := Position(currentEpoch, b.firstBlock.value.slot);
      Loaded(p, SaveRow(rows, p, b.write), b.write.Committed?)
  }

  const NO_METRICS := Metrics(map[], map[], map[], map[], map[], 0)
  const NOWHERE := Position(0, 0)

  function StartUp(pools: seq<Pool>, rows: seq<StateRow>, b: Boot): (Watcher, Flow) {
    if b.currentEpoch.Failure? then (Watcher(NOWHERE, rows, NO_METRICS, [], 0), Returned)
    else
      var l := LoadAndReconcile(rows, NOWHERE, b, b.currentEpoch.value);
      if !l.ok then (Watcher(l.position, l.rows, NO_METRICS, [], 0), Returned)
      else
        var w := ResetNow(pools, Watcher(l.position, l.rows, NO_METRICS, [], 0));
        match AssignedFrom(pools, b.table, b.assignedFaults, l.position.epoch, 0)
        case AllAssigned => (w, Continue)
        case NotAssigned(_) => (w, Returned)
        case AssignedPanics => (w, Panicked)
  }

  function Lifetime(pools: seq<Pool>, rows: seq<StateRow>, b: Boot, ts: seq<Tick>): (Watcher, Flow) {
    var (w, flow) := StartUp(pools, rows, b);
    if flow.Continue? then Ticks(pools, w, ts) else (w, flow)
  }
}
