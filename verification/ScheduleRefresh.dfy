/** Filling the `slots` table.  Any number of refresh calls, each with one task per active
    pool, run at once; every SQL statement and every gauge write is one atomic step.
    Restricting concurrency only removes interleavings, so none is restricted here. */
module ScheduleRefresh {
  import opened Pools
  import opened SlotLeader

  datatype Label = Label(name: string, id: string, instance: string, epoch: int)

  function LabelOf(p: Pool, epoch: int): Label { Label(p.name, p.id, p.instance, epoch) }

  /** The table and the ExpectedBlocks gauge. */
  datatype Store = Store(table: Table, expected: map<Label, int>)

  /** Where the task of one pool stands; Computed carries the slots about to be inserted,
      Fetched the quantity about to be published. */
  datatype Pc =
    | Checking
    | Computing
    | Computed(slots: seq<int>)
    | Fetching
    | Fetched(qty: int)
    | Succeeded
    | Failed(leaderLogs: bool)

  datatype Task = Task(pool: Pool, epoch: int, pc: Pc)

  /** The environment's share of a step: a statement that works, that fails, or that reports an
      error although a write was committed; or the slots the leader-log computation returned. */
  datatype Input = Fine | Fails | CommitsWithError | Slots(slots: seq<int>)

  /** The statement reports an error. */
  predicate Errs(input: Input) { input.Fails? || input.CommitsWithError? }

  predicate Running(t: Task) { !t.pc.Succeeded? && !t.pc.Failed? }

  function Inserted(table: Table, p: Pool, epoch: int, slots: seq<int>): Table {
    table + [Row(|table| + 1, epoch, p.id, |slots|, slots)]
  }

  /** How many steps a task can still take. */
  function PcRank(pc: Pc): nat {
    match pc
    case Checking => 5 case Computing => 4 case Computed(_) => 3 case Fetching => 2 case Fetched(_) => 1 case _ => 0
  }

  /** One atomic step of a task. */
  function StepTask(s: Store, t: Task, input: Input): (r: (Store, Task))
    requires Running(t)
    ensures r.1.pool == t.pool && r.1.epoch == t.epoch && PcRank(r.1.pc) < PcRank(t.pc)
  {
    match t.pc
    case Checking =>
      if Errs(input) then (s, t.(pc := Failed(false)))
      else (s, t.(pc := if HasRow(s.table, t.pool.id, t.epoch) then Fetching else Computing))
    case Computing =>
      (s, t.(pc := if input.Slots? then Computed(input.slots) else Failed(true)))
    case Computed(slots) =>
      if input.Fails? || HasRow(s.table, t.pool.id, t.epoch) then (s, t.(pc := Failed(false)))
      else
        (s.(table := Inserted(s.table, t.pool, t.epoch, slots)),
         t.(pc := if Errs(input) then Failed(false) else Fetching))
    case Fetching =>
      if Errs(input) || !HasRow(s.table, t.pool.id, t.epoch) then (s, t.(pc := Failed(false)))
      else (s, t.(pc := Fetched(Quantity(s.table, t.pool.id, t.epoch))))
    case Fetched(qty) =>
      (s.(expected := s.expected[LabelOf(t.pool, t.epoch) := qty]), t.(pc := Succeeded))
  }

  datatype World = World(store: Store, tasks: seq<Task>)

  /** A refresh call starts the tasks of its active pools, or one task takes a step. */
  datatype Action = Start(pools: seq<Pool>, epoch: int) | Advance(k: nat, input: Input)

  function NewTasks(pools: seq<Pool>, epoch: int): (tasks: seq<Task>)
    ensures |tasks| == |pools| && forall i :: 0 <= i < |pools| ==> tasks[i] == Task(pools[i], epoch, Checking)
  {
    seq(|pools|, i requires 0 <= i < |pools| => Task(pools[i], epoch, Checking))
  }

  predicate Enabled(w: World, a: Action) {
    a.Advance? ==> a.k < |w.tasks| && Running(w.tasks[a.k])
  }

  function Do(w: World, a: Action): World
    requires Enabled(w, a)
  {
    match a
    case Start(pools, epoch) => w.(tasks := w.tasks + NewTasks(pools, epoch))
    case Advance(k, input) =>
      var (s, t) := StepTask(w.store, w.tasks[k], input);
      World(s, w.tasks[k := t])
  }

  predicate Possible(w: World, acts: seq<Action>)
    decreases |acts|
  {
    acts == [] || (Enabled(w, acts[0]) && Possible(Do(w, acts[0]), acts[1..]))
  }

  function After(w: World, acts: seq<Action>): World
    requires Possible(w, acts)
    decreases |acts|
  {
    if acts == [] then w else After(Do(w, acts[0]), acts[1..])
  }

  // ---------- the invariant ----------

  /** The schedule of (pool, epoch) is stored and its quantity is what the gauge shows. */
  predicate Published(s: Store, p: Pool, epoch: int) {
    && HasRow(s.table, p.id, epoch)
    && LabelOf(p, epoch) in s.expected
    && s.expected[LabelOf(p, epoch)] == Quantity(s.table, p.id, epoch)
  }

  predicate GoodStore(s: Store) {
    && UniqueKeys(s.table)
    && Counted(s.table)
    && forall l :: l in s.expected ==>
        HasRow(s.table, l.id, l.epoch) && s.expected[l] == Quantity(s.table, l.id, l.epoch)
  }

  predicate GoodTask(s: Store, t: Task) {
    && (t.pc.Fetching? ==> HasRow(s.table, t.pool.id, t.epoch))
    && (t.pc.Fetched? ==> HasRow(s.table, t.pool.id, t.epoch) && t.pc.qty == Quantity(s.table, t.pool.id, t.epoch))
    && (t.pc.Succeeded? ==> Published(s, t.pool, t.epoch))
  }

  /** Holds, among others, of an empty table with no tasks. */
  predicate Inv(w: World) {
    GoodStore(w.store) && forall k :: 0 <= k < |w.tasks| ==> GoodTask(w.store, w.tasks[k])
  }

  lemma InsertIsSelected(table: Table, row: Row)
    requires !HasRow(table, row.pool, row.epoch)
    ensures Select(table + [row], row.pool, row.epoch) == [row]
  {
    SelectOneMore(table, row, row.pool, row.epoch);
  }

  lemma KeyIsNew(table: Table, i: nat, pool: string, epoch: int)
    requires i < |table| && !HasRow(table, pool, epoch)
    ensures table[i].epoch != epoch || table[i].pool != pool
  {
    assert table[i] in table;
    assert table[i] !in Select(table, pool, epoch);
  }

  /** A row with a new key and the right quantity keeps the table well formed. */
  lemma RowKeepsTable(table: Table, row: Row)
    requires UniqueKeys(table) && Counted(table) && !HasRow(table, row.pool, row.epoch) && row.qty == |row.slots|
    ensures UniqueKeys(table + [row]) && Counted(table + [row])
  {
    hide HasRow;
    forall i | 0 <= i < |table|
      ensures table[i].epoch != row.epoch || table[i].pool != row.pool
    {
      KeyIsNew(table, i, row.pool, row.epoch);
    }
  }

  lemma InsertKeepsTable(table: Table, p: Pool, epoch: int, slots: seq<int>)
    requires UniqueKeys(table) && Counted(table) && !HasRow(table, p.id, epoch)
    ensures var table' := Inserted(table, p, epoch, slots);
            && UniqueKeys(table') && Counted(table')
            && Select(table', p.id, epoch) == [table'[|table|]]
  {
    hide UniqueKeys, Counted, HasRow, Select;
    var row := Row(|table| + 1, epoch, p.id, |slots|, slots);
    InsertIsSelected(table, row);
    RowKeepsTable(table, row);
  }

  /** What holds of a task or a gauge keeps holding while the store only grows. */
  predicate Grows(s: Store, s': Store) {
    && s.table <= s'.table
    && UniqueKeys(s'.table)
    && forall l :: l in s.expected ==> l in s'.expected && s'.expected[l] == s.expected[l]
  }

  lemma GoodTaskStays(s: Store, s': Store, t: Task)
    requires Grows(s, s') && GoodTask(s, t)
    ensures GoodTask(s', t)
  {
    if HasRow(s.table, t.pool.id, t.epoch) {
      RowsPersist(s.table, s'.table, t.pool.id, t.epoch);
    }
  }

  lemma InsertKeepsStore(s: Store, p: Pool, epoch: int, slots: seq<int>)
    requires GoodStore(s) && !HasRow(s.table, p.id, epoch)
    ensures var s' := s.(table := Inserted(s.table, p, epoch, slots));
            GoodStore(s') && Grows(s, s') && HasRow(s'.table, p.id, epoch)
  {
    InsertKeepsTable(s.table, p, epoch, slots);
    var table' := Inserted(s.table, p, epoch, slots);
    forall l | l in s.expected
      ensures HasRow(table', l.id, l.epoch) && s.expected[l] == Quantity(table', l.id, l.epoch)
    {
      RowsPersist(s.table, table', l.id, l.epoch);
    }
  }

  lemma StepKeepsStore(s: Store, t: Task, input: Input)
    requires GoodStore(s) && GoodTask(s, t) && Running(t)
    ensures var (s', t') := StepTask(s, t, input);
            GoodStore(s') && GoodTask(s', t') && Grows(s, s')
  {
    hide Select, Counted;
    if t.pc.Computed? {
      if !input.Fails? && !HasRow(s.table, t.pool.id, t.epoch) {
        InsertKeepsStore(s, t.pool, t.epoch, t.pc.slots);
      }
    } else if t.pc.Fetched? {
      PublishKeepsStore(s, t);
    }
  }

  lemma PublishKeepsStore(s: Store, t: Task)
    requires GoodStore(s) && GoodTask(s, t) && t.pc.Fetched?
    ensures var s' := s.(expected := s.expected[LabelOf(t.pool, t.epoch) := t.pc.qty]);
            GoodStore(s') && Grows(s, s') && Published(s', t.pool, t.epoch)
  {
  }

  lemma ActionKeepsInv(w: World, a: Action)
    requires Inv(w) && Enabled(w, a)
    ensures Inv(Do(w, a)) && Grows(w.store, Do(w, a).store)
  {
    match a
    case Start(pools, epoch) =>
    case Advance(k, input) =>
      StepKeepsStore(w.store, w.tasks[k], input);
      var w' := Do(w, a);
      forall j | 0 <= j < |w'.tasks|
        ensures GoodTask(w'.store, w'.tasks[j])
      {
        if j != k {
          GoodTaskStays(w.store, w'.store, w.tasks[j]);
        }
      }
  }

  /** Under every interleaving: keys stay unique, quantities count their slots, rows and
      published gauges never change once written. */
  lemma {:induction false} TableSafety(w: World, acts: seq<Action>)
    requires Inv(w) && Possible(w, acts)
    ensures Inv(After(w, acts)) && Grows(w.store, After(w, acts).store)
    ensures |w.tasks| <= |After(w, acts).tasks|
    decreases |acts|
  {
    if acts != [] {
      ActionKeepsInv(w, acts[0]);
      TableSafety(Do(w, acts[0]), acts[1..]);
    }
  }

  /** A task that has ended stays as it is. */
  lemma {:induction false} EndedTasksStay(w: World, acts: seq<Action>, k: nat)
    requires Possible(w, acts) && k < |w.tasks| && !Running(w.tasks[k])
    ensures k < |After(w, acts).tasks| && After(w, acts).tasks[k] == w.tasks[k]
    decreases |acts|
  {
    if acts != [] {
      EndedTasksStay(Do(w, acts[0]), acts[1..], k);
    }
  }

  // ---------- what the invariant gives ----------

  /** A task whose insert meets a row of its key fails and leaves the store alone, as does one whose
      insert is lost; any other insert, reported as failed or not, stores the key for the first time. */
  lemma LosingRacerFails(w: World, k: nat, input: Input)
    requires Inv(w) && k < |w.tasks| && w.tasks[k].pc.Computed?
    ensures var t := w.tasks[k]; var w' := Do(w, Advance(k, input));
            var stores := !input.Fails? && !HasRow(w.store.table, t.pool.id, t.epoch);
            && (w'.tasks[k].pc.Failed? <==> !stores || input.CommitsWithError?)
            && (!stores ==> w'.store == w.store)
            && (stores ==> Select(w'.store.table, t.pool.id, t.epoch) == [w'.store.table[|w.store.table|]]
                           && Schedule(w'.store.table, t.pool.id, t.epoch) == t.pc.slots)
  {
    hide GoodTask, Select;
    var t := w.tasks[k];
    if !input.Fails? && !HasRow(w.store.table, t.pool.id, t.epoch) {
      InsertIsSelected(w.store.table, Row(|w.store.table| + 1, t.epoch, t.pool.id, |t.pc.slots|, t.pc.slots));
    }
  }

  /** The action is an insert that stores a row of the key. */
  predicate Wins(w: World, a: Action, pool: string, epoch: int)
    requires Enabled(w, a)
  {
    && a.Advance? && w.tasks[a.k].pc.Computed?
    && w.tasks[a.k].pool.id == pool && w.tasks[a.k].epoch == epoch
    && Do(w, a).store.table != w.store.table
  }

  /** How many inserts of the key store a row in a run. */
  function Winners(w: World, acts: seq<Action>, pool: string, epoch: int): nat
    requires Possible(w, acts)
    decreases |acts|
  {
    if acts == [] then 0
    else (if Wins(w, acts[0], pool, epoch) then 1 else 0) + Winners(Do(w, acts[0]), acts[1..], pool, epoch)
  }

  /** What a step does to the table: nothing, or one more row of the task's key. */
  lemma StepTable(s: Store, t: Task, input: Input)
    requires Running(t)
    ensures var table' := StepTask(s, t, input).0.table;
            || table' == s.table
            || (t.pc.Computed? && !HasRow(s.table, t.pool.id, t.epoch)
                && table' == s.table + [Row(|s.table| + 1, t.epoch, t.pool.id, |t.pc.slots|, t.pc.slots)])
  {
    hide HasRow;
  }

  lemma WinnerStoresTheRow(w: World, a: Action, pool: string, epoch: int)
    requires Enabled(w, a)
    ensures |Select(Do(w, a).store.table, pool, epoch)|
         == |Select(w.store.table, pool, epoch)| + if Wins(w, a, pool, epoch) then 1 else 0
  {
    hide Select, HasRow, StepTask;
    if a.Advance? {
      var table, t := w.store.table, w.tasks[a.k];
      StepTable(w.store, t, a.input);
      if Do(w, a).store.table != table {
        var row := Row(|table| + 1, t.epoch, t.pool.id, |t.pc.slots|, t.pc.slots);
        SelectOneMore(table, row, pool, epoch);
      }
    }
  }

  /** Of all the tasks that ever race for a key, in all refresh calls together, at most one stores its
      slots, whether or not it is told so: exactly one if the key had no row and has one in the end,
      and none otherwise. */
  lemma {:induction false} OneWinnerPerKey(w: World, acts: seq<Action>, pool: string, epoch: int)
    requires Inv(w) && Possible(w, acts)
    ensures Winners(w, acts, pool, epoch) ==
              if !HasRow(w.store.table, pool, epoch) && HasRow(After(w, acts).store.table, pool, epoch) then 1 else 0
    decreases |acts|
  {
    hide Inv, Do, Wins, Enabled;
    RowsAddUp(w, acts, pool, epoch);
    TableSafety(w, acts);
    UniqueWhenInv(w);
    UniqueWhenInv(After(w, acts));
    AtMostOneRow(w.store.table, pool, epoch);
    AtMostOneRow(After(w, acts).store.table, pool, epoch);
  }

  lemma UniqueWhenInv(w: World)
    requires Inv(w)
    ensures UniqueKeys(w.store.table)
  {
  }

  lemma {:induction false} RowsAddUp(w: World, acts: seq<Action>, pool: string, epoch: int)
    requires Inv(w) && Possible(w, acts)
    ensures |Select(After(w, acts).store.table, pool, epoch)|
         == |Select(w.store.table, pool, epoch)| + Winners(w, acts, pool, epoch)
    decreases |acts|
  {
    hide Inv, Do, Wins, Enabled;
    if acts != [] {
      ActionKeepsInv(w, acts[0]);
      WinnerStoresTheRow(w, acts[0], pool, epoch);
      RowsAddUp(Do(w, acts[0]), acts[1..], pool, epoch);
    }
  }

  /** The refresh call that started the tasks lo, ..., lo + |pools| - 1 for `epoch` returned nil. */
  predicate ReturnedNil(w: World, lo: nat, pools: seq<Pool>, epoch: int) {
    && lo + |pools| <= |w.tasks|
    && forall i :: 0 <= i < |pools| ==> w.tasks[lo + i] == Task(pools[i], epoch, Succeeded)
  }

  /** Once a refresh has returned nil, every active pool has exactly one row for the epoch and a
      gauge equal to its number of slots, from then on and whatever else runs. */
  lemma NilRefreshMeansPublished(w: World, acts: seq<Action>, lo: nat, pools: seq<Pool>, epoch: int, p: Pool)
    requires Inv(w) && Possible(w, acts)
    requires ReturnedNil(w, lo, pools, epoch) && p in pools
    ensures var s := After(w, acts).store;
            && Published(s, p, epoch)
            && |Select(s.table, p.id, epoch)| == 1
            && s.expected[LabelOf(p, epoch)] == |Schedule(s.table, p.id, epoch)|
            && Schedule(s.table, p.id, epoch) == Schedule(w.store.table, p.id, epoch)
  {
    var i :| 0 <= i < |pools| && pools[i] == p;
    var s := After(w, acts).store;
    TableSafety(w, acts);
    GoodTaskStays(w.store, s, w.tasks[lo + i]);
    PublishedRow(w.store, s, p, epoch);
  }

  lemma PublishedRow(s: Store, s': Store, p: Pool, epoch: int)
    requires GoodStore(s') && Grows(s, s') && HasRow(s.table, p.id, epoch)
    ensures |Select(s'.table, p.id, epoch)| == 1
    ensures Quantity(s'.table, p.id, epoch) == |Schedule(s'.table, p.id, epoch)|
    ensures Schedule(s'.table, p.id, epoch) == Schedule(s.table, p.id, epoch)
  {
    RowsPersist(s.table, s'.table, p.id, epoch);
    AtMostOneRow(s'.table, p.id, epoch);
    EmptyByEitherCount(s'.table, p.id, epoch);
  }

  predicate IsTaskOf(tasks: seq<Task>, pool: string, epoch: int) {
    exists k :: 0 <= k < |tasks| && tasks[k].pool.id == pool && tasks[k].epoch == epoch
  }

  lemma {:induction false} TasksKeepTheirKeys(w: World, acts: seq<Action>, pool: string, epoch: int)
    requires Possible(w, acts) && IsTaskOf(w.tasks, pool, epoch)
    ensures IsTaskOf(After(w, acts).tasks, pool, epoch)
    decreases |acts|
  {
    if acts != [] {
      var k :| 0 <= k < |w.tasks| && w.tasks[k].pool.id == pool && w.tasks[k].epoch == epoch;
      var w' := Do(w, acts[0]);
      assert w'.tasks[k].pool.id == pool && w'.tasks[k].epoch == epoch;
      TasksKeepTheirKeys(w', acts[1..], pool, epoch);
    }
  }

  /** Refreshing adds only missing rows: every row that a run adds belongs to a task of that run
      and has a key that had no row before, so a repeated refresh completes a partly failed one
      and touches nothing else. */
  lemma {:induction false} OnlyMissingRowsAreAdded(w: World, acts: seq<Action>, j: nat)
    requires Inv(w) && Possible(w, acts)
    requires |w.store.table| <= j < |After(w, acts).store.table|
    ensures var r := After(w, acts).store.table[j];
            !HasRow(w.store.table, r.pool, r.epoch) && IsTaskOf(After(w, acts).tasks, r.pool, r.epoch)
    decreases |acts|
  {
    TableSafety(w, acts);
    var table' := After(w, acts).store.table;
    var r := table'[j];
    assert acts != [];
    var w1 := Do(w, acts[0]);
    ActionKeepsInv(w, acts[0]);
    if |w1.store.table| <= j {
      OnlyMissingRowsAreAdded(w1, acts[1..], j);
    } else {
      TableSafety(w1, acts[1..]);
      assert r == w1.store.table[j];
      var t := w1.tasks[acts[0].k];
      assert t.pool.id == r.pool && t.epoch == r.epoch;
      TasksKeepTheirKeys(w1, acts[1..], r.pool, r.epoch);
    }
  }

  /** Every task there is, and every task the run starts, refreshes a key that is published. */
  predicate AllPublished(w: World, acts: seq<Action>) {
    && (forall k :: 0 <= k < |w.tasks| && Running(w.tasks[k]) ==> Published(w.store, w.tasks[k].pool, w.tasks[k].epoch))
    && (forall i, p :: 0 <= i < |acts| && acts[i].Start? && p in acts[i].pools ==> Published(w.store, p, acts[i].epoch))
  }

  lemma PublishedStepChangesNothing(s: Store, t: Task, input: Input)
    requires Running(t) && GoodTask(s, t) && Published(s, t.pool, t.epoch)
    ensures StepTask(s, t, input).0 == s
    ensures StepTask(s, t, input).1.pool == t.pool && StepTask(s, t, input).1.epoch == t.epoch
  {
    assert StepTask(s, t, input).0.expected == s.expected;
  }

  lemma PublishedActionChangesNothing(w: World, acts: seq<Action>)
    requires Inv(w) && Possible(w, acts) && acts != [] && AllPublished(w, acts)
    ensures Do(w, acts[0]).store == w.store
    ensures AllPublished(Do(w, acts[0]), acts[1..])
  {
    hide StepTask, Published, GoodTask, GoodStore;
    var w1 := Do(w, acts[0]);
    if acts[0].Advance? {
      var k := acts[0].k;
      assert GoodTask(w.store, w.tasks[k]);
      PublishedStepChangesNothing(w.store, w.tasks[k], acts[0].input);
    }
    forall k | 0 <= k < |w1.tasks| && Running(w1.tasks[k])
      ensures Published(w1.store, w1.tasks[k].pool, w1.tasks[k].epoch)
    {
      if |w.tasks| <= k {
        assert w1.tasks[k].pool in acts[0].pools;
      } else {
        assert w1.tasks[k].pool == w.tasks[k].pool && w1.tasks[k].epoch == w.tasks[k].epoch;
      }
    }
  }

  /** Refreshing again what has been refreshed, in any number of concurrent calls, changes neither
      the table nor a gauge. */
  lemma {:induction false} CompletedRefreshIsIdempotent(w: World, acts: seq<Action>)
    requires Inv(w) && Possible(w, acts) && AllPublished(w, acts)
    ensures After(w, acts).store == w.store
    decreases |acts|
  {
    if acts != [] {
      var w1 := Do(w, acts[0]);
      ActionKeepsInv(w, acts[0]);
      PublishedActionChangesNothing(w, acts);
      CompletedRefreshIsIdempotent(w1, acts[1..]);
    }
  }

  /** The task has had no part in a leader-log computation. */
  predicate AsksNoLeaderLog(t: Task) {
    !t.pc.Computing? && !t.pc.Computed? && t.pc != Failed(true)
  }

  /** Every task from number `n` on whose key was already stored in `table` asks for no leader log. */
  predicate StoredKeysAskNothing(w: World, n: nat, table: Table) {
    forall k :: n <= k < |w.tasks| && HasRow(table, w.tasks[k].pool.id, w.tasks[k].epoch) ==> AsksNoLeaderLog(w.tasks[k])
  }

  lemma StoredStepAsksNothing(w: World, a: Action, n: nat, table: Table)
    requires Inv(w) && Enabled(w, a) && table <= w.store.table && StoredKeysAskNothing(w, n, table)
    ensures StoredKeysAskNothing(Do(w, a), n, table)
  {
    hide GoodTask, GoodStore, StepTask, Running;
    if a.Advance? {
      var t := w.tasks[a.k];
      StepAsksNothing(w.store, t, a.input, table);
    }
  }

  lemma StepAsksNothing(s: Store, t: Task, input: Input, table: Table)
    requires GoodStore(s) && Running(t) && table <= s.table
    ensures var t' := StepTask(s, t, input).1;
            && t'.pool == t.pool && t'.epoch == t.epoch
            && (HasRow(table, t.pool.id, t.epoch) && AsksNoLeaderLog(t) ==> AsksNoLeaderLog(t'))
  {
    if HasRow(table, t.pool.id, t.epoch) {
      RowsPersist(table, s.table, t.pool.id, t.epoch);
    }
  }

  /** What has been computed ahead is not computed again: whatever runs at once, no task started
      after its row was stored ever asks for a leader log, so none of them can fail with the one
      error that the block watcher gives up on. */
  lemma {:induction false} PrecomputedNeedsNoLeaderLog(w: World, acts: seq<Action>, n: nat, table: Table)
    requires Inv(w) && Possible(w, acts)
    requires table <= w.store.table && StoredKeysAskNothing(w, n, table)
    ensures StoredKeysAskNothing(After(w, acts), n, table)
    decreases |acts|
  {
    hide Inv, Do, StoredKeysAskNothing, Enabled;
    if acts != [] {
      ActionKeepsInv(w, acts[0]);
      StoredStepAsksNothing(w, acts[0], n, table);
      PrecomputedNeedsNoLeaderLog(Do(w, acts[0]), acts[1..], n, table);
    }
  }

  /** A task run by nobody else in between. */
  datatype TaskInputs = TaskInputs(check: Input, compute: Input, insert: Input, fetch: Input)

  function InputFor(inputs: TaskInputs, pc: Pc): Input {
    match pc
    case Checking => inputs.check
    case Computing => inputs.compute
    case Computed(_) => inputs.insert
    case _ => inputs.fetch
  }

  function RunAlone(s: Store, t: Task, inputs: TaskInputs): (Store, Task)
    decreases PcRank(t.pc)
  {
    if !Running(t) then (s, t)
    else
      var (s', t') := StepTask(s, t, InputFor(inputs, t.pc));
      RunAlone(s', t', inputs)
  }

  /** The store and the end of a task that nobody interferes with. */
  function AloneResult(s: Store, p: Pool, epoch: int, inputs: TaskInputs): (Store, Pc) {
    var present := HasRow(s.table, p.id, epoch);
    if Errs(inputs.check) then (s, Failed(false))
    else if !present && !inputs.compute.Slots? then (s, Failed(true))
    else if !present && inputs.insert.Fails? then (s, Failed(false))
    else
      var table := if present then s.table else Inserted(s.table, p, epoch, inputs.compute.slots);
      if (!present && Errs(inputs.insert)) || Errs(inputs.fetch) || !HasRow(table, p.id, epoch) then
        (Store(table, s.expected), Failed(false))
      else
        (Store(table, s.expected[LabelOf(p, epoch) := Quantity(table, p.id, epoch)]), Succeeded)
  }

  lemma AloneStep(s: Store, t: Task, inputs: TaskInputs, s': Store, t': Task)
    requires Running(t) && StepTask(s, t, InputFor(inputs, t.pc)) == (s', t')
    ensures RunAlone(s, t, inputs) == RunAlone(s', t', inputs)
    ensures !Running(t') ==> RunAlone(s, t, inputs) == (s', t')
  {
  }

  /** Running the five steps of a task one after the other gives that result. */
  lemma AloneIsStepByStep(s: Store, p: Pool, epoch: int, inputs: TaskInputs)
    ensures var (s', end) := AloneResult(s, p, epoch, inputs);
            RunAlone(s, Task(p, epoch, Checking), inputs) == (s', Task(p, epoch, end))
  {
    var t := Task(p, epoch, Checking);
    var (s1, t1) := StepTask(s, t, inputs.check);
    AloneStep(s, t, inputs, s1, t1);
    if t1.pc.Fetching? {
      FetchAndPublish(s, p, epoch, inputs);
    } else if t1.pc.Computing? {
      var (_, t2) := StepTask(s, t1, inputs.compute);
      AloneStep(s, t1, inputs, s, t2);
      if t2.pc.Computed? {
        var (s3, t3) := StepTask(s, t2, inputs.insert);
        AloneStep(s, t2, inputs, s3, t3);
        if t3.pc.Fetching? {
          FetchAndPublish(s3, p, epoch, inputs);
        }
      }
    }
  }

  lemma FetchAndPublish(s: Store, p: Pool, epoch: int, inputs: TaskInputs)
    ensures RunAlone(s, Task(p, epoch, Fetching), inputs) ==
            if Errs(inputs.fetch) || !HasRow(s.table, p.id, epoch) then (s, Task(p, epoch, Failed(false)))
            else (s.(expected := s.expected[LabelOf(p, epoch) := Quantity(s.table, p.id, epoch)]), Task(p, epoch, Succeeded))
  {
    var t := Task(p, epoch, Fetching);
    var (_, t1) := StepTask(s, t, inputs.fetch);
    AloneStep(s, t, inputs, s, t1);
    if t1.pc.Fetched? {
      var (s2, t2) := StepTask(s, t1, inputs.fetch);
      AloneStep(s, t1, inputs, s2, t2);
    }
  }

  lemma AloneKeepsStore(s: Store, p: Pool, epoch: int, inputs: TaskInputs)
    requires GoodStore(s)
    ensures var (s', end) := AloneResult(s, p, epoch, inputs);
            && GoodStore(s') && Grows(s, s')
            && (end.Succeeded? ==> Published(s', p, epoch))
            && (Published(s, p, epoch) ==> s' == s)
  {
    hide AloneResult, RunAlone, GoodStore, Grows, Published;
    AloneIsStepByStep(s, p, epoch, inputs);
    RunAloneKeepsStore(s, Task(p, epoch, Checking), inputs);
    if Published(s, p, epoch) {
      AloneRepeats(s, p, epoch, inputs);
    }
  }

  lemma AloneRepeats(s: Store, p: Pool, epoch: int, inputs: TaskInputs)
    requires Published(s, p, epoch)
    ensures AloneResult(s, p, epoch, inputs).0 == s
  {
    assert AloneResult(s, p, epoch, inputs).0.expected == s.expected;
  }

  lemma {:induction false} RunAloneKeepsStore(s: Store, t: Task, inputs: TaskInputs)
    requires GoodStore(s) && GoodTask(s, t)
    ensures var (s', t') := RunAlone(s, t, inputs); GoodStore(s') && GoodTask(s', t') && Grows(s, s')
    decreases PcRank(t.pc)
  {
    if Running(t) {
      StepKeepsStore(s, t, InputFor(inputs, t.pc));
      var (s', t') := StepTask(s, t, InputFor(inputs, t.pc));
      RunAloneKeepsStore(s', t', inputs);
    }
  }

  // ---------- exactly how a task ends ----------

  /** The task gets to the leader-log computation. */
  predicate Asks(s: Store, p: Pool, epoch: int, inputs: TaskInputs) {
    !Errs(inputs.check) && !HasRow(s.table, p.id, epoch)
  }

  /** It gets there and is given no slots. */
  predicate AsksInVain(s: Store, p: Pool, epoch: int, inputs: TaskInputs) {
    Asks(s, p, epoch, inputs) && !inputs.compute.Slots?
  }

  /** It is given slots and its insert is not lost. */
  predicate Stores(s: Store, p: Pool, epoch: int, inputs: TaskInputs) {
    Asks(s, p, epoch, inputs) && inputs.compute.Slots? && !inputs.insert.Fails?
  }

  /** No statement it reaches reports an error, and its row is there or slots are given. */
  predicate AllWorks(s: Store, p: Pool, epoch: int, inputs: TaskInputs) {
    && !Errs(inputs.check) && !Errs(inputs.fetch)
    && (HasRow(s.table, p.id, epoch) || (inputs.compute.Slots? && !Errs(inputs.insert)))
  }

  /** What the table and the gauge are after the task. */
  ghost predicate TaskLeaves(s: Store, p: Pool, epoch: int, inputs: TaskInputs, s': Store) {
    && s'.table == (if Stores(s, p, epoch, inputs) then
                      s.table + [Row(|s.table| + 1, epoch, p.id, |inputs.compute.slots|, inputs.compute.slots)]
                    else s.table)
    && (AllWorks(s, p, epoch, inputs) ==> Published(s', p, epoch))
    && (forall l :: l != LabelOf(p, epoch) || !AllWorks(s, p, epoch, inputs) ==>
          (l in s'.expected <==> l in s.expected) && (l in s.expected ==> s'.expected[l] == s.expected[l]))
  }

  /** A task by itself always ends.  It succeeds if and only if all it meets works, and it fails with
      the leader-log error if and only if the check works, there is no row and no slots are given.
      It adds the row of the slots given, unless the insert is lost, and nothing else. */
  lemma TaskEndsExactly(s: Store, p: Pool, epoch: int, inputs: TaskInputs)
    ensures var (s', t) := RunAlone(s, Task(p, epoch, Checking), inputs);
            && (t.pc.Succeeded? || t.pc.Failed?)
            && (t.pc.Succeeded? <==> AllWorks(s, p, epoch, inputs))
            && (t.pc == Failed(true) <==> AsksInVain(s, p, epoch, inputs))
            && TaskLeaves(s, p, epoch, inputs, s')
  {
    hide RunAlone, Select;
    AloneIsStepByStep(s, p, epoch, inputs);
    AloneEnds(s, p, epoch, inputs);
    if Stores(s, p, epoch, inputs) {
      InsertIsSelected(s.table, Row(|s.table| + 1, epoch, p.id, |inputs.compute.slots|, inputs.compute.slots));
    }
  }

  /** So where everything works the slots given are stored, or the row there was is kept. */
  lemma WorkingTaskPublishes(s: Store, p: Pool, epoch: int, inputs: TaskInputs)
    requires AllWorks(s, p, epoch, inputs)
    ensures var (s', t) := RunAlone(s, Task(p, epoch, Checking), inputs);
            && t.pc.Succeeded? && Published(s', p, epoch)
            && (!HasRow(s.table, p.id, epoch) ==>
                  Schedule(s'.table, p.id, epoch) == inputs.compute.slots
                  && s'.expected[LabelOf(p, epoch)] == |inputs.compute.slots|)
            && (HasRow(s.table, p.id, epoch) ==> s'.table == s.table)
  {
    hide RunAlone, Select;
    TaskEndsExactly(s, p, epoch, inputs);
    if !HasRow(s.table, p.id, epoch) {
      InsertIsSelected(s.table, Row(|s.table| + 1, epoch, p.id, |inputs.compute.slots|, inputs.compute.slots));
    }
  }

  // ---------- a task among others ----------

  predicate StepOf(a: Action, k: nat) { a.Advance? && a.k == k }

  /** In the run, the statements of task `k` work, it is given the slots `xs`, and no other task
      stores a row of its key. */
  predicate WellServed(w: World, acts: seq<Action>, k: nat, xs: seq<int>)
    requires Possible(w, acts) && k < |w.tasks|
    decreases |acts|
  {
    acts != [] ==>
      && (StepOf(acts[0], k) ==>
            !Errs(acts[0].input) && (w.tasks[k].pc.Computing? ==> acts[0].input == Slots(xs)))
      && (!StepOf(acts[0], k) ==> !Wins(w, acts[0], w.tasks[k].pool.id, w.tasks[k].epoch))
      && WellServed(Do(w, acts[0]), acts[1..], k, xs)
  }

  function StepsOf(acts: seq<Action>, k: nat): nat {
    if acts == [] then 0 else (if StepOf(acts[0], k) then 1 else 0) + StepsOf(acts[1..], k)
  }

  /** Task `k` is on its way: `had` tells whether its key had a row when it began. */
  predicate OnTrack(s: Store, t: Task, xs: seq<int>, had: bool) {
    && !t.pc.Failed?
    && (t.pc.Checking? ==> (had <==> HasRow(s.table, t.pool.id, t.epoch)))
    && (t.pc.Computing? || t.pc.Computed? ==> !had && !HasRow(s.table, t.pool.id, t.epoch))
    && (t.pc.Computed? ==> t.pc.slots == xs)
    && (t.pc.Fetching? || t.pc.Fetched? || t.pc.Succeeded? ==>
          HasRow(s.table, t.pool.id, t.epoch) && (!had ==> Schedule(s.table, t.pool.id, t.epoch) == xs))
  }

  lemma OwnStepOnTrack(s: Store, t: Task, input: Input, xs: seq<int>, had: bool)
    requires Running(t) && OnTrack(s, t, xs, had) && !Errs(input) && (t.pc.Computing? ==> input == Slots(xs))
    ensures var (s', t') := StepTask(s, t, input); OnTrack(s', t', xs, had)
  {
    hide Select;
    if t.pc.Computed? {
      InsertIsSelected(s.table, Row(|s.table| + 1, t.epoch, t.pool.id, |xs|, xs));
    }
  }

  lemma OthersKeepOnTrack(w: World, a: Action, k: nat, xs: seq<int>, had: bool)
    requires Enabled(w, a) && !StepOf(a, k) && k < |w.tasks| && OnTrack(w.store, w.tasks[k], xs, had)
    requires !Wins(w, a, w.tasks[k].pool.id, w.tasks[k].epoch)
    ensures var w' := Do(w, a); k < |w'.tasks| && w'.tasks[k] == w.tasks[k] && OnTrack(w'.store, w'.tasks[k], xs, had)
  {
    hide Select, StepTask, Wins;
    if a.Advance? {
      var t := w.tasks[k];
      SameRowsUnlessWon(w, a, t.pool.id, t.epoch);
    }
  }

  lemma SameRowsUnlessWon(w: World, a: Action, pool: string, epoch: int)
    requires Enabled(w, a) && a.Advance? && !Wins(w, a, pool, epoch)
    ensures Select(Do(w, a).store.table, pool, epoch) == Select(w.store.table, pool, epoch)
  {
    hide Select, HasRow, StepTask;
    var table, t := w.store.table, w.tasks[a.k];
    StepTable(w.store, t, a.input);
    if Do(w, a).store.table != table {
      SelectOneMore(table, Row(|table| + 1, t.epoch, t.pool.id, |t.pc.slots|, t.pc.slots), pool, epoch);
    }
  }

  /** A well-served task goes through whatever runs beside it: it never fails, it ends within five
      steps of its own, and then its row is the one there was or holds the slots it was given, and
      the gauge shows it. */
  lemma {:induction false} ServedTaskSucceeds(w: World, acts: seq<Action>, k: nat, xs: seq<int>, had: bool)
    requires Inv(w) && Possible(w, acts) && k < |w.tasks| && WellServed(w, acts, k, xs)
    requires OnTrack(w.store, w.tasks[k], xs, had)
    ensures var w' := After(w, acts);
            && k < |w'.tasks| && w'.tasks[k].pool == w.tasks[k].pool && w'.tasks[k].epoch == w.tasks[k].epoch
            && OnTrack(w'.store, w'.tasks[k], xs, had)
            && PcRank(w'.tasks[k].pc) + StepsOf(acts, k) <= PcRank(w.tasks[k].pc)
            && (w'.tasks[k].pc.Succeeded? ==> Published(w'.store, w.tasks[k].pool, w.tasks[k].epoch))
    decreases |acts|
  {
    hide OnTrack, Wins, StepTask, GoodStore, Published;
    if acts == [] {
      assert GoodTask(w.store, w.tasks[k]);
    } else {
      var w1 := Do(w, acts[0]);
      ActionKeepsInv(w, acts[0]);
      if StepOf(acts[0], k) {
        OwnStepOnTrack(w.store, w.tasks[k], acts[0].input, xs, had);
      } else {
        OthersKeepOnTrack(w, acts[0], k, xs, had);
      }
      ServedTaskSucceeds(w1, acts[1..], k, xs, had);
    }
  }

  /** Every pool of the list is published for the epoch. */
  predicate AllOf(s: Store, pools: seq<Pool>, epoch: int) {
    forall p :: p in pools ==> Published(s, p, epoch)
  }

  lemma AllOfStays(s: Store, s': Store, pools: seq<Pool>, epoch: int)
    requires Grows(s, s') && AllOf(s, pools, epoch)
    ensures AllOf(s', pools, epoch)
  {
    forall p | p in pools
      ensures Published(s', p, epoch)
    {
      RowsPersist(s.table, s'.table, p.id, epoch);
    }
  }

  /** What a refresh call returns: nothing, or the first error of its tasks; `leaderLogs` tells the
      one kind the block watcher gives up on. */
  datatype RefreshError = NoError | RefreshFailed(leaderLogs: bool)

  function FirstError(err: RefreshError, end: Pc): RefreshError {
    if end.Failed? && err.NoError? then RefreshFailed(end.leaderLogs) else err
  }

  /** The state of a refresh call after its first `i` tasks, started on `start`. */
  predicate RefreshedSoFar(start: Store, s: Store, active: seq<Pool>, i: nat, epoch: int, err: RefreshError) {
    && i <= |active|
    && GoodStore(s) && Grows(start, s)
    && (err.NoError? ==> AllOf(s, active[..i], epoch))
    && (AllOf(start, active, epoch) ==> s == start)
  }

  lemma RefreshedOneMore(start: Store, s: Store, active: seq<Pool>, i: nat, epoch: int, err: RefreshError, inputs: TaskInputs)
    requires i < |active| && RefreshedSoFar(start, s, active, i, epoch, err)
    ensures var (s', end) := AloneResult(s, active[i], epoch, inputs);
            RefreshedSoFar(start, s', active, i + 1, epoch, FirstError(err, end))
  {
    var (s', end) := AloneResult(s, active[i], epoch, inputs);
    AloneKeepsStore(s, active[i], epoch, inputs);
    assert active[..i + 1] == active[..i] + [active[i]];
    if err.NoError? {
      AllOfStays(s, s', active[..i], epoch);
    }
    AloneEnds(s, active[i], epoch, inputs);
  }

  // ---------- exactly how a refresh ends ----------

  predicate IdAmong(active: seq<Pool>, i: nat, id: string)
    requires i <= |active|
  {
    exists j :: 0 <= j < i && active[j].id == id
  }

  /** Task `j` is the first that does not work, and it asks for its leader log in vain. */
  predicate FirstInVain(start: Store, active: seq<Pool>, epoch: int, inputs: seq<TaskInputs>, j: nat)
    requires j < |active| == |inputs|
  {
    AsksInVain(start, active[j], epoch, inputs[j]) && forall k :: 0 <= k < j ==> AllWorks(start, active[k], epoch, inputs[k])
  }

  /** The rows of a pool after its task. */
  predicate RowAfter(start: Store, s: Store, p: Pool, epoch: int, inputs: TaskInputs) {
    if Stores(start, p, epoch, inputs) then
      |Select(s.table, p.id, epoch)| == 1
      && Select(s.table, p.id, epoch)[0].slots == inputs.compute.slots
      && Select(s.table, p.id, epoch)[0].qty == |inputs.compute.slots|
    else Select(s.table, p.id, epoch) == Select(start.table, p.id, epoch)
  }

  /** What the first `i` tasks of a refresh that started on `start` have done, in terms of what each
      of them met.  The error returned is nil if and only if all of them worked, and the leader-log
      error if and only if that is how the first that did not work failed.  Each pool whose task
      worked is published, whatever became of the others; each has the row its own task stored; and
      no row of another key has come or gone. */
  ghost predicate RefreshedExactly(start: Store, s: Store, active: seq<Pool>, i: nat, epoch: int, inputs: seq<TaskInputs>,
                                   err: RefreshError)
    requires i <= |active| == |inputs|
  {
    && (err.NoError? <==> forall j :: 0 <= j < i ==> AllWorks(start, active[j], epoch, inputs[j]))
    && (err == RefreshFailed(true) <==> exists j :: 0 <= j < i && FirstInVain(start, active, epoch, inputs, j))
    && (forall j :: 0 <= j < i && AllWorks(start, active[j], epoch, inputs[j]) ==> Published(s, active[j], epoch))
    && (forall j :: 0 <= j < i ==> RowAfter(start, s, active[j], epoch, inputs[j]))
    && (forall id, e :: e != epoch || !IdAmong(active, i, id) ==> Select(s.table, id, e) == Select(start.table, id, e))
  }

  /** A task of a refresh meets what it would have met at the start of the call. */
  lemma SameAsAtStart(start: Store, s: Store, p: Pool, epoch: int, inputs: TaskInputs)
    requires Select(s.table, p.id, epoch) == Select(start.table, p.id, epoch)
    ensures Stores(s, p, epoch, inputs) <==> Stores(start, p, epoch, inputs)
    ensures AllWorks(s, p, epoch, inputs) <==> AllWorks(start, p, epoch, inputs)
    ensures AsksInVain(s, p, epoch, inputs) <==> AsksInVain(start, p, epoch, inputs)
  {
    hide Select;
  }

  lemma OwnRowAfter(start: Store, s: Store, s': Store, p: Pool, epoch: int, inputs: TaskInputs)
    requires TaskLeaves(s, p, epoch, inputs, s') && Select(s.table, p.id, epoch) == Select(start.table, p.id, epoch)
    ensures RowAfter(start, s', p, epoch, inputs)
    ensures forall id, e :: e != epoch || id != p.id ==> Select(s'.table, id, e) == Select(s.table, id, e)
  {
    hide Select, Published, AllWorks;
    SameAsAtStart(start, s, p, epoch, inputs);
    if Stores(s, p, epoch, inputs) {
      var row := Row(|s.table| + 1, epoch, p.id, |inputs.compute.slots|, inputs.compute.slots);
      InsertIsSelected(s.table, row);
      forall id, e | e != epoch || id != p.id
        ensures Select(s'.table, id, e) == Select(s.table, id, e)
      {
        SelectOneMore(s.table, row, id, e);
      }
    }
  }

  lemma FirstErrorExactly(start: Store, active: seq<Pool>, i: nat, epoch: int, inputs: seq<TaskInputs>, err: RefreshError, end: Pc)
    requires i < |active| == |inputs| && (end.Succeeded? || end.Failed?)
    requires end.Succeeded? <==> AllWorks(start, active[i], epoch, inputs[i])
    requires end == Failed(true) <==> AsksInVain(start, active[i], epoch, inputs[i])
    requires err.NoError? <==> forall j :: 0 <= j < i ==> AllWorks(start, active[j], epoch, inputs[j])
    requires err == RefreshFailed(true) <==> exists j :: 0 <= j < i && FirstInVain(start, active, epoch, inputs, j)
    ensures var err' := FirstError(err, end);
            && (err'.NoError? <==> forall j :: 0 <= j < i + 1 ==> AllWorks(start, active[j], epoch, inputs[j]))
            && (err' == RefreshFailed(true) <==> exists j :: 0 <= j < i + 1 && FirstInVain(start, active, epoch, inputs, j))
  {
    hide AllWorks, AsksInVain;
    if err.NoError? && end == Failed(true) {
      assert FirstInVain(start, active, epoch, inputs, i);
    }
  }

  lemma ExactlyOneMore(start: Store, s: Store, active: seq<Pool>, i: nat, epoch: int, inputs: seq<TaskInputs>, err: RefreshError)
    requires i < |active| == |inputs| && DistinctIds(active) && GoodStore(s)
    requires RefreshedExactly(start, s, active, i, epoch, inputs, err)
    ensures var (s', end) := AloneResult(s, active[i], epoch, inputs[i]);
            RefreshedExactly(start, s', active, i + 1, epoch, inputs, FirstError(err, end))
  {
    hide AloneResult, Select, GoodStore, Grows, AllWorks, AsksInVain, Stores, Published, RunAlone, RowAfter, FirstInVain,
         TaskLeaves, DistinctIds, IdAmong;
    var p := active[i];
    var (s', end) := AloneResult(s, p, epoch, inputs[i]);
    IdIsNew(active, i);
    SameAsAtStart(start, s, p, epoch, inputs[i]);
    AloneIsStepByStep(s, p, epoch, inputs[i]);
    TaskEndsExactly(s, p, epoch, inputs[i]);
    AloneKeepsStore(s, p, epoch, inputs[i]);
    if AllWorks(s, p, epoch, inputs[i]) {
      WorksThenPublished(s, p, epoch, inputs[i], s');
    }
    OwnRowAfter(start, s, s', p, epoch, inputs[i]);
    FirstErrorExactly(start, active, i, epoch, inputs, err, end);
    EarlierStay(start, s, s', active, i, epoch, inputs);
    forall id, e | e != epoch || !IdAmong(active, i + 1, id)
      ensures Select(s'.table, id, e) == Select(start.table, id, e)
    {
      IdsGrow(active, i, id);
    }
  }

  lemma IdIsNew(active: seq<Pool>, i: nat)
    requires i < |active| && DistinctIds(active)
    ensures !IdAmong(active, i, active[i].id)
  {
  }

  lemma IdsGrow(active: seq<Pool>, i: nat, id: string)
    requires i < |active|
    ensures IdAmong(active, i + 1, id) <==> IdAmong(active, i, id) || id == active[i].id
  {
  }

  lemma WorksThenPublished(s: Store, p: Pool, epoch: int, inputs: TaskInputs, s': Store)
    requires TaskLeaves(s, p, epoch, inputs, s') && AllWorks(s, p, epoch, inputs)
    ensures Published(s', p, epoch)
  {
  }

  lemma EarlierStay(start: Store, s: Store, s': Store, active: seq<Pool>, i: nat, epoch: int, inputs: seq<TaskInputs>)
    requires i < |active| == |inputs| && DistinctIds(active) && Grows(s, s')
    requires forall id, e :: e != epoch || id != active[i].id ==> Select(s'.table, id, e) == Select(s.table, id, e)
    ensures forall j :: 0 <= j < i && Published(s, active[j], epoch) ==> Published(s', active[j], epoch)
    ensures forall j :: 0 <= j < i && RowAfter(start, s, active[j], epoch, inputs[j]) ==>
              RowAfter(start, s', active[j], epoch, inputs[j])
  {
    hide Select, UniqueKeys;
    forall j | 0 <= j < i
      ensures Select(s'.table, active[j].id, epoch) == Select(s.table, active[j].id, epoch)
    {
    }
  }

  lemma NothingRefreshed(start: Store, active: seq<Pool>, epoch: int, inputs: seq<TaskInputs>)
    requires |active| == |inputs|
    ensures RefreshedExactly(start, start, active, 0, epoch, inputs, NoError)
  {
  }

  lemma AloneEnds(s: Store, p: Pool, epoch: int, inputs: TaskInputs)
    ensures var (_, end) := AloneResult(s, p, epoch, inputs); end.Succeeded? || end.Failed?
  {
  }

  lemma RefreshBegins(start: Store, active: seq<Pool>, epoch: int)
    requires GoodStore(start)
    ensures RefreshedSoFar(start, start, active, 0, epoch, NoError) && Grows(start, start)
  {
  }

  lemma RefreshKeepsGood(start: Store, s: Store, active: seq<Pool>, i: nat, epoch: int, err: RefreshError)
    requires RefreshedSoFar(start, s, active, i, epoch, err)
    ensures GoodStore(s) && Grows(start, s)
    ensures i == |active| && err.NoError? ==> AllOf(s, active, epoch)
    ensures AllOf(start, active, epoch) ==> s == start
  {
    assert active[..|active|] == active;
  }

  class Service {
    var table: Table
    var expected: map<Label, int>

    constructor ()
      ensures View() == Store([], map[])
    {
      table, expected := [], map[];
    }

    function View(): Store
      reads this
    {
      Store(table, expected)
    }

    method IsRefresh(pool: string, epoch: int, input: Input) returns (r: Reply<bool>)
      ensures r == if Errs(input) then Err else Ok(HasRow(table, pool, epoch))
    {
      if Errs(input) {
        return Err;
      }
      var rows := Select(table, pool, epoch);
      return Ok(|rows| > 0);
    }

    /** Inserts the slots of the leader-log response; a second row for the key violates the table's constraint. */
    method PersistSlots(pool: Pool, epoch: int, response: seq<int>, input: Input) returns (ok: bool)
      modifies this`table
      ensures ok <==> !Errs(input) && !old(HasRow(table, pool.id, epoch))
      ensures table == if input.Fails? || old(HasRow(table, pool.id, epoch)) then old(table)
                       else Inserted(old(table), pool, epoch, response)
    {
      var assignedSlots := new int[|response|];
      for i := 0 to |response|
        invariant assignedSlots[..i] == response[..i]
        invariant table == old(table)
      {
        assignedSlots[i] := response[i];
      }
      assert assignedSlots[..] == response;
      if input.Fails? || HasRow(table, pool.id, epoch) {
        return false;
      }
      table := table + [Row(|table| + 1, epoch, pool.id, assignedSlots.Length, assignedSlots[..])];
      return !Errs(input);
    }

    /** The body of one task, from check to gauge. */
    method RefreshPool(pool: Pool, epoch: int, inputs: TaskInputs) returns (end: Pc)
      modifies this
      ensures (View(), end) == AloneResult(old(View()), pool, epoch, inputs)
    {
      var refreshed := IsRefresh(pool.id, epoch, inputs.check);
      if refreshed.Err? {
        return Failed(false);
      }
      if !refreshed.value {
        if !inputs.compute.Slots? {
          return Failed(true);
        }
        var ok := PersistSlots(pool, epoch, inputs.compute.slots, inputs.insert);
        if !ok {
          return Failed(false);
        }
      }
      var schedule := GetSlotLeaders(table, pool.id, epoch, if Errs(inputs.fetch) then ReadFailed else NoFault);
      if schedule.Err? {
        return Failed(false);
      }
      expected := expected[LabelOf(pool, epoch) := schedule.value.qty];
      return Succeeded;
    }

    /** A refresh call with a concurrency limit of one: its tasks run in order, all of them even
        when one fails.  `nonceKnown` is false when the epoch parameters are needed and missing. */
    method Refresh(pools: seq<Pool>, epoch: int, nonceKnown: bool, inputs: seq<TaskInputs>)
      returns (err: RefreshError)
      requires GoodStore(View()) && |inputs| == |Active(pools)|
      modifies this
      ensures GoodStore(View()) && Grows(old(View()), View())
      ensures !nonceKnown ==> err == RefreshFailed(false) && View() == old(View())
      ensures err.NoError? ==> AllOf(View(), Active(pools), epoch)
      ensures AllOf(old(View()), Active(pools), epoch) ==> View() == old(View())
      ensures nonceKnown && DistinctIds(Active(pools)) ==>
                RefreshedExactly(old(View()), View(), Active(pools), |Active(pools)|, epoch, inputs, err)
    {
      hide RefreshedSoFar, RefreshedExactly, Select, GoodStore, Grows, AllOf;
      RefreshBegins(View(), [], epoch);
      if !nonceKnown {
        return RefreshFailed(false);
      }
      err := NoError;
      var active := GetActivePools(pools);
      ghost var start := View();
      NothingRefreshed(start, active, epoch, inputs);
      RefreshBegins(start, active, epoch);
      for i := 0 to |active|
        invariant RefreshedSoFar(start, View(), active, i, epoch, err)
        invariant DistinctIds(active) ==> RefreshedExactly(start, View(), active, i, epoch, inputs, err)
      {
        RefreshedOneMore(start, View(), active, i, epoch, err, inputs[i]);
        if DistinctIds(active) {
          RefreshKeepsGood(start, View(), active, i, epoch, err);
          ExactlyOneMore(start, View(), active, i, epoch, inputs, err);
        }
        var end := RefreshPool(active[i], epoch, inputs[i]);
        err := FirstError(err, end);
      }
      RefreshKeepsGood(start, View(), active, |active|, epoch, err);
    }
  }
}
