/** The slot leader schedules: the `slots` table and the queries the block watcher trusts. */
module SlotLeader {
  /** One row of the table. */
  datatype Row = Row(id: nat, epoch: int, pool: string, qty: int, slots: seq<int>)

  type Table = seq<Row>

  /** What the database driver reports besides rows. */
  datatype Fault = NoFault | NoRowsReported | ReadFailed

  /** A value, an error, or an index out of range that ends the process. */
  datatype Reply<+T> = Ok(value: T) | Err | Panic

  /** SELECT ... WHERE pool_id = pool AND epoch = epoch */
  function Select(table: Table, pool: string, epoch: int): (rows: seq<Row>)
    ensures forall r :: r in rows <==> r in table && r.pool == pool && r.epoch == epoch
  {
    if table == [] then []
    else
      var last := table[|table| - 1];
      Select(table[..|table| - 1], pool, epoch) + if last.pool == pool && last.epoch == epoch then [last] else []
  }

  predicate HasRow(table: Table, pool: string, epoch: int) {
    Select(table, pool, epoch) != []
  }

  /** The stored schedule of a pool in an epoch; empty when there is no row. */
  function Schedule(table: Table, pool: string, epoch: int): seq<int> {
    var rows := Select(table, pool, epoch);
    if rows == [] then [] else rows[0].slots
  }

  function Quantity(table: Table, pool: string, epoch: int): int {
    var rows := Select(table, pool, epoch);
    if rows == [] then 0 else rows[0].qty
  }

  /** UNIQUE(epoch, pool_id) */
  predicate UniqueKeys(table: Table) {
    forall i, j :: 0 <= i < j < |table| ==> table[i].epoch != table[j].epoch || table[i].pool != table[j].pool
  }

  /** Every quantity is the length of its schedule. */
  predicate Counted(table: Table) {
    forall i :: 0 <= i < |table| ==> table[i].qty == |table[i].slots|
  }

  lemma {:induction false} AtMostOneRow(table: Table, pool: string, epoch: int)
    requires UniqueKeys(table)
    ensures |Select(table, pool, epoch)| <= 1
  {
    if table != [] {
      var init := table[..|table| - 1];
      AtMostOneRow(init, pool, epoch);
      if Select(init, pool, epoch) != [] {
        assert Select(init, pool, epoch)[0] in init;
      }
    }
  }

  lemma {:induction false} SelectAppend(table: Table, more: Table, pool: string, epoch: int)
    ensures Select(table + more, pool, epoch) == Select(table, pool, epoch) + Select(more, pool, epoch)
  {
    if more == [] {
      assert table + more == table;
    } else {
      var init := more[..|more| - 1];
      assert (table + more)[..|table + more| - 1] == table + init;
      SelectAppend(table, init, pool, epoch);
    }
  }

  lemma SelectOneMore(table: Table, row: Row, pool: string, epoch: int)
    ensures Select(table + [row], pool, epoch)
         == Select(table, pool, epoch) + if row.pool == pool && row.epoch == epoch then [row] else []
  {
    assert (table + [row])[..|table|] == table;
  }

  /** A row once stored answers every later query in the same way. */
  lemma RowsPersist(table: Table, later: Table, pool: string, epoch: int)
    requires table <= later && UniqueKeys(later) && HasRow(table, pool, epoch)
    ensures Select(later, pool, epoch) == Select(table, pool, epoch)
  {
    assert later == table + later[|table|..];
    SelectAppend(table, later[|table|..], pool, epoch);
    AtMostOneRow(later, pool, epoch);
  }

  /** A counted row is empty by quantity exactly when it is empty by schedule. */
  lemma EmptyByEitherCount(table: Table, pool: string, epoch: int)
    requires Counted(table) && HasRow(table, pool, epoch)
    ensures Quantity(table, pool, epoch) == |Schedule(table, pool, epoch)|
  {
    var r := Select(table, pool, epoch)[0];
    assert r in table;
  }

  lemma SameSchedule(table: Table, later: Table, pool: string, epoch: int)
    requires table <= later && UniqueKeys(later) && HasRow(table, pool, epoch)
    ensures Schedule(later, pool, epoch) == Schedule(table, pool, epoch)
  {
    RowsPersist(table, later, pool, epoch);
  }

  lemma CountedPrefix(table: Table, later: Table)
    requires table <= later && Counted(later)
    ensures Counted(table)
  {
    forall i | 0 <= i < |table|
      ensures table[i].qty == |table[i].slots|
    {
      assert table[i] == later[i];
    }
  }

  lemma {:induction false} OnlyRow(table: Table, epoch: int)
    requires |table| == 1
    ensures HasRow(table, table[0].pool, epoch) <==> table[0].epoch == epoch
    ensures table[0].epoch == epoch ==> Schedule(table, table[0].pool, epoch) == table[0].slots
    ensures table[0].epoch == epoch ==> Quantity(table, table[0].pool, epoch) == table[0].qty
  {
    SelectOneMore([], table[0], table[0].pool, epoch);
    assert [] + [table[0]] == table;
  }

  /** Either of two rows of one pool for different epochs. */
  lemma {:induction false} OneOfTwoRows(table: Table, i: nat)
    requires |table| == 2 && i < 2 && table[0].pool == table[1].pool && table[0].epoch != table[1].epoch
    ensures var r := table[i];
            && HasRow(table, r.pool, r.epoch)
            && Schedule(table, r.pool, r.epoch) == r.slots && Quantity(table, r.pool, r.epoch) == r.qty
  {
    hide Select;
    var r := table[i];
    SelectOneMore([table[0]], table[1], r.pool, r.epoch);
    assert [table[0]] + [table[1]] == table;
    SelectOneMore([], table[0], r.pool, r.epoch);
    assert [] + [table[0]] == [table[0]];
    SelectNone(r.pool, r.epoch);
  }

  lemma TwoRowsAreFine(table: Table)
    requires |table| == 2 && table[0].epoch != table[1].epoch
    requires table[0].qty == |table[0].slots| && table[1].qty == |table[1].slots|
    ensures UniqueKeys(table) && Counted(table)
  {
  }

  lemma SelectNone(pool: string, epoch: int)
    ensures Select([], pool, epoch) == []
  {
  }

  // ---------- the queries ----------

  function SlotsEmptyReply(table: Table, pool: string, epoch: int, fault: Fault): Reply<bool> {
    if fault != NoFault then Err
    else if !HasRow(table, pool, epoch) then Panic
    else Ok(Schedule(table, pool, epoch) == [] || Quantity(table, pool, epoch) == 0)
  }

  function SlotLeaderReply(table: Table, pool: string, slot: int, epoch: int, fault: Fault): Reply<bool> {
    match fault
    case ReadFailed => Err
    case NoRowsReported => Ok(false)
    case NoFault => if HasRow(table, pool, epoch) then Ok(slot in Schedule(table, pool, epoch)) else Panic
  }

  /** The first slot in stored order above `height`, or 0. */
  function FirstAbove(slots: seq<int>, height: int): int {
    if slots == [] then 0 else if slots[0] > height then slots[0] else FirstAbove(slots[1..], height)
  }

  /** `next` stands in the schedule above the height with nothing above it earlier, or is 0 when
      nothing is above. */
  predicate IsFirstAbove(slots: seq<int>, height: int, next: int) {
    || (exists i :: 0 <= i < |slots| && slots[i] == next && next > height && forall j :: 0 <= j < i ==> slots[j] <= height)
    || (next == 0 && forall j :: 0 <= j < |slots| ==> slots[j] <= height)
  }

  lemma {:induction false} FirstAboveIsFirst(slots: seq<int>, height: int)
    ensures IsFirstAbove(slots, height, FirstAbove(slots, height))
  {
    if slots != [] && slots[0] <= height {
      FirstAboveIsFirst(slots[1..], height);
      var next := FirstAbove(slots, height);
      if exists i :: 0 <= i < |slots[1..]| && slots[1..][i] == next && next > height && forall j :: 0 <= j < i ==> slots[1..][j] <= height {
        var i :| 0 <= i < |slots[1..]| && slots[1..][i] == next && next > height && forall j :: 0 <= j < i ==> slots[1..][j] <= height;
        forall j | 0 <= j < i + 1
          ensures slots[j] <= height
        {
          assert j == 0 || slots[1..][j - 1] == slots[j];
        }
        assert slots[i + 1] == next;
      }
    }
  }

  function NextSlotReply(table: Table, pool: string, height: int, epoch: int, fault: Fault): Reply<int> {
    if fault != NoFault || !HasRow(table, pool, epoch) then Err
    else if Schedule(table, pool, epoch) == [] then Panic
    else Ok(FirstAbove(Schedule(table, pool, epoch), height))
  }

  method IsSlotsEmpty(table: Table, pool: string, epoch: int, fault: Fault) returns (r: Reply<bool>)
    ensures r == SlotsEmptyReply(table, pool, epoch, fault)
    ensures r.Err? <==> fault != NoFault
    ensures r.Panic? <==> fault == NoFault && !HasRow(table, pool, epoch)
    ensures r.Ok? ==> (r.value <==> Schedule(table, pool, epoch) == [] || Quantity(table, pool, epoch) == 0)
  {
    if fault != NoFault {
      return Err;
    }
    var rows := Select(table, pool, epoch);
    if |rows| == 0 {
      return Panic;
    }
    return Ok(|rows[0].slots| == 0 || rows[0].qty == 0);
  }

  method IsSlotLeader(table: Table, pool: string, slot: int, epoch: int, fault: Fault) returns (r: Reply<bool>)
    ensures r == SlotLeaderReply(table, pool, slot, epoch, fault)
    ensures r.Err? <==> fault == ReadFailed
    ensures r.Panic? <==> fault == NoFault && !HasRow(table, pool, epoch)
    ensures r.Ok? ==> (r.value <==> fault == NoFault && slot in Schedule(table, pool, epoch))
  {
    if fault == NoRowsReported {
      return Ok(false);
    }
    if fault == ReadFailed {
      return Err;
    }
    var rows := Select(table, pool, epoch);
    if |rows| == 0 {
      return Panic;
    }
    var slots := rows[0].slots;
    for i := 0 to |slots|
      invariant slot !in slots[..i]
    {
      if slots[i] == slot {
        return Ok(true);
      }
    }
    return Ok(false);
  }

  method GetSlotLeaders(table: Table, pool: string, epoch: int, fault: Fault) returns (r: Reply<Row>)
    ensures r.Ok? <==> fault == NoFault && HasRow(table, pool, epoch)
    ensures r.Ok? ==> r.value == Select(table, pool, epoch)[0]
    ensures !r.Panic?
  {
    if fault != NoFault {
      return Err;
    }
    var rows := Select(table, pool, epoch);
    if |rows| == 0 {
      return Err;
    }
    return Ok(rows[0]);
  }

  method GetNextSlotLeader(table: Table, pool: string, height: int, epoch: int, fault: Fault) returns (r: Reply<int>)
    ensures r == NextSlotReply(table, pool, height, epoch, fault)
    ensures r.Err? <==> fault != NoFault || !HasRow(table, pool, epoch)
    ensures r.Panic? <==> fault == NoFault && HasRow(table, pool, epoch) && Schedule(table, pool, epoch) == []
    ensures r.Ok? ==> IsFirstAbove(Schedule(table, pool, epoch), height, r.value)
  {
    var schedule := GetSlotLeaders(table, pool, epoch, fault);
    if schedule.Err? {
      return Err;
    }
    var slots := schedule.value.slots;
    if |slots| == 0 {
      return Panic;
    }
    for i := 0 to |slots|
      invariant FirstAbove(slots, height) == FirstAbove(slots[i..], height)
    {
      if slots[i] > height {
        FirstAboveIsFirst(slots, height);
        return Ok(slots[i]);
      }
    }
    FirstAboveIsFirst(slots, height);
    return Ok(0);
  }

  // ---------- what the next-leader query means ----------

  predicate Ascending(slots: seq<int>) {
    forall i, j :: 0 <= i < j < |slots| ==> slots[i] < slots[j]
  }

  /** For an ascending schedule of positive slots the answer is the least scheduled slot above
      the height, and it is 0 exactly when there is none. */
  lemma {:induction false} FirstAboveIsLeast(slots: seq<int>, height: int)
    requires Ascending(slots) && forall i :: 0 <= i < |slots| ==> slots[i] > 0
    ensures var next := FirstAbove(slots, height);
            && (next == 0 <==> forall s :: s in slots ==> s <= height)
            && (next != 0 ==> next in slots && height < next && forall s :: s in slots && height < s ==> next <= s)
  {
    if slots != [] {
      assert forall s :: s in slots <==> s == slots[0] || s in slots[1..];
      if slots[0] <= height {
        FirstAboveIsLeast(slots[1..], height);
      } else {
        assert slots[0] in slots;
        forall s | s in slots
          ensures slots[0] <= s
        {
          var i :| 0 <= i < |slots| && slots[i] == s;
        }
      }
    }
  }
}
