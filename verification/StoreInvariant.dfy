// What every statement of an in-memory database keeps: column constraints, row ids, row
// counts and sequence values.

module StoreInvariant {
  import opened Collections
  import opened StoreState

  ghost predicate RowHolds(columns: seq<Column>, row: Row) {
    forall j | 0 <= j < |columns| && j < |row| :: Holds(columns[j], row[j])
  }

  ghost predicate Increasing(ids: seq<nat>) {
    forall i, j | 0 <= i < j < |ids| :: ids[i] < ids[j]
  }

  ghost predicate IDsBelow(ids: seq<nat>, limit: nat) {
    forall id | id in ids :: id < limit
  }

  ghost predicate GoodTable(t: Table, rows: seq<Row>, ids: seq<nat>, nextID: nat) {
    && |rows| == |ids|
    && t.rowCount == |rows|
    && t.id < nextID
    && Increasing(ids)
    && IDsBelow(ids, nextID)
    && forall row | row in rows :: RowHolds(t.columns, row)
  }

  ghost predicate OneTablePerID(tables: map<string, Table>) {
    forall a, b | a in tables && b in tables && tables[a].id == tables[b].id :: a == b
  }

  ghost predicate Good(s: State) {
    && s.tables.Keys == s.rowData.Keys == s.rowIDs.Keys
    && OneTablePerID(s.tables)
    && forall name | name in s.tables :: GoodTable(s.tables[name], s.rowData[name], s.rowIDs[name], s.nextID)
  }

  const EmptyState := State(map[], map[], map[], map[], 1)

  lemma GoodIsParallel(s: State)
    requires Good(s)
    ensures Parallel(s)
  {
    hide Increasing, IDsBelow, RowHolds;
  }

  lemma Later(t: Table, rows: seq<Row>, ids: seq<nat>, nextID: nat)
    requires GoodTable(t, rows, ids, nextID)
    ensures GoodTable(t, rows, ids, nextID + 1)
  {
    hide RowHolds, Increasing;
  }

  // ---------------------------------------------------------------- INSERT

  // Sequence columns get the next value of their sequence; no other column changes.
  lemma {:induction false} FillSets(columns: seq<Column>, table: string, row: Row, sequences: map<string, int>, j: nat)
    requires AutoInside(columns, row) && j < |row|
    ensures var f := Fill(columns, table, row, sequences);
            if j < |columns| && columns[j].Auto() then
              var key := SeqKey(table, columns[j].name);
              f.row[j].Int? && Current(sequences, key) < f.row[j].n <= Current(f.sequences, key)
            else f.row[j] == row[j]
  {
    if columns != [] {
      hide SeqKey;
      var n := |columns| - 1;
      assert AutoInside(columns[..n], row);
      FillSets(columns[..n], table, row, sequences, j);
      if columns[n].Auto() {
        FillGrows(columns[..n], table, row, sequences, SeqKey(table, columns[n].name));
      }
    }
  }

  lemma {:induction false} FillGrows(columns: seq<Column>, table: string, row: Row, sequences: map<string, int>,
          key: string)
    requires AutoInside(columns, row)
    ensures Current(sequences, key) <= Current(Fill(columns, table, row, sequences).sequences, key)
  {
    if columns != [] {
      hide SeqKey;
      var n := |columns| - 1;
      assert AutoInside(columns[..n], row);
      FillGrows(columns[..n], table, row, sequences, key);
    }
  }

  lemma InsertedRowHolds(columns: seq<Column>, table: string, row: Row, sequences: map<string, int>)
    requires AutoInside(columns, row) && Acceptable(columns, row)
    ensures RowHolds(columns, Fill(columns, table, StoredRow(columns, row), sequences).row)
  {
    hide Shown, Fill, SeqKey;
    var stored := StoredRow(columns, row);
    var f := Fill(columns, table, stored, sequences);
    forall j | 0 <= j < |columns| && j < |f.row|
      ensures Holds(columns[j], f.row[j])
    {
      FillSets(columns, table, stored, sequences, j);
      if !columns[j].Auto() {
        StoredHolds(columns[j], row[j], false);
      }
    }
  }

  lemma Appended(t: Table, rows: seq<Row>, ids: seq<nat>, nextID: nat, row: Row)
    requires GoodTable(t, rows, ids, nextID) && RowHolds(t.columns, row)
    ensures GoodTable(t.(rowCount := t.rowCount + 1), rows + [row], ids + [nextID], nextID + 1)
  {
    hide RowHolds, Increasing, IDsBelow;
    SnocIncreasing(ids, nextID);
  }

  lemma SnocIncreasing(ids: seq<nat>, nextID: nat)
    requires Increasing(ids) && IDsBelow(ids, nextID)
    ensures Increasing(ids + [nextID]) && IDsBelow(ids + [nextID], nextID + 1)
  {
    assert forall i | 0 <= i < |ids| :: ids[i] in ids;
    assert forall id | id in ids + [nextID] :: id in ids || id == nextID;
  }

  // The insert with the row that Fill produced taken as given.
  lemma GrownIsGood(s: State, name: string, row: Row, sequences: map<string, int>)
    requires Good(s) && name in s.tables && RowHolds(s.tables[name].columns, row)
    ensures var t := s.tables[name];
            Good(State(s.tables[name := t.(rowCount := t.rowCount + 1)],
                       s.rowData[name := s.rowData[name] + [row]],
                       s.rowIDs[name := s.rowIDs[name] + [s.nextID]], sequences, s.nextID + 1))
  {
    hide GoodTable, RowHolds;
    Appended(s.tables[name], s.rowData[name], s.rowIDs[name], s.nextID, row);
    forall other | other in s.tables && other != name
      ensures GoodTable(s.tables[other], s.rowData[other], s.rowIDs[other], s.nextID + 1)
    {
      Later(s.tables[other], s.rowData[other], s.rowIDs[other], s.nextID);
    }
  }

  lemma InsertKeepsGood(s: State, name: string, row: Row)
    requires Good(s) && Insertable(s, name, row)
    ensures Good(InsertEffect(s, name, row).state)
  {
    hide Good, RowHolds, Fill, StoredRow, Accepts;
    GoodKeys(s);
    if InsertEffect(s, name, row).ok {
      var columns := s.tables[name].columns;
      InsertedRowHolds(columns, name, row, s.sequences);
      var f := Fill(columns, name, StoredRow(columns, row), s.sequences);
      GrownIsGood(s, name, f.row, f.sequences);
    }
  }

  lemma GoodKeys(s: State)
    requires Good(s)
    ensures s.tables.Keys == s.rowData.Keys == s.rowIDs.Keys
  {
    hide GoodTable;
  }

  // The pair (id, row) is stored in the table.
  ghost predicate Stored(s: State, name: string, id: nat, row: Row) {
    exists i :: 0 <= i < |Get(s.rowData, name)| && i < |Get(s.rowIDs, name)|
                && Get(s.rowData, name)[i] == row && Get(s.rowIDs, name)[i] == id
  }

  // An INSERT adds one pair to its table or, if some value is refused, nothing; no pair of any
  // table is lost.
  lemma InsertAddsOnePair(s: State, name: string, row: Row, other: string, id: nat, r: Row)
    requires Parallel(s) && Insertable(s, name, row)
    ensures var accepted := name in s.tables && Acceptable(s.tables[name].columns, row);
            Stored(InsertEffect(s, name, row).state, other, id, r) <==>
            Stored(s, other, id, r)
            || (accepted && other == name && id == s.nextID && r == InsertedRow(s, name, row))
  {
    hide Fill, StoredRow, Acceptable;
    var s' := InsertEffect(s, name, row).state;
    var rows, ids := Get(s.rowData, other), Get(s.rowIDs, other);
    var rows', ids' := Get(s'.rowData, other), Get(s'.rowIDs, other);
    assert |rows| == |ids|;
    if rows' != rows {
      assert rows' == rows + [InsertedRow(s, name, row)] && ids' == ids + [s.nextID];
      assert forall i | 0 <= i < |rows| :: rows'[i] == rows[i] && ids'[i] == ids[i];
      assert rows'[|rows|] == InsertedRow(s, name, row) && ids'[|rows|] == s.nextID;
    } else {
      assert ids' == ids;
    }
  }

  // ---------------------------------------------------------------- UPDATE

  lemma {:induction false} AssignHolds(columns: seq<Column>, row: Row, updates: seq<Assignment>)
    requires RowHolds(columns, row)
    ensures RowHolds(columns, Assign(columns, row, updates).row)
  {
    hide Shown;
    if updates != [] {
      var n := |updates| - 1;
      AssignHolds(columns, row, updates[..n]);
      var u := updates[n];
      if u.column < |columns| && Accepts(columns[u.column], u.value, false) {
        StoredHolds(columns[u.column], u.value, false);
      }
    }
  }

  lemma {:induction false} UpdateRowsHold(columns: seq<Column>, rows: seq<Row>, updater: Updater,
          condition: Condition, n: nat)
    requires n <= |rows| && forall row | row in rows :: RowHolds(columns, row)
    ensures forall row | row in UpdateRows(columns, rows, updater, condition, n).rows :: RowHolds(columns, row)
  {
    hide Assign, RowHolds;
    if n > 0 {
      UpdateRowsHold(columns, rows, updater, condition, n - 1);
      AssignHolds(columns, rows[n - 1], updater(rows[n - 1]));
      var p := UpdateRows(columns, rows, updater, condition, n - 1);
      ReplacedRow(p.rows, n - 1, Assign(columns, rows[n - 1], updater(rows[n - 1])).row);
    }
  }

  lemma ReplacedRow<T>(s: seq<T>, k: nat, x: T)
    requires k < |s|
    ensures forall y | y in s[k := x] :: y in s || y == x
  {
  }

  lemma UpdateKeepsGood(s: State, name: string, updater: Updater, condition: Condition)
    requires Good(s) && Parallel(s)
    ensures Good(UpdateEffect(s, name, updater, condition).state)
  {
    hide RowHolds, UpdateRows, Increasing, IDsBelow;
    if name in s.tables {
      UpdateRowsHold(s.tables[name].columns, s.rowData[name], updater, condition, |s.rowData[name]|);
      var p := UpdateRows(s.tables[name].columns, s.rowData[name], updater, condition, |s.rowData[name]|);
      assert GoodTable(s.tables[name], p.rows, s.rowIDs[name], s.nextID);
      hide GoodTable;
    }
  }

  // Assignment is simultaneous: whatever the order of the update map, an update that succeeds
  // gives each assigned column its own new value and leaves the others; it succeeds exactly
  // when every value assigned to an existing column is accepted.
  lemma {:induction false} AssignIsSimultaneous(columns: seq<Column>, row: Row, updates: seq<Assignment>, j: nat)
    requires DistinctColumns(updates) && j < |row|
    ensures var a := Assign(columns, row, updates);
            && (!a.failed <==> forall u | u in updates && u.column < |row| && u.column < |columns| ::
                 Accepts(columns[u.column], u.value, false))
            && (!a.failed ==> forall u | u in updates && u.column == j ::
                  a.row[j] == if j < |columns| then StoredAs(columns[j], u.value) else u.value)
            && ((forall u | u in updates :: u.column != j) ==> a.row[j] == row[j])
  {
    hide Accepts, StoredAs;
    if updates != [] {
      var n := |updates| - 1;
      var before, last := updates[..n], updates[n];
      assert forall u | u in before :: u in updates;
      assert forall u | u in updates :: u in before || u == last;
      assert forall i | 0 <= i < n :: before[i] == updates[i];
      AssignIsSimultaneous(columns, row, before, j);
    }
  }

  // ---------------------------------------------------------------- DELETE, DROP, CREATE

  lemma {:induction false} KeptStayIncreasing(rows: seq<Row>, ids: seq<nat>, condition: Condition)
    requires |rows| == |ids| && Increasing(ids)
    ensures Increasing(KeptBy(rows, ids, condition))
  {
    if rows != [] {
      var n := |rows| - 1;
      KeptStayIncreasing(rows[..n], ids[..n], condition);
      var kept := KeptBy(rows[..n], ids[..n], condition);
      forall i | 0 <= i < |kept|
        ensures kept[i] < ids[n]
      {
        assert kept[i] in kept && kept[i] in ids[..n];
      }
    }
  }

  // What is kept is what was there and does not meet the condition.
  lemma {:induction false} KeptAre(rows: seq<Row>, condition: Condition, row: Row)
    ensures row in Kept(rows, condition) <==> row in rows && !condition(row)
  {
    if rows != [] {
      var n := |rows| - 1;
      KeptAre(rows[..n], condition, row);
      assert rows == rows[..n] + [rows[n]];
    }
  }

  // The two lists stay paired: what is left at a position is one of the old pairs, and every
  // pair whose row does not meet the condition is left.
  lemma {:induction false} KeptPairs(rows: seq<Row>, ids: seq<nat>, condition: Condition, id: nat, row: Row)
    requires |rows| == |ids|
    ensures (exists k ::
               && 0 <= k < |Kept(rows, condition)|
               && Kept(rows, condition)[k] == row && KeptBy(rows, ids, condition)[k] == id)
            <==> exists i :: 0 <= i < |rows| && rows[i] == row && ids[i] == id && !condition(row)
  {
    if rows != [] {
      var n := |rows| - 1;
      KeptPairs(rows[..n], ids[..n], condition, id, row);
      var kept, keptIDs := Kept(rows[..n], condition), KeptBy(rows[..n], ids[..n], condition);
      if i :| 0 <= i < |rows| && rows[i] == row && ids[i] == id && !condition(row) {
        if i == n {
          assert Kept(rows, condition)[|kept|] == row && KeptBy(rows, ids, condition)[|kept|] == id;
        } else {
          assert rows[..n][i] == row && ids[..n][i] == id;
          var k :| 0 <= k < |kept| && kept[k] == row && keptIDs[k] == id;
          assert Kept(rows, condition)[k] == row && KeptBy(rows, ids, condition)[k] == id;
        }
      }
      var all, allIDs := Kept(rows, condition), KeptBy(rows, ids, condition);
      if k :| 0 <= k < |all| && all[k] == row && allIDs[k] == id {
        if k < |kept| {
          assert kept[k] == row && keptIDs[k] == id;
          var i :| 0 <= i < |rows[..n]| && rows[..n][i] == row && ids[..n][i] == id && !condition(row);
          assert rows[i] == row && ids[i] == id;
        } else {
          assert rows[n] == row && ids[n] == id;
        }
      }
    }
  }

  lemma DeleteKeepsGood(s: State, name: string, condition: Condition)
    requires Good(s) && Parallel(s)
    ensures Good(DeleteEffect(s, name, condition).state)
  {
    hide RowHolds, Kept, KeptBy, DeleteRecords;
    if name in s.tables {
      var t, rows, ids := s.tables[name], s.rowData[name], s.rowIDs[name];
      KeptStayIncreasing(rows, ids, condition);
      forall row | row in Kept(rows, condition)
        ensures RowHolds(t.columns, row)
      {
        KeptAre(rows, condition, row);
      }
      var records := DeleteRecords(t.id, rows, ids, condition);
      assert GoodTable(t.(rowCount := t.rowCount - |records|), Kept(rows, condition), KeptBy(rows, ids, condition),
          s.nextID);
      hide GoodTable;
    }
  }

  lemma CreateKeepsGood(s: State, name: string, columns: seq<Column>)
    requires Good(s)
    ensures Good(CreateEffect(s, name, columns).state)
  {
    hide GoodTable, AutoKeys, Zeroed;
    if name !in s.tables {
      var s' := CreateEffect(s, name, columns).state;
      NewTableIsGood(s.nextID, columns);
      forall other | other in s.tables
        ensures GoodTable(s.tables[other], s.rowData[other], s.rowIDs[other], s.nextID + 1)
                && s.tables[other].id < s.nextID
      {
        Later(s.tables[other], s.rowData[other], s.rowIDs[other], s.nextID);
        IDBelow(s.tables[other], s.rowData[other], s.rowIDs[other], s.nextID);
      }
    }
  }

  lemma NewTableIsGood(id: nat, columns: seq<Column>)
    ensures GoodTable(Table(id, columns, 0), [], [], id + 1)
  {
  }

  lemma IDBelow(t: Table, rows: seq<Row>, ids: seq<nat>, nextID: nat)
    requires GoodTable(t, rows, ids, nextID)
    ensures t.id < nextID
  {
  }

  lemma StepKeepsGood(s: State, op: Op)
    requires Good(s) && Callable(s, op)
    ensures Good(Step(s, op).state)
  {
    match op {
      case InsertOp(name, row) => InsertKeepsGood(s, name, row);
      case UpdateOp(name, updater, condition) => UpdateKeepsGood(s, name, updater, condition);
      case DeleteOp(name, condition) => DeleteKeepsGood(s, name, condition);
      case DropOp(name) => DropKeepsGood(s, name);
      case CreateOp(name, columns) => CreateKeepsGood(s, name, columns);
    }
  }

  lemma DropKeepsGood(s: State, name: string)
    requires Good(s)
    ensures Good(DropEffect(s, name).state)
  {
    hide GoodTable, AutoKeys;
  }

  // From a new store on, every run of statements keeps all constraints.
  lemma NewStoreKeepsGood(run: Run)
    requires run.Valid() && run.First() == EmptyState
    ensures Good(run.Final())
  {
    assert Good(EmptyState);
    RunKeepsGood(run);
  }

  // Every run of statements, failed ones included, keeps all constraints.
  lemma {:induction false} RunKeepsGood(run: Run)
    requires run.Valid() && Good(run.First())
    ensures Good(run.Final())
  {
    if run.Then? {
      RunKeepsGood(run.before);
      StepKeepsGood(run.before.Final(), run.op);
    }
  }
}
