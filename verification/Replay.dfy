// Recovery: replaying the logged records over a snapshot (recoverFromWAL of storage/wal.go),
// and why that gives the tables, rows and row ids of the live store.

module Replay {
  import opened Collections
  import opened StoreState
  import opened StoreInvariant
  import opened RowUpdates

  // What a value becomes on its way through the log's JSON.
  type Conversion = Value -> Value

  function Converted(row: Row, convert: Conversion): (r: Row)
    ensures |r| == |row|
    ensures forall j | 0 <= j < |row| :: r[j] == convert(row[j])
  {
    seq(|row|, j requires 0 <= j < |row| => convert(row[j]))
  }

  ghost predicate Names(tables: map<string, Table>, id: nat, name: string) {
    name in tables && tables[name].id == id
  }

  // The search through the tables for an id. It is unique where OneTablePerID holds.
  ghost function NameOf(tables: map<string, Table>, id: nat): Option<string> {
    if exists name :: Names(tables, id, name) then
      var name :| Names(tables, id, name);
      Some(name)
    else None
  }

  lemma NameIs(tables: map<string, Table>, id: nat, name: string)
    requires OneTablePerID(tables) && Names(tables, id, name)
    ensures NameOf(tables, id) == Some(name)
  {
  }

  // The first position of an id, or the length.
  function IndexOf(ids: seq<nat>, id: nat): (k: nat)
    ensures k <= |ids| && (k < |ids| ==> ids[k] == id)
    ensures forall i | 0 <= i < k :: ids[i] != id
  {
    if ids == [] || ids[0] == id then 0 else 1 + IndexOf(ids[1..], id)
  }

  lemma {:induction false} IndexOfIs(ids: seq<nat>, id: nat, k: nat)
    requires k <= |ids| && (forall i | 0 <= i < k :: ids[i] != id) && (k < |ids| ==> ids[k] == id)
    ensures IndexOf(ids, id) == k
  {
    if k > 0 {
      assert forall i | 0 <= i < k - 1 :: ids[1..][i] == ids[i + 1];
      IndexOfIs(ids[1..], id, k - 1);
    }
  }

  // The search leaves "" for "no such table", so records of a table with that name are skipped.
  ghost function Apply(s: State, r: Record, convert: Conversion): (s': State)
    requires Parallel(s)
    ensures Parallel(s')
  {
    if r.DropTable? then
      s.(tables := s.tables - {r.name}, rowData := s.rowData - {r.name}, rowIDs := s.rowIDs - {r.name})
    else
      match NameOf(s.tables, r.tableID)
      case None => s
      case Some(name) => if name == "" then s else ApplyTo(s, r, name, convert)
  }

  ghost function ApplyTo(s: State, r: Record, name: string, convert: Conversion): (s': State)
    requires Parallel(s) && !r.DropTable?
    ensures Parallel(s')
  {
    var rows, ids := Get(s.rowData, name), Get(s.rowIDs, name);
    var k := IndexOf(ids, r.rowID);
    if r.Insert? then
      s.(rowData := s.rowData[name := rows + [Converted(r.row, convert)]], rowIDs := s.rowIDs[name := ids + [r.rowID]])
    else if k == |ids| then s
    else if r.Update? then s.(rowData := s.rowData[name := rows[k := Converted(r.row, convert)]])
    else s.(rowData := s.rowData[name := RemoveAt(rows, k)], rowIDs := s.rowIDs[name := RemoveAt(ids, k)])
  }

  ghost function Replayed(s: State, records: seq<Record>, convert: Conversion): (s': State)
    requires Parallel(s)
    ensures Parallel(s')
  {
    if records == [] then s else Apply(Replayed(s, records[..|records| - 1], convert), records[|records| - 1], convert)
  }

  lemma {:induction false} ReplayedInTwo(s: State, a: seq<Record>, b: seq<Record>, convert: Conversion)
    requires Parallel(s)
    ensures Replayed(s, a + b, convert) == Replayed(Replayed(s, a, convert), b, convert)
  {
    hide Apply;
    if b == [] {
      assert a + b == a;
    } else {
      var n := |b| - 1;
      assert (a + b)[..|a + b| - 1] == a + b[..n];
      ReplayedInTwo(s, a, b[..n], convert);
    }
  }

  // ---------------------------------------------------------------- what recovery should give

  // The live row, or its image in the log.
  ghost predicate CopyRow(a: Row, b: Row, convert: Conversion) {
    a == b || (|a| == |b| && forall j | 0 <= j < |a| :: a[j] == convert(b[j]))
  }

  ghost predicate CopyRows(a: seq<Row>, b: seq<Row>, convert: Conversion) {
    |a| == |b| && forall i | 0 <= i < |a| :: CopyRow(a[i], b[i], convert)
  }

  ghost predicate SameTables(a: map<string, Table>, b: map<string, Table>) {
    a.Keys == b.Keys && forall name | name in a :: a[name].id == b[name].id && a[name].columns == b[name].columns
  }

  // The table of this name: same row ids in the same order, copies of the rows.
  ghost predicate CopyOf(r: State, s: State, name: string, convert: Conversion) {
    && (name in r.rowIDs <==> name in s.rowIDs) && (name in r.rowData <==> name in s.rowData)
    && (name in s.rowIDs ==> r.rowIDs[name] == s.rowIDs[name])
    && (name in s.rowData ==> CopyRows(r.rowData[name], s.rowData[name], convert))
  }

  // All tables but the one named "".
  ghost predicate CopyNamed(r: State, s: State, convert: Conversion) {
    SameTables(r.tables, s.tables) && forall name: string | name != "" :: CopyOf(r, s, name, convert)
  }

  ghost predicate Copy(r: State, s: State, convert: Conversion) {
    CopyNamed(r, s, convert) && CopyOf(r, s, "", convert)
  }

  ghost predicate IDsSound(s: State) {
    && (forall name | name in s.tables :: s.tables[name].id < s.nextID)
    && forall name | name in s.rowIDs :: Increasing(s.rowIDs[name]) && IDsBelow(s.rowIDs[name], s.nextID)
  }

  // What replay relies on: ids come from one counter, and only tables have rows.
  ghost predicate Sound(s: State) {
    Parallel(s) && s.rowData.Keys <= s.tables.Keys && OneTablePerID(s.tables) && IDsSound(s)
  }

  lemma GoodIsSound(s: State)
    requires Good(s)
    ensures Sound(s)
  {
    hide Increasing, IDsBelow, RowHolds;
  }

  lemma InsertKeepsSound(s: State, name: string, row: Row)
    requires Sound(s) && Insertable(s, name, row)
    ensures Sound(InsertEffect(s, name, row).state)
  {
    hide Fill, StoredRow, Acceptable, Increasing, IDsBelow, OneTablePerID, IDsSound;
    var e := InsertEffect(s, name, row);
    if e.ok {
      SameIDsOneTable(s.tables, e.state.tables);
      InsertKeepsIDs(s, e.state, name);
    }
  }

  lemma InsertKeepsIDs(s: State, s': State, name: string)
    requires IDsSound(s) && s'.nextID == s.nextID + 1 && s'.rowIDs == s.rowIDs[name := Get(s.rowIDs, name) + [s.nextID]]
    requires s'.tables.Keys == s.tables.Keys && forall other | other in s.tables ::
             s'.tables[other].id == s.tables[other].id
    ensures IDsSound(s')
  {
    hide Increasing, IDsBelow;
    NothingBelow(s.nextID);
    SnocIncreasing(Get(s.rowIDs, name), s.nextID);
    forall other | other in s.rowIDs
      ensures IDsBelow(s.rowIDs[other], s.nextID + 1)
    {
      StillBelow(s.rowIDs[other], s.nextID);
    }
  }

  lemma SameIDsOneTable(a: map<string, Table>, b: map<string, Table>)
    requires OneTablePerID(a) && a.Keys == b.Keys && forall name | name in a :: a[name].id == b[name].id
    ensures OneTablePerID(b)
  {
  }

  lemma DeleteKeepsSound(s: State, name: string, condition: Condition)
    requires Sound(s)
    ensures Sound(DeleteEffect(s, name, condition).state)
  {
    hide Kept, KeptBy, DeleteRecords, Increasing, IDsBelow;
    if name in s.rowData {
      KeptStayIncreasing(s.rowData[name], s.rowIDs[name], condition);
      KeptStayBelow(s.rowData[name], s.rowIDs[name], condition, s.nextID);
    }
  }

  lemma StepKeepsSound(s: State, op: Op)
    requires Sound(s) && Callable(s, op) && !op.CreateOp?
    ensures Sound(Step(s, op).state)
  {
    hide Increasing, IDsBelow, AutoKeys, UpdateRows, UpdateRecords, InsertEffect, DeleteEffect;
    match op {
      case InsertOp(name, row) => InsertKeepsSound(s, name, row);
      case UpdateOp(name, updater, condition) =>
      case DeleteOp(name, condition) => DeleteKeepsSound(s, name, condition);
      case DropOp(name) =>
    }
  }

  lemma StillBelow(ids: seq<nat>, limit: nat)
    requires IDsBelow(ids, limit)
    ensures IDsBelow(ids, limit + 1)
  {
  }

  lemma NothingBelow(limit: nat)
    ensures IDsBelow([], limit) && Increasing([])
  {
  }

  lemma KeptStayBelow(rows: seq<Row>, ids: seq<nat>, condition: Condition, limit: nat)
    requires |rows| == |ids| && IDsBelow(ids, limit)
    ensures IDsBelow(KeptBy(rows, ids, condition), limit)
  {
    hide KeptBy;
  }

  lemma CopyName(r: State, s: State, name: string)
    requires SameTables(r.tables, s.tables) && OneTablePerID(s.tables) && name in s.tables
    ensures NameOf(r.tables, s.tables[name].id) == Some(name)
  {
    assert OneTablePerID(r.tables);
    NameIs(r.tables, s.tables[name].id, name);
  }

  // ---------------------------------------------------------------- INSERT and DROP

  lemma {:induction false} ReplayedOne(s: State, r: Record, convert: Conversion)
    requires Parallel(s)
    ensures Replayed(s, [r], convert) == Apply(s, r, convert)
  {
    hide Apply;
    assert [r][..0] == [];
    assert Replayed(s, [], convert) == s;
  }

  lemma CopySnoc(a: seq<Row>, b: seq<Row>, row: Row, convert: Conversion)
    requires CopyRows(a, b, convert)
    ensures CopyRows(a + [Converted(row, convert)], b + [row], convert)
  {
  }

  // Both sides append to the same table.
  lemma CopyGrown(r: State, s: State, name: string, row: Row, convert: Conversion)
    requires CopyOf(r, s, name, convert)
    ensures CopyRows(Get(r.rowData, name) + [Converted(row, convert)], Get(s.rowData, name) + [row], convert)
    ensures Get(r.rowIDs, name) == Get(s.rowIDs, name)
  {
    hide CopyRows, Converted;
    NothingCopied(convert);
    CopySnoc(Get(r.rowData, name), Get(s.rowData, name), row, convert);
  }

  // Both sides put copies into the same table.
  lemma CopyPutTable(r: State, s: State, r': State, s': State, name: string, a: seq<Row>, b: seq<Row>, ids: seq<nat>,
          convert: Conversion)
    requires CopyNamed(r, s, convert) && SameTables(r'.tables, s'.tables) && CopyRows(a, b, convert)
    requires r'.rowData == r.rowData[name := a] && r'.rowIDs == r.rowIDs[name := ids]
    requires s'.rowData == s.rowData[name := b] && s'.rowIDs == s.rowIDs[name := ids]
    ensures CopyNamed(r', s', convert)
  {
    hide CopyRows, SameTables;
    forall other: string | other != ""
      ensures CopyOf(r', s', other, convert)
    {
      assert CopyOf(r, s, other, convert);
    }
  }

  // The live side changes the table named "" alone.
  lemma CopyElsewhere(r: State, s: State, s': State, rows: seq<Row>, ids: seq<nat>, convert: Conversion)
    requires CopyNamed(r, s, convert) && SameTables(s.tables, s'.tables)
    requires s'.rowData == s.rowData["" := rows] && s'.rowIDs == s.rowIDs["" := ids]
    ensures CopyNamed(r, s', convert)
  {
    hide CopyRows;
    forall other: string | other != ""
      ensures CopyOf(r, s', other, convert)
    {
      assert CopyOf(r, s, other, convert);
    }
  }

  lemma {:induction false} SkippedRecords(r: State, t: nat, records: seq<Record>, convert: Conversion)
    requires Parallel(r) && NameOf(r.tables, t) == Some("")
    requires forall i | 0 <= i < |records| :: !records[i].DropTable? && records[i].tableID == t
    ensures Replayed(r, records, convert) == r
  {
    hide NameOf;
    if records != [] {
      SkippedRecords(r, t, records[..|records| - 1], convert);
    }
  }

  lemma InsertReplays(r: State, s: State, name: string, row: Row, convert: Conversion)
    requires Parallel(r) && Sound(s) && CopyNamed(r, s, convert) && Insertable(s, name, row)
    ensures var e := InsertEffect(s, name, row);
            CopyNamed(Replayed(r, e.records, convert), e.state, convert)
  {
    hide Fill, StoredRow, Acceptable, CopyRows, CopyNamed, CopyOf, IDsSound, OneTablePerID, Parallel, Converted, NameOf,
         Replayed;
    var e := InsertEffect(s, name, row);
    ReplayedNone(r, convert);
    if e.ok {
      var record := e.records[0];
      ReplayedOne(r, record, convert);
      CopyTables(r, s, convert);
      CopyName(r, s, name);
      var rows, ids := Get(s.rowData, name) + [record.row], Get(s.rowIDs, name) + [s.nextID];
      if name == "" {
        CopyElsewhere(r, s, e.state, rows, ids, convert);
      } else {
        CopyOne(r, s, name, convert);
        CopyGrown(r, s, name, record.row, convert);
        var data := Get(r.rowData, name) + [Converted(record.row, convert)];
        var r' := r.(rowData := r.rowData[name := data], rowIDs := r.rowIDs[name := ids]);
        assert Apply(r, record, convert) == r';
        CopyPutTable(r, s, r', e.state, name, data, rows, ids, convert);
      }
    }
  }

  lemma CopyTables(r: State, s: State, convert: Conversion)
    requires CopyNamed(r, s, convert)
    ensures SameTables(r.tables, s.tables)
  {
  }

  lemma CopyOne(r: State, s: State, name: string, convert: Conversion)
    requires CopyNamed(r, s, convert) && name != ""
    ensures CopyOf(r, s, name, convert)
  {
  }

  lemma NothingCopied(convert: Conversion)
    ensures CopyRows([], [], convert)
  {
  }

  lemma DropReplays(r: State, s: State, name: string, convert: Conversion)
    requires Parallel(r) && CopyNamed(r, s, convert)
    ensures var e := DropEffect(s, name);
            CopyNamed(Replayed(r, e.records, convert), e.state, convert)
  {
    hide CopyRows, AutoKeys, Replayed;
    var e := DropEffect(s, name);
    ReplayedNone(r, convert);
    if e.ok {
      ReplayedOne(r, e.records[0], convert);
      forall other: string | other != ""
        ensures CopyOf(Replayed(r, e.records, convert), e.state, other, convert)
      {
        assert CopyOf(r, s, other, convert);
      }
    }
  }

  // ---------------------------------------------------------------- UPDATE

  // The row whose update failed among the first n, or -1.
  function FailedRow(columns: seq<Column>, rows: seq<Row>, updater: Updater, condition: Condition, n: nat): (k: int)
    requires n <= |rows|
    ensures -1 <= k < n
  {
    var f := FirstRefusing(columns, rows, updater, condition);
    if f < n then f else -1
  }

  lemma IndexOfIncreasing(ids: seq<nat>, k: nat)
    requires Increasing(ids) && k < |ids|
    ensures IndexOf(ids, ids[k]) == k
  {
  }

  lemma NoUpdates(t: nat, ids: seq<nat>, rows: seq<Row>)
    requires |ids| == |rows|
    ensures UpdateRecords(t, ids, rows, []) == []
  {
  }

  // Replaying the update of row k when the table's rows have become `data`.
  lemma UpdateApplies(r: State, name: string, t: nat, data: seq<Row>, k: nat, row: Row, convert: Conversion)
    requires Parallel(r) && name in r.rowData && name != "" && NameOf(r.tables, t) == Some(name)
             && Increasing(r.rowIDs[name])
    requires |data| == |r.rowData[name]| && k < |data|
    ensures var s := r.(rowData := r.rowData[name := data]);
            && Parallel(s)
            && Apply(s, Update(t, r.rowIDs[name][k], row, row), convert) ==
               r.(rowData := r.rowData[name := data[k := Converted(row, convert)]])
  {
    hide IndexOf, Increasing, Converted, NameOf;
    IndexOfIncreasing(r.rowIDs[name], k);
  }

  // Replay gives copies of the updated rows; a row whose update failed is as before, since
  // nothing was logged for it.
  lemma {:induction false} UpdatesReplay(r: State, name: string, t: nat, columns: seq<Column>, rows: seq<Row>,
                                         updater: Updater, condition: Condition, convert: Conversion, n: nat)
    returns (data: seq<Row>)
    requires Parallel(r) && name in r.rowData && name != "" && NameOf(r.tables, t) == Some(name)
             && Increasing(r.rowIDs[name])
    requires CopyRows(r.rowData[name], rows, convert) && n <= |rows| == |r.rowIDs[name]|
    ensures |data| == |rows|
    ensures var p := UpdateRows(columns, rows, updater, condition, n);
            var failed := FailedRow(columns, rows, updater, condition, n);
            && Replayed(r, UpdateRecords(t, r.rowIDs[name], p.rows, p.changed), convert) ==
                 r.(rowData := r.rowData[name := data])
            && CopyRows(data, if failed >= 0 then p.rows[failed := rows[failed]] else p.rows, convert)
    decreases n
  {
    hide Assign, Apply, Replayed, UpdateRecords, Increasing, CopyRow, CopyRows, Converted, UpdateRows, FailedRow;
    var ids := r.rowIDs[name];
    var p := UpdateRows(columns, rows, updater, condition, if n == 0 then 0 else n - 1);
    if n == 0 {
      data := r.rowData[name];
      assert r.rowData[name := data] == r.rowData;
      NothingUpdated(columns, rows, updater, condition);
      NoUpdates(t, ids, rows);
      ReplayedNone(r, convert);
    } else {
      data := UpdatesReplay(r, name, t, columns, rows, updater, condition, convert, n - 1);
      ProgressStep(columns, rows, updater, condition, n);
      if !p.failed && condition(rows[n - 1]) {
        var a := Assign(columns, rows[n - 1], updater(rows[n - 1]));
        RecordsKeep(t, ids, p.rows, p.changed, n - 1, a.row);
        if !a.failed {
          var record := Update(t, ids[n - 1], a.row, a.row);
          UpdateApplies(r, name, t, data, n - 1, a.row, convert);
          ReplayedSnoc(r, UpdateRecords(t, ids, p.rows, p.changed), record, convert);
          data := CopyPut(data, p.rows, n - 1, a.row, convert);
        }
      }
    }
  }

  lemma NothingUpdated(columns: seq<Column>, rows: seq<Row>, updater: Updater, condition: Condition)
    ensures UpdateRows(columns, rows, updater, condition, 0) == Progress(rows, [], false)
    ensures FailedRow(columns, rows, updater, condition, 0) == -1
  {
  }

  // One more row: it fails, is updated, or is passed over.
  lemma ProgressStep(columns: seq<Column>, rows: seq<Row>, updater: Updater, condition: Condition, n: nat)
    requires 0 < n <= |rows|
    ensures var p, q := UpdateRows(columns, rows, updater, condition, n - 1),
                        UpdateRows(columns, rows, updater, condition, n);
            var before, after := FailedRow(columns, rows, updater, condition, n - 1),
                                 FailedRow(columns, rows, updater, condition, n);
            var a := Assign(columns, rows[n - 1], updater(rows[n - 1]));
            if p.failed || !condition(rows[n - 1]) then q == p && after == before
            else
              && before == -1 && p.rows[n - 1] == rows[n - 1]
              && q.rows == p.rows[n - 1 := a.row]
              && q.changed == (if a.failed then p.changed else p.changed + [n - 1])
              && after == (if a.failed then n - 1 else -1)
              && (a.failed ==> q.rows[n - 1 := rows[n - 1]] == p.rows)
  {
    hide Assign, FirstRefusing;
    UpdatedRowsAre(columns, rows, updater, condition, n - 1, n - 1);
    UpdatedRowsAre(columns, rows, updater, condition, n, n - 1);
    var p := UpdateRows(columns, rows, updater, condition, n - 1);
    PutBack(p.rows, n - 1, UpdateRows(columns, rows, updater, condition, n).rows[n - 1]);
  }

  lemma PutBack<T>(s: seq<T>, k: nat, x: T)
    requires k < |s|
    ensures s[k := x][k := s[k]] == s
  {
  }

  lemma CopyPut(a: seq<Row>, b: seq<Row>, k: nat, row: Row, convert: Conversion) returns (data: seq<Row>)
    requires CopyRows(a, b, convert) && k < |a|
    ensures data == a[k := Converted(row, convert)] && CopyRows(data, b[k := row], convert)
  {
    data := a[k := Converted(row, convert)];
  }

  lemma ReplayedSnoc(s: State, records: seq<Record>, r: Record, convert: Conversion)
    requires Parallel(s)
    ensures Replayed(s, records + [r], convert) == Apply(Replayed(s, records, convert), r, convert)
  {
    hide Apply;
    assert (records + [r])[..|records|] == records;
  }

  lemma RecordsKeep(t: nat, ids: seq<nat>, rows: seq<Row>, changed: seq<nat>, i: nat, now: Row)
    requires |ids| == |rows| && i < |rows| && forall k | k in changed :: k < i
    ensures UpdateRecords(t, ids, rows[i := now], changed) == UpdateRecords(t, ids, rows, changed)
    ensures forall k | k in changed + [i] :: k < |rows|
    ensures UpdateRecords(t, ids, rows[i := now], changed + [i]) == UpdateRecords(t, ids, rows, changed) +
            [Update(t, ids[i], now, now)]
  {
    forall m | 0 <= m < |changed|
      ensures changed[m] < i
    {
      assert changed[m] in changed;
    }
  }

  // A complete update, or one whose failing row is as it was, is replayed faithfully.
  lemma UpdateReplays(r: State, s: State, name: string, updater: Updater, condition: Condition, convert: Conversion)
    requires Parallel(r) && Sound(s) && CopyNamed(r, s, convert)
    requires name != "" && name in s.tables && name in s.rowData ==>
               FailureLeftRow(s.tables[name].columns, s.rowData[name], updater, condition)
    ensures var e := UpdateEffect(s, name, updater, condition);
            CopyNamed(Replayed(r, e.records, convert), e.state, convert)
  {
    hide CopyRows, UpdateRows, FirstRefusing, FailureLeftRow, Increasing, IDsBelow, UpdateRecords, Replayed, Apply;
    hide CopyNamed, CopyOf, NameOf;
    ReplayedNone(r, convert);
    CopyTables(r, s, convert);
    var e := UpdateEffect(s, name, updater, condition);
    if name in s.tables && name in s.rowData {
      var t, rows := s.tables[name], s.rowData[name];
      CopyName(r, s, name);
      var p := UpdateRows(t.columns, rows, updater, condition, |rows|);
      assert s.rowIDs[name := s.rowIDs[name]] == s.rowIDs;
      if name == "" {
        UpdateRecordsOf(t.id, s.rowIDs[name], p.rows, p.changed);
        SkippedRecords(r, t.id, e.records, convert);
        CopyElsewhere(r, s, e.state, p.rows, s.rowIDs[name], convert);
      } else {
        CopyTable(r, s, name, convert);
        var data := UpdatesReplay(r, name, t.id, t.columns, rows, updater, condition, convert, |rows|);
        FailureLeavesRow(t.columns, rows, updater, condition);
        var k := FailedRow(t.columns, rows, updater, condition, |rows|);
        assert k >= 0 ==> p.rows[k := rows[k]] == p.rows;
        var r' := r.(rowData := r.rowData[name := data]);
        assert r.rowIDs[name := s.rowIDs[name]] == r.rowIDs;
        CopyPutTable(r, s, r', e.state, name, data, p.rows, s.rowIDs[name], convert);
      }
    }
  }

  lemma UpdateRecordsOf(t: nat, ids: seq<nat>, rows: seq<Row>, changed: seq<nat>)
    requires |ids| == |rows| && forall k | k in changed :: k < |ids|
    ensures forall i | 0 <= i < |changed| :: UpdateRecords(t, ids, rows, changed)[i].Update?
                                              && UpdateRecords(t, ids, rows, changed)[i].tableID == t
  {
  }

  // Recovery from the records of an UPDATE, when the log carries values unchanged.
  ghost predicate ReplaysUpdate(s: State, name: string, updater: Updater, condition: Condition)
    requires Parallel(s)
  {
    var e := UpdateEffect(s, name, updater, condition);
    Copy(Replayed(s, e.records, v => v), e.state, v => v)
  }

  // An UPDATE is recovered exactly when no assignment alters the first refusing row before the
  // refused one stops the update; for the table named "" exactly when it alters no row at all.
  lemma AbortedUpdateReplays(s: State, name: string, updater: Updater, condition: Condition)
    requires Sound(s) && name in s.tables && name in s.rowData
    ensures ReplaysUpdate(s, name, updater, condition)
            <==> if name == "" then AltersNothing(s.tables[name].columns, s.rowData[name], updater, condition)
                 else FailureLeftRow(s.tables[name].columns, s.rowData[name], updater, condition)
  {
    var same: Conversion := v => v;
    CopyRefl(s, same);
    hide UpdateRows, FirstRefusing, FailureLeftRow, AltersNothing, Increasing, IDsBelow, UpdateRecords, Replayed,
         CopyRows;
    var t, rows := s.tables[name], s.rowData[name];
    var e := UpdateEffect(s, name, updater, condition);
    var p := UpdateRows(t.columns, rows, updater, condition, |rows|);
    CopyName(s, s, name);
    if name == "" {
      UpdateRecordsOf(t.id, s.rowIDs[name], p.rows, p.changed);
      SkippedRecords(s, t.id, e.records, same);
      UpdateReplays(s, s, name, updater, condition, same);
      UpdateLeavesRows(t.columns, rows, updater, condition);
      SameRows(rows, p.rows, same);
    } else {
      FailureLeavesRow(t.columns, rows, updater, condition);
      assert CopyOf(s, s, name, same);
      var data := UpdatesReplay(s, name, t.id, t.columns, rows, updater, condition, same, |rows|);
      if FailureLeftRow(t.columns, rows, updater, condition) {
        UpdateReplays(s, s, name, updater, condition, same);
        assert Replayed(s, e.records, same) == s.(rowData := s.rowData[name := data]);
        CopyUnchanged(s, e.state, Replayed(s, e.records, same), same);
      } else {
        var k := FailedRow(t.columns, rows, updater, condition, |rows|);
        SameRows(data, p.rows[k := rows[k]], same);
        SameRows(data, p.rows, same);
        assert data[k] == rows[k] != p.rows[k];
        assert !CopyOf(Replayed(s, e.records, same), e.state, name, same);
      }
    }
  }

  // Neither side changes the table named "".
  lemma CopyUnchanged(s: State, s': State, r: State, convert: Conversion)
    requires CopyNamed(r, s', convert)
    requires forall m | m in [s', r] :: ("" in m.rowData <==> "" in s.rowData) && ("" in m.rowIDs <==> "" in s.rowIDs)
               && ("" in s.rowData ==> m.rowData[""] == s.rowData[""])
                    && ("" in s.rowIDs ==> m.rowIDs[""] == s.rowIDs[""])
    ensures Copy(r, s', convert)
  {
    assert s' in [s', r] && r in [s', r];
  }

  lemma SameRows(a: seq<Row>, b: seq<Row>, same: Conversion)
    requires |a| == |b| && forall v :: same(v) == v
    ensures CopyRows(a, b, same) <==> a == b
  {
    forall i | 0 <= i < |a|
      ensures CopyRow(a[i], b[i], same) <==> a[i] == b[i]
    {
      SameRow(b[i], same);
    }
  }

  lemma SameRow(row: Row, same: Conversion)
    requires forall v :: same(v) == v
    ensures Converted(row, same) == row
  {
  }

  // In whatever order Go walks the update maps, recovery meets the live table: this holds
  // exactly when no accepted assignment of the first refusing row would alter it; for the table
  // named "" exactly when besides no assignment of a selected row before it would.
  lemma AbortedUpdateReplaysInEveryOrder(s: State, name: string, updater: Updater, condition: Condition)
    requires Sound(s) && name in s.tables && name in s.rowData
    ensures (forall v: Updater | SameMaps(updater, v) :: ReplaysUpdate(s, name, v, condition))
            <==> NothingToLose(s.tables[name].columns, s.rowData[name], updater, condition)
                 && (name == "" ==> NothingToGain(s.tables[name].columns, s.rowData[name], updater, condition))
  {
    hide Sound, ReplaysUpdate, FailureLeftRow, AltersNothing, NothingToLose, NothingToGain, SameMaps;
    SoundIsParallel(s);
    var columns, rows := s.tables[name].columns, s.rowData[name];
    KeptInEveryOrder(columns, rows, updater, condition);
    UntouchedInEveryOrder(columns, rows, updater, condition);
    forall v: Updater
      ensures ReplaysUpdate(s, name, v, condition)
              <==> if name == "" then AltersNothing(columns, rows, v, condition)
                  else FailureLeftRow(columns, rows, v, condition)
    {
      AbortedUpdateReplays(s, name, v, condition);
    }
  }

  // ---------------------------------------------------------------- DELETE

  lemma {:induction false} KeptCopies(a: seq<Row>, rows: seq<Row>, condition: Condition, convert: Conversion)
    requires CopyRows(a, rows, convert)
    ensures CopyRows(KeptBy(rows, a, condition), Kept(rows, condition), convert)
  {
    hide CopyRow;
    if rows != [] {
      var n := |rows| - 1;
      KeptCopies(a[..n], rows[..n], condition, convert);
    }
  }

  lemma NextDeleted(kept: seq<nat>, ids: seq<nat>, i: nat)
    requires i < |ids| && Increasing(ids) && forall id | id in kept :: id in ids[..i]
    ensures IndexOf(kept + ids[i..], ids[i]) == |kept|
  {
    var all := kept + ids[i..];
    forall k | 0 <= k < |kept|
      ensures all[k] != ids[i]
    {
      assert kept[k] in kept;
    }
    assert all[|kept|] == ids[i];
  }

  lemma WithoutMiddle<T>(a: seq<T>, s: seq<T>, i: nat)
    requires i < |s|
    ensures RemoveAt(a + s[i..], |a|) == a + s[i + 1..]
    ensures a + s[i..] == (a + [s[i]]) + s[i + 1..]
  {
  }

  lemma SiftedStep(t: nat, rows: seq<Row>, ids: seq<nat>, data: seq<Row>, condition: Condition, n: nat)
    requires |rows| == |ids| == |data| && n < |rows|
    ensures var kept := KeptBy(rows[..n], ids[..n], condition);
            KeptBy(rows[..n + 1], ids[..n + 1], condition) == if condition(rows[n]) then kept else kept + [ids[n]]
    ensures var kept := KeptBy(rows[..n], data[..n], condition);
            KeptBy(rows[..n + 1], data[..n + 1], condition) == if condition(rows[n]) then kept else kept + [data[n]]
    ensures var records := DeleteRecords(t, rows[..n], ids[..n], condition);
            DeleteRecords(t, rows[..n + 1], ids[..n + 1], condition) ==
            if condition(rows[n]) then records + [Delete(t, ids[n], rows[n])] else records
  {
    assert rows[..n + 1][..n] == rows[..n] && ids[..n + 1][..n] == ids[..n] && data[..n + 1][..n] == data[..n];
  }

  lemma DeletionApplies(r: State, name: string, t: nat, keptData: seq<Row>, keptIDs: seq<nat>, n: nat, row: Row,
          convert: Conversion)
    requires Parallel(r) && name in r.rowData && name != "" && NameOf(r.tables, t) == Some(name)
             && Increasing(r.rowIDs[name])
    requires n < |r.rowIDs[name]| && |keptData| == |keptIDs| && forall id | id in keptIDs :: id in r.rowIDs[name][..n]
    ensures var data, ids := r.rowData[name], r.rowIDs[name];
            var s := r.(rowData := r.rowData[name := keptData + data[n..]],
                rowIDs := r.rowIDs[name := keptIDs + ids[n..]]);
            && Parallel(s)
            && Apply(s, Delete(t, ids[n], row), convert) ==
               r.(rowData := r.rowData[name := keptData + data[n + 1..]],
                   rowIDs := r.rowIDs[name := keptIDs + ids[n + 1..]])
  {
    hide IndexOf, Increasing, NameOf, RemoveAt;
    var data, ids := r.rowData[name], r.rowIDs[name];
    NextDeleted(keptIDs, ids, n);
    WithoutMiddle(keptData, data, n);
    WithoutMiddle(keptIDs, ids, n);
  }

  // Replaying the deletions among the first i rows removes exactly these rows.
  lemma {:induction false} DeletionsReplay(r: State, name: string, t: nat, rows: seq<Row>, condition: Condition,
          convert: Conversion, i: nat)
    requires Parallel(r) && name in r.rowData && name != "" && NameOf(r.tables, t) == Some(name)
             && Increasing(r.rowIDs[name])
    requires |r.rowData[name]| == |rows| && i <= |rows|
    ensures var data, ids := r.rowData[name], r.rowIDs[name];
            Replayed(r, DeleteRecords(t, rows[..i], ids[..i], condition), convert) ==
            r.(rowData := r.rowData[name := KeptBy(rows[..i], data[..i], condition) + data[i..]],
               rowIDs := r.rowIDs[name := KeptBy(rows[..i], ids[..i], condition) + ids[i..]])
    decreases i
  {
    hide Apply, Replayed, Increasing, NameOf;
    var data, ids := r.rowData[name], r.rowIDs[name];
    if i == 0 {
      assert [] + data[0..] == data && [] + ids[0..] == ids;
      assert r.rowData[name := data] == r.rowData && r.rowIDs[name := ids] == r.rowIDs;
      ReplayedNone(r, convert);
    } else {
      var n := i - 1;
      DeletionsReplay(r, name, t, rows, condition, convert, n);
      assert rows[..i][..n] == rows[..n] && ids[..i][..n] == ids[..n] && data[..i][..n] == data[..n];
      var keptData, keptIDs := KeptBy(rows[..n], data[..n], condition), KeptBy(rows[..n], ids[..n], condition);
      hide KeptBy, DeleteRecords;
      SiftedStep(t, rows, ids, data, condition, n);
      WithoutMiddle(keptData, data, n);
      WithoutMiddle(keptIDs, ids, n);
      if condition(rows[n]) {
        DeletionApplies(r, name, t, keptData, keptIDs, n, rows[n], convert);
        ReplayedSnoc(r, DeleteRecords(t, rows[..n], ids[..n], condition), Delete(t, ids[n], rows[n]), convert);
      }
    }
  }

  lemma CopyTable(r: State, s: State, name: string, convert: Conversion)
    requires Parallel(r) && Sound(s) && CopyNamed(r, s, convert) && name in s.rowData && name != ""
    ensures name in r.rowData && name in r.rowIDs && name in s.rowIDs
    ensures r.rowIDs[name] == s.rowIDs[name] && Increasing(s.rowIDs[name])
    ensures |r.rowData[name]| == |s.rowData[name]| == |s.rowIDs[name]|
    ensures CopyRows(r.rowData[name], s.rowData[name], convert)
  {
    hide CopyRow, Increasing, IDsBelow;
    assert CopyOf(r, s, name, convert);
  }

  // All deletions of a table, replayed.
  lemma AllDeletionsReplay(r: State, name: string, t: nat, rows: seq<Row>, condition: Condition, convert: Conversion)
    requires Parallel(r) && name in r.rowData && name != "" && NameOf(r.tables, t) == Some(name)
             && Increasing(r.rowIDs[name])
    requires |r.rowData[name]| == |rows|
    ensures var data, ids := r.rowData[name], r.rowIDs[name];
            Replayed(r, DeleteRecords(t, rows, ids, condition), convert) ==
            r.(rowData := r.rowData[name := KeptBy(rows, data, condition)],
                rowIDs := r.rowIDs[name := KeptBy(rows, ids, condition)])
  {
    hide KeptBy, Kept, DeleteRecords, Increasing, Replayed, NameOf;
    var data, ids := r.rowData[name], r.rowIDs[name];
    DeletionsReplay(r, name, t, rows, condition, convert, |rows|);
    assert rows[..|rows|] == rows && ids[..|ids|] == ids && data[..|data|] == data;
    assert KeptBy(rows, data, condition) + data[|data|..] == KeptBy(rows, data, condition);
    assert KeptBy(rows, ids, condition) + ids[|ids|..] == KeptBy(rows, ids, condition);
  }

  lemma DeleteReplays(r: State, s: State, name: string, condition: Condition, convert: Conversion)
    requires Parallel(r) && Sound(s) && CopyNamed(r, s, convert)
    ensures var e := DeleteEffect(s, name, condition);
            CopyNamed(Replayed(r, e.records, convert), e.state, convert)
  {
    hide CopyRows, CopyNamed, KeptBy, Kept, DeleteRecords, Increasing, IDsSound, OneTablePerID, Replayed, NameOf;
    ReplayedNone(r, convert);
    CopyTables(r, s, convert);
    var e := DeleteEffect(s, name, condition);
    if name in s.tables && name in s.rowData && e.records != [] {
      var t, rows, ids := s.tables[name], s.rowData[name], s.rowIDs[name];
      CopyName(r, s, name);
      var keptRows, keptIDs := Kept(rows, condition), KeptBy(rows, ids, condition);
      if name == "" {
        DeleteRecordsOf(t.id, rows, ids, condition);
        SkippedRecords(r, t.id, e.records, convert);
        CopyElsewhere(r, s, e.state, keptRows, keptIDs, convert);
      } else {
        CopyTable(r, s, name, convert);
        AllDeletionsReplay(r, name, t.id, rows, condition, convert);
        KeptCopies(r.rowData[name], rows, condition, convert);
        CopyPutTable(r, s, Replayed(r, e.records, convert), e.state, name,
                     KeptBy(rows, r.rowData[name], condition), keptRows, keptIDs, convert);
      }
    }
  }

  lemma {:induction false} DeleteRecordsOf(t: nat, rows: seq<Row>, ids: seq<nat>, condition: Condition)
    requires |rows| == |ids|
    ensures forall i | 0 <= i < |DeleteRecords(t, rows, ids, condition)| ::
              DeleteRecords(t, rows, ids, condition)[i].Delete?
                  && DeleteRecords(t, rows, ids, condition)[i].tableID == t
    ensures DeleteRecords(t, rows, ids, condition) == [] <==> forall i | 0 <= i < |rows| :: !condition(rows[i])
  {
    if rows != [] {
      var n := |rows| - 1;
      DeleteRecordsOf(t, rows[..n], ids[..n], condition);
      assert forall i | 0 <= i < n :: rows[..n][i] == rows[i];
    }
  }

  lemma ReplayedNone(s: State, convert: Conversion)
    requires Parallel(s)
    ensures Replayed(s, [], convert) == s
  {
  }

  // ---------------------------------------------------------------- whole runs

  // Statements that the log records: no CREATE TABLE, and no UPDATE that fails on a row after
  // changing it.
  ghost predicate Recorded(s: State, op: Op) {
    && !op.CreateOp?
    && (op.UpdateOp? && op.name != "" && op.name in s.tables && op.name in s.rowData ==>
          FailureLeftRow(s.tables[op.name].columns, s.rowData[op.name], op.updater, op.condition))
  }

  ghost predicate AllRecorded(run: Run)
    requires run.Valid()
  {
    run.Then? ==> AllRecorded(run.before) && Recorded(run.before.Final(), run.op)
  }

  lemma StepReplays(r: State, s: State, op: Op, convert: Conversion)
    requires Parallel(r) && Sound(s) && CopyNamed(r, s, convert) && Callable(s, op) && Recorded(s, op)
    ensures var e := Step(s, op);
            CopyNamed(Replayed(r, e.records, convert), e.state, convert)
  {
    hide Sound, CopyNamed, InsertEffect, UpdateEffect, DeleteEffect, DropEffect, Replayed, FailureLeftRow;
    match op {
      case InsertOp(name, row) => InsertReplays(r, s, name, row, convert);
      case UpdateOp(name, updater, condition) => UpdateReplays(r, s, name, updater, condition, convert);
      case DeleteOp(name, condition) => DeleteReplays(r, s, name, condition, convert);
      case DropOp(name) => DropReplays(r, s, name, convert);
    }
  }

  // The table named "" ended the run as it was in the snapshot, or was dropped.
  ghost predicate UnnamedKept(run: Run, convert: Conversion)
    requires run.Valid()
  {
    "" in run.Final().tables ==> CopyOf(run.First(), run.Final(), "", convert)
  }

  // Replaying the log of any run over the snapshot it started from gives the live tables and
  // row ids in the live order, and each row as the live row or its image in the log. Only the
  // table named "" is left as in the snapshot: it is recovered exactly when the run kept it so.
  // The tables' own entries, row counts included, are those of the snapshot.
  lemma ReplayIsLive(run: Run, convert: Conversion)
    requires run.Valid() && AllRecorded(run) && Sound(run.First())
    ensures Sound(run.Final())
    ensures var r := Replayed(run.First(), run.Log(), convert);
            && CopyNamed(r, run.Final(), convert)
            && (Copy(r, run.Final(), convert) <==> UnnamedKept(run, convert))
            && forall name | name in r.tables :: name in run.First().tables
                 && r.tables[name] == run.First().tables[name]
  {
    hide CopyNamed, CopyOf, Replayed, Parallel, AllRecorded, Run.Valid, IDsSound, OneTablePerID;
    var first, s := run.First(), run.Final();
    SoundIsParallel(first);
    NamedReplays(run, convert);
    var r := Replayed(first, run.Log(), convert);
    ReplayLeavesUnnamed(first, run.Log(), convert);
    RunLeavesUnnamed(run);
    CopyTables(r, s, convert);
    CopyUnnamed(first, r, s, convert);
    forall name | name in r.tables
      ensures name in first.tables && r.tables[name] == first.tables[name]
    {
      ReplayKeepsTables(first, run.Log(), convert, name);
    }
  }

  lemma {:induction false} NamedReplays(run: Run, convert: Conversion)
    requires run.Valid() && AllRecorded(run) && Sound(run.First())
    ensures Sound(run.Final())
    ensures CopyNamed(Replayed(run.First(), run.Log(), convert), run.Final(), convert)
  {
    hide Sound, CopyNamed, Step, Replayed, Callable, Recorded, Parallel;
    SoundIsParallel(run.First());
    if run.Then? {
      NamedReplays(run.before, convert);
      var s := run.before.Final();
      RunStep(run);
      StepKeepsSoundRecorded(s, run.op);
      var r := Replayed(run.First(), run.before.Log(), convert);
      ReplayedInTwo(run.First(), run.before.Log(), Step(s, run.op).records, convert);
      StepReplays(r, s, run.op, convert);
    } else {
      ReplayedNone(run.First(), convert);
      CopyRefl(run.First(), convert);
    }
  }

  lemma {:induction false} ReplayKeepsTables(s: State, records: seq<Record>, convert: Conversion, name: string)
    requires Parallel(s) && name in Replayed(s, records, convert).tables
    ensures name in s.tables && Replayed(s, records, convert).tables[name] == s.tables[name]
  {
    hide NameOf, IndexOf, RemoveAt, Converted;
    if records != [] {
      ReplayKeepsTables(s, records[..|records| - 1], convert, name);
    }
  }

  // ---------------------------------------------------------------- the table named ""

  // The rows and ids stored under "" are the same in both.
  ghost predicate SameUnnamed(a: State, b: State) {
    && ("" in a.rowData <==> "" in b.rowData) && ("" in a.rowData ==> a.rowData[""] == b.rowData[""])
    && ("" in a.rowIDs <==> "" in b.rowIDs) && ("" in a.rowIDs ==> a.rowIDs[""] == b.rowIDs[""])
  }

  // They stay as they are, unless there is no such table (any more).
  ghost predicate LeavesUnnamed(a: State, b: State) {
    if "" in b.tables then SameUnnamed(a, b) else "" !in b.rowData && "" !in b.rowIDs
  }

  lemma {:induction false} ReplayLeavesUnnamed(s: State, records: seq<Record>, convert: Conversion)
    requires Parallel(s) && s.rowData.Keys <= s.tables.Keys
    ensures LeavesUnnamed(s, Replayed(s, records, convert))
    ensures "" in Replayed(s, records, convert).tables ==> "" in s.tables
  {
    hide NameOf, IndexOf, RemoveAt, Converted;
    if records != [] {
      ReplayLeavesUnnamed(s, records[..|records| - 1], convert);
    }
  }

  // Without a table of that name the live store has nothing to change either.
  lemma {:induction false} RunLeavesUnnamed(run: Run)
    requires run.Valid() && AllRecorded(run) && Sound(run.First())
    ensures "" in run.Final().tables ==> "" in run.First().tables
    ensures "" !in run.Final().tables ==> "" !in run.Final().rowData && "" !in run.Final().rowIDs
  {
    hide Step, Callable, Recorded, Replayed;
    NamedReplays(run, v => v);
    if run.Then? {
      RunStep(run);
      RunLeavesUnnamed(run.before);
      NoNewTable(run.before.Final(), run.op);
    }
  }

  lemma NoNewTable(s: State, op: Op)
    requires Callable(s, op) && !op.CreateOp?
    ensures "" in Step(s, op).state.tables ==> "" in s.tables
  {
    hide Fill, StoredRow, Acceptable, Kept, KeptBy, DeleteRecords, UpdateRows, UpdateRecords, AutoKeys;
  }

  lemma CopyUnnamed(first: State, r: State, s: State, convert: Conversion)
    requires CopyNamed(r, s, convert) && SameTables(r.tables, s.tables)
    requires LeavesUnnamed(first, r) && ("" in r.tables ==> "" in first.tables)
    requires "" !in s.tables ==> "" !in s.rowData && "" !in s.rowIDs
    ensures Copy(r, s, convert) <==> ("" in s.tables ==> CopyOf(first, s, "", convert))
  {
    hide CopyNamed, CopyRow;
  }

  // The statement changes the rows or ids of the table named "": an INSERT that is accepted, an
  // UPDATE that alters a row, a DELETE that selects one.
  ghost predicate TouchesUnnamed(s: State, op: Op) {
    "" in s.tables && op.name == "" &&
      match op
      case InsertOp(_, row) => Acceptable(s.tables[""].columns, row)
      case UpdateOp(_, updater, condition) =>
        "" in s.rowData && !AltersNothing(s.tables[""].columns, s.rowData[""], updater, condition)
      case DeleteOp(_, condition) =>
        "" in s.rowData && exists i :: 0 <= i < |s.rowData[""]| && condition(s.rowData[""][i])
      case _ => false
  }

  lemma TouchesExactly(s: State, op: Op)
    requires Callable(s, op) && "" in Step(s, op).state.tables && !op.CreateOp?
    ensures TouchesUnnamed(s, op) <==> !SameUnnamed(s, Step(s, op).state)
  {
    hide Fill, StoredRow, Acceptable, Kept, KeptBy, DeleteRecords, UpdateRows, UpdateRecords, AltersNothing, AutoKeys;
    if op.name == "" && "" in s.tables {
      match op {
        case InsertOp(_, row) =>
        case UpdateOp(_, updater, condition) =>
          if "" in s.rowData {
            UpdateLeavesRows(s.tables[""].columns, s.rowData[""], updater, condition);
          }
        case DeleteOp(_, condition) =>
          if "" in s.rowData {
            DeleteRecordsOf(s.tables[""].id, s.rowData[""], s.rowIDs[""], condition);
          }
        case DropOp(_) =>
      }
    }
  }

  // An INSERT into it that is accepted and logged is lost.
  lemma UnnamedInsertIsLost(s: State, row: Row, convert: Conversion)
    requires Sound(s) && "" in s.tables && Insertable(s, "", row) && Acceptable(s.tables[""].columns, row)
    ensures var e := InsertEffect(s, "", row);
            e.ok && |e.records| == 1 && Replayed(s, e.records, convert) == s && !Copy(s, e.state, convert)
  {
    hide Fill, StoredRow, Acceptable, NameOf, Replayed, CopyRows, IDsSound, OneTablePerID, CopyNamed;
    var e := InsertEffect(s, "", row);
    CopyRefl(s, convert);
    CopyName(s, s, "");
    SkippedRecords(s, s.tables[""].id, e.records, convert);
    assert |Get(e.state.rowIDs, "")| == |Get(s.rowIDs, "")| + 1;
  }

  // After every statement of the run.
  ghost predicate RecoverableThroughout(run: Run)
    requires run.Valid() && AllRecorded(run) && Sound(run.First())
  {
    SoundIsParallel(run.First());
    && Copy(Replayed(run.First(), run.Log(), v => v), run.Final(), v => v)
    && (run.Then? ==> RecoverableThroughout(run.before))
  }

  ghost predicate NeverTouchesUnnamed(run: Run)
    requires run.Valid()
  {
    run.Then? ==> NeverTouchesUnnamed(run.before) && !TouchesUnnamed(run.before.Final(), run.op)
  }

  // When the log carries values unchanged, recovery would meet the live tables after every
  // statement exactly when none of them changes the table named "".
  lemma {:induction false} RecoverableExactly(run: Run)
    requires run.Valid() && AllRecorded(run) && Sound(run.First())
    ensures RecoverableThroughout(run) <==> NeverTouchesUnnamed(run)
    ensures NeverTouchesUnnamed(run) && "" in run.Final().tables ==> SameUnnamed(run.First(), run.Final())
  {
    hide Sound, Copy, Replayed, Step, Callable, Recorded, TouchesUnnamed, SameUnnamed, Parallel;
    SoundIsParallel(run.First());
    ReplayIsLive(run, v => v);
    KeptMeansSame(run);
    if run.Then? {
      RunStep(run);
      RecoverableExactly(run.before);
      SoundIsParallel(run.before.First());
      NoNewTable(run.before.Final(), run.op);
      if "" in run.Final().tables {
        TouchesExactly(run.before.Final(), run.op);
        SameChain(run.First(), run.before.Final(), run.Final());
      } else {
        DroppedUntouched(run.before.Final(), run.op);
      }
    } else {
      assert SameUnnamed(run.First(), run.Final()) by {
        SameUnnamedRefl(run.First());
      }
    }
  }

  lemma SameUnnamedRefl(s: State)
    ensures SameUnnamed(s, s)
  {
  }

  lemma SameChain(a: State, b: State, c: State)
    ensures SameUnnamed(a, b) ==> (SameUnnamed(a, c) <==> SameUnnamed(b, c))
  {
  }

  // A statement after which there is no table of that name does not count as touching it.
  lemma DroppedUntouched(s: State, op: Op)
    requires Callable(s, op) && "" !in Step(s, op).state.tables && !op.CreateOp?
    ensures !TouchesUnnamed(s, op)
  {
    hide Fill, StoredRow, Acceptable, Kept, KeptBy, DeleteRecords, UpdateRows, UpdateRecords, AltersNothing, AutoKeys;
  }

  lemma KeptMeansSame(run: Run)
    requires run.Valid() && AllRecorded(run)
    ensures UnnamedKept(run, v => v) <==> ("" in run.Final().tables ==> SameUnnamed(run.First(), run.Final()))
  {
    hide AllRecorded, Run.Valid;
    var first, s := run.First(), run.Final();
    if "" in first.rowData && "" in s.rowData && |first.rowData[""]| == |s.rowData[""]| {
      SameRows(first.rowData[""], s.rowData[""], v => v);
    }
  }

  // ---------------------------------------------------------------- facts about runs

  lemma RunStep(run: Run)
    requires run.Valid() && AllRecorded(run) && run.Then?
    ensures Callable(run.before.Final(), run.op) && Recorded(run.before.Final(), run.op) && !run.op.CreateOp?
    ensures run.Log() == run.before.Log() + Step(run.before.Final(), run.op).records
    ensures run.Final() == Step(run.before.Final(), run.op).state
  {
    hide Callable, Step;
  }

  lemma StepKeepsSoundRecorded(s: State, op: Op)
    requires Sound(s) && Callable(s, op) && Recorded(s, op)
    ensures Sound(Step(s, op).state)
  {
    StepKeepsSound(s, op);
  }

  lemma SoundIsParallel(s: State)
    requires Sound(s)
    ensures Parallel(s)
  {
  }

  lemma CopyRefl(s: State, convert: Conversion)
    ensures Copy(s, s, convert)
  {
  }

  // The log carries every value of the state unchanged.
  ghost predicate Carries(s: State, convert: Conversion) {
    forall name, i, j | name in s.rowData && 0 <= i < |s.rowData[name]| && 0 <= j < |s.rowData[name][i]| ::
      convert(s.rowData[name][i][j]) == s.rowData[name][i][j]
  }

  // Then recovery gives exactly the live rows.
  lemma CopyIsExact(r: State, s: State, convert: Conversion)
    requires Copy(r, s, convert) && Carries(s, convert)
    ensures r.rowData == s.rowData && r.rowIDs == s.rowIDs && SameTables(r.tables, s.tables)
  {
    hide CopyRow, SameTables;
    forall name: string
      ensures name in r.rowData <==> name in s.rowData
      ensures name in r.rowIDs <==> name in s.rowIDs
      ensures name in s.rowIDs ==> r.rowIDs[name] == s.rowIDs[name]
      ensures name in s.rowData ==> r.rowData[name] == s.rowData[name]
    {
      assert CopyOf(r, s, name, convert);
      if name in s.rowData {
        CopyRowsExact(r.rowData[name], s.rowData[name], convert);
      }
    }
  }

  lemma CopyRowsExact(a: seq<Row>, b: seq<Row>, convert: Conversion)
    requires CopyRows(a, b, convert)
    requires forall i, j | 0 <= i < |b| && 0 <= j < |b[i]| :: convert(b[i][j]) == b[i][j]
    ensures a == b
  {
    forall i | 0 <= i < |b|
      ensures a[i] == b[i]
    {
      assert CopyRow(a[i], b[i], convert);
      assert Converted(b[i], convert) == b[i];
    }
  }

  // ---------------------------------------------------------------- the id counter

  lemma {:induction false} ReplayKeepsCounters(s: State, records: seq<Record>, convert: Conversion)
    requires Parallel(s)
    ensures Replayed(s, records, convert).nextID == s.nextID && Replayed(s, records, convert).sequences == s.sequences
  {
    if records != [] {
      ReplayKeepsCounters(s, records[..|records| - 1], convert);
    }
  }
}
