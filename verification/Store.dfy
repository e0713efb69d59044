// The storage object: statements update its maps in place and append to the log.

module Store {
  import opened Collections
  import opened StoreState
  import opened StoreInvariant
  import opened RowUpdates
  import opened StoredValues
  import opened Replay

  datatype Failure = NoTable | TableExists | TooLong(column: nat) | NullValue(column: nat)

  // A record with the sequence number writeWAL gives it.
  datatype Entry = Entry(lsn: nat, record: Record)

  function Stamped(records: seq<Record>, base: nat): (entries: seq<Entry>)
    ensures |entries| == |records|
  {
    seq(|records|, i requires 0 <= i < |records| => Entry(base + 1 + i, records[i]))
  }

  function Unstamped(entries: seq<Entry>): (records: seq<Record>)
    ensures |records| == |entries|
  {
    seq(|entries|, i requires 0 <= i < |entries| => entries[i].record)
  }

  lemma StampedSnoc(records: seq<Record>, r: Record, base: nat)
    ensures Stamped(records + [r], base) == Stamped(records, base) + [Entry(base + |records| + 1, r)]
  {
  }

  lemma NoRowsChanged(columns: seq<Column>, rows: seq<Row>, updater: Updater, condition: Condition)
    ensures UpdateRows(columns, rows, updater, condition, 0) == Progress(rows, [], false)
  {
  }

  // Which of the two checks refused a value.
  function Refusal(c: Column, v: Value, j: nat): Failure {
    if Fits(c, v) then NullValue(j) else TooLong(j)
  }

  // Too long, or null in a column that may not be.
  ghost predicate Complaint(c: Column, v: Value, j: nat, failure: Failure) {
    failure == if c.length > 0 && |Shown(v)| > c.length && (c.kind == VarcharType || (c.kind == CharType && v != Null))
               then TooLong(j) else NullValue(j)
  }

  // The first value that is not allowed.
  ghost predicate FirstComplaint(columns: seq<Column>, given: Row, failure: Failure) {
    exists j: nat :: j < |columns| && j < |given| && !Allowed(columns[j], given[j], IsSequence(columns[j]))
                     && (forall k | 0 <= k < j :: Allowed(columns[k], given[k], IsSequence(columns[k])))
                     && Complaint(columns[j], given[j], j, failure)
  }

  // UPDATE complains about the first value that is not allowed in the first row that has one.
  ghost predicate UpdateComplaint(columns: seq<Column>, rows: seq<Row>, updater: Updater, condition: Condition,
                                  failure: Failure) {
    exists i, k :: 0 <= i < |rows| && condition(rows[i]) && 0 <= k < |updater(rows[i])|
                   && (forall n | 0 <= n < i :: !Stops(columns, rows[n], updater, condition))
                   && (forall n | 0 <= n < k :: !Barred(columns, rows[i], updater(rows[i])[n]))
                   && var u := updater(rows[i])[k];
                      Barred(columns, rows[i], u) && Complaint(columns[u.column], u.value, u.column, failure)
  }

  // The failure of a row whose assignments are not all accepted.
  ghost predicate RefusedFor(columns: seq<Column>, row: Row, updates: seq<Assignment>, failure: Failure) {
    var k := FirstRefused(columns, row, updates);
    k < |updates| && var u := updates[k];
    u.column < |columns| && failure == Refusal(columns[u.column], u.value, u.column)
  }

  lemma UpdateComplaintIs(columns: seq<Column>, rows: seq<Row>, updater: Updater, condition: Condition,
                          failure: Failure)
    requires var f := FirstRefusing(columns, rows, updater, condition);
             f < |rows| && RefusedFor(columns, rows[f], updater(rows[f]), failure)
    ensures UpdateComplaint(columns, rows, updater, condition, failure)
  {
    hide Accepts, Allowed, Refuses, FirstRefusing, FirstRefused, Shown;
    var f := FirstRefusing(columns, rows, updater, condition);
    var k := FirstRefused(columns, rows[f], updater(rows[f]));
    forall n | 0 <= n < f
      ensures !Stops(columns, rows[n], updater, condition)
    {
      StopsIs(columns, rows[n], updater, condition);
    }
    forall u: Assignment
      ensures Refused(columns, rows[f], u) <==> Barred(columns, rows[f], u)
    {
      if u.column < |columns| {
        StoredAsKeeps(columns[u.column], u.value, false);
      }
    }
    var u := updater(rows[f])[k];
    RefusalIs(columns[u.column], u.value, u.column);
  }

  lemma RefusalIs(c: Column, v: Value, j: nat)
    ensures Complaint(c, v, j, Refusal(c, v, j))
  {
  }

  lemma ComplaintIs(columns: seq<Column>, given: Row, j: nat)
    requires j < |columns| && j < |given| && !Accepts(columns[j], given[j], columns[j].Auto())
    requires Acceptable(columns[..j], given)
    ensures FirstComplaint(columns, given, Refusal(columns[j], given[j], j))
  {
    hide Allowed, Accepts;
    StoredAsKeeps(columns[j], given[j], columns[j].Auto());
    forall k | 0 <= k < j
      ensures Allowed(columns[k], given[k], IsSequence(columns[k]))
    {
      StoredAsKeeps(columns[k], given[k], columns[k].Auto());
      assert columns[..j][k] == columns[k];
    }
  }

  // What the callback is given for a logged row.
  function CallOf(r: Record): (nat, Row) {
    if r.DropTable? then (0, []) else (r.rowID, r.row)
  }

  function CallsOf(records: seq<Record>): (calls: seq<(nat, Row)>)
    ensures |calls| == |records|
  {
    seq(|records|, i requires 0 <= i < |records| => CallOf(records[i]))
  }

  lemma NoCalls()
    ensures CallsOf([]) == []
  {
  }

  lemma CallsSnoc(records: seq<Record>, r: Record)
    ensures CallsOf(records + [r]) == CallsOf(records) + [CallOf(r)]
  {
  }

  lemma NothingStamped(base: nat)
    ensures Stamped([], base) == []
  {
  }

  // ---------------------------------------------------------------- unrolling the loops

  lemma {:induction false} FailureStays(columns: seq<Column>, row: Row, updates: seq<Assignment>, k: nat)
    requires k <= |updates| && Assign(columns, row, updates[..k]).failed
    ensures Assign(columns, row, updates) == Assign(columns, row, updates[..k])
    decreases |updates|
  {
    if k < |updates| {
      var n := |updates| - 1;
      assert updates[..n][..k] == updates[..k];
      FailureStays(columns, row, updates[..n], k);
    } else {
      assert updates[..k] == updates;
    }
  }

  lemma {:induction false} FailedUpdateStays(columns: seq<Column>, rows: seq<Row>, updater: Updater,
          condition: Condition, n: nat)
    requires n <= |rows| && UpdateRows(columns, rows, updater, condition, n).failed
    ensures UpdateRows(columns, rows, updater, condition, |rows|) == UpdateRows(columns, rows, updater, condition, n)
    decreases |rows| - n
  {
    hide Assign;
    if n < |rows| {
      FailedUpdateStays(columns, rows, updater, condition, n + 1);
    }
  }

  lemma UpdateStep(columns: seq<Column>, rows: seq<Row>, updater: Updater, condition: Condition, i: nat)
    requires i < |rows| && !UpdateRows(columns, rows, updater, condition, i).failed
    ensures var p := UpdateRows(columns, rows, updater, condition, i);
            var a := Assign(columns, rows[i], updater(rows[i]));
            && p.rows[i] == rows[i]
            && UpdateRows(columns, rows, updater, condition, i + 1) ==
               if condition(rows[i])
               then Progress(p.rows[i := a.row], if a.failed then p.changed else p.changed + [i], a.failed)
               else p
  {
    hide Assign;
    UpdatedRowsAre(columns, rows, updater, condition, i, i);
  }

  lemma FirstFailed(columns: seq<Column>, rows: seq<Row>, updater: Updater, condition: Condition, i: nat)
    requires i < |rows| && condition(rows[i]) && Assign(columns, rows[i], updater(rows[i])).failed
    requires !UpdateRows(columns, rows, updater, condition, i).failed
    ensures FirstRefusing(columns, rows, updater, condition) == i
  {
    hide Assign, Refuses;
    UpdatedRowsAre(columns, rows, updater, condition, i, i);
    AssignFails(columns, rows[i], updater(rows[i]));
  }

  lemma NothingSifted(t: nat, rows: seq<Row>, ids: seq<nat>, condition: Condition)
    requires rows == [] && ids == []
    ensures Kept(rows, condition) == [] && KeptBy(rows, ids, condition) == []
            && DeleteRecords(t, rows, ids, condition) == []
  {
  }

  lemma SiftStep(t: nat, rows: seq<Row>, ids: seq<nat>, condition: Condition, i: nat)
    requires |rows| == |ids| && i < |rows|
    ensures var kept := Kept(rows[..i], condition);
            Kept(rows[..i + 1], condition) == if condition(rows[i]) then kept else kept + [rows[i]]
    ensures var kept := KeptBy(rows[..i], ids[..i], condition);
            KeptBy(rows[..i + 1], ids[..i + 1], condition) == if condition(rows[i]) then kept else kept + [ids[i]]
    ensures var records := DeleteRecords(t, rows[..i], ids[..i], condition);
            DeleteRecords(t, rows[..i + 1], ids[..i + 1], condition) ==
            if condition(rows[i]) then records + [Delete(t, ids[i], rows[i])] else records
  {
    assert rows[..i + 1][..i] == rows[..i] && ids[..i + 1][..i] == ids[..i];
  }

  lemma AutoKeysStep(columns: seq<Column>, table: string, j: nat)
    requires j < |columns|
    ensures AutoKeys(columns[..j + 1], table) ==
            if columns[j].Auto() then AutoKeys(columns[..j], table) + {SeqKey(table, columns[j].name)}
                else AutoKeys(columns[..j], table)
  {
    hide SeqKey;
    assert forall i | 0 <= i < j :: columns[..j + 1][i] == columns[..j][i];
    assert columns[..j + 1][j] == columns[j];
  }

  lemma NoRecords(t: nat, ids: seq<nat>, rows: seq<Row>)
    requires |ids| == |rows|
    ensures UpdateRecords(t, ids, rows, []) == [] && CallsOf([]) == []
  {
  }

  lemma NoAutoKeys(columns: seq<Column>, table: string)
    requires columns == []
    ensures AutoKeys(columns, table) == {}
  {
  }

  lemma ZeroedStep(sequences: map<string, int>, keys: set<string>, key: string)
    ensures Zeroed(sequences, keys + {key}) == Zeroed(sequences, keys)[key := 0]
  {
  }

  class Storage {
    const enabled: bool
    var tables: map<string, Table>
    var rowData: map<string, seq<Row>>
    var rowIDs: map<string, seq<nat>>
    var sequences: map<string, int>
    var nextID: nat
    var walSeq: nat
    var log: seq<Entry>

    ghost function State(): State
      reads this`tables, this`rowData, this`rowIDs, this`sequences, this`nextID
    {
      StoreState.State(tables, rowData, rowIDs, sequences, nextID)
    }

    // What the log and its counter become after writing these records.
    ghost predicate Logged(oldLog: seq<Entry>, oldSeq: nat, records: seq<Record>)
      reads this`log, this`walSeq
    {
      && walSeq == oldSeq + (if enabled then |records| else 0)
      && log == oldLog + (if enabled then Stamped(records, oldSeq) else [])
    }

    constructor (enabled: bool)
      ensures State() == EmptyState && log == [] && walSeq == 0 && this.enabled == enabled
    {
      this.enabled := enabled;
      tables, rowData, rowIDs, sequences := map[], map[], map[], map[];
      nextID, walSeq, log := 1, 0, [];
    }

    method WriteWAL(record: Record)
      modifies this`walSeq, this`log
      ensures Logged(old(log), old(walSeq), [record])
    {
      if !enabled {
        return;
      }
      walSeq := walSeq + 1;
      log := log + [Entry(walSeq, record)];
    }

    lemma NothingLogged()
      ensures Logged(log, walSeq, [])
    {
    }

    // Writing one more record after a list of records.
    method WriteNext(record: Record, ghost written: seq<Record>, ghost log0: seq<Entry>, ghost seq0: nat)
      requires Logged(log0, seq0, written)
      modifies this`walSeq, this`log
      ensures Logged(log0, seq0, written + [record])
    {
      StampedSnoc(written, record, seq0);
      WriteWAL(record);
    }

    // Checks a value against its column and pads it; UPDATE's processValue.
    method ProcessValue(column: Column, j: nat, val: Value) returns (r: Result<Value, Failure>)
      ensures r == if Accepts(column, val, false) then Ok(StoredAs(column, val)) else Err(Refusal(column, val, j))
    {
      hide Shown, Spaces;
      if column.kind == CharType && column.length > 0 && val != Null {
        var str := Shown(val);
        var runeCount := |str|;
        if runeCount > column.length {
          return Err(TooLong(j));
        }
        if runeCount < column.length {
          return Ok(Text(str + Spaces(column.length - runeCount)));
        }
      }
      if column.kind == VarcharType && column.length > 0 {
        if |Shown(val)| > column.length {
          return Err(TooLong(j));
        }
      }
      if !column.nullable && val == Null {
        return Err(NullValue(j));
      }
      return Ok(val);
    }

    // InsertRow's validation loop: the first refused column decides.
    method ProcessRow(columns: seq<Column>, values: Row) returns (r: Result<Row, Failure>)
      ensures r.Ok? <==> Acceptable(columns, values)
      ensures r.Ok? ==> r.value == StoredRow(columns, values)
      ensures r.Err? ==> exists j | 0 <= j < |columns| && j < |values| ::
                && r.error == Refusal(columns[j], values[j], j)
                && !Accepts(columns[j], values[j], columns[j].Auto())
                && Acceptable(columns[..j], values)
    {
      hide Shown, Accepts, StoredAs, Refusal;
      var row := values;
      var i := 0;
      while i < |columns|
        invariant 0 <= i <= |columns| && |row| == |values|
        invariant Acceptable(columns[..i], values)
        invariant forall j | 0 <= j < |row| :: row[j] == if j < i then StoredAs(columns[j], values[j]) else values[j]
      {
        if i < |row| {
          var processed := ProcessInserted(columns[i], i, row[i]);
          if processed.Err? {
            return Err(processed.error);
          }
          row := row[i := processed.value];
        }
        i := i + 1;
      }
      assert columns[..i] == columns;
      return Ok(row);
    }

    method ProcessInserted(column: Column, j: nat, val: Value) returns (r: Result<Value, Failure>)
      ensures r == if Accepts(column, val, column.Auto()) then Ok(StoredAs(column, val))
              else Err(Refusal(column, val, j))
    {
      hide Shown, Spaces;
      var stored := val;
      if column.kind == CharType && column.length > 0 && stored != Null {
        var str := Shown(stored);
        var runeCount := |str|;
        if runeCount > column.length {
          return Err(TooLong(j));
        }
        if runeCount < column.length {
          stored := Text(str + Spaces(column.length - runeCount));
        }
      }
      if column.kind == VarcharType && column.length > 0 {
        if |Shown(stored)| > column.length {
          return Err(TooLong(j));
        }
      }
      if !column.nullable && stored == Null && !column.autoInc && column.kind != SeqType {
        return Err(NullValue(j));
      }
      return Ok(stored);
    }

    // The auto-increment loop.
    method FillRow(columns: seq<Column>, tableName: string, values: Row) returns (row: Row, lastInsertID: int)
      requires AutoInside(columns, values)
      modifies this`sequences
      ensures Filled(row, sequences, lastInsertID) == Fill(columns, tableName, values, old(sequences))
    {
      row, lastInsertID := values, 0;
      var i := 0;
      while i < |columns|
        invariant 0 <= i <= |columns| && AutoInside(columns[..i], values)
        invariant Filled(row, sequences, lastInsertID) == Fill(columns[..i], tableName, values, old(sequences))
      {
        assert columns[..i + 1][..i] == columns[..i];
        if columns[i].Auto() {
          var seqKey := SeqKey(tableName, columns[i].name);
          var next := Current(sequences, seqKey) + 1;
          sequences := sequences[seqKey := next];
          row := row[i := Int(next)];
          lastInsertID := next;
        }
        i := i + 1;
      }
      assert columns[..i] == columns;
    }

    // `stored` is what the caller's slice holds afterwards: the row as it was stored.
    method InsertRow(tableName: string, values: Row) returns (r: Result<(nat, int), Failure>, stored: Row)
      requires Insertable(State(), tableName, values)
      modifies this`tables, this`rowData, this`rowIDs, this`sequences, this`nextID, this`walSeq, this`log
      ensures var e := InsertEffect(old(State()), tableName, values);
              && State() == e.state && Logged(old(log), old(walSeq), e.records) && r.Ok? == e.ok
      ensures r.Ok? ==> r.value.0 == old(nextID) && stored == InsertedRow(old(State()), tableName, values)
      ensures r.Ok? <==> tableName in old(tables) && AllAllowed(old(tables)[tableName].columns, values)
      ensures r.Ok? ==>
                var columns := old(tables)[tableName].columns;
                && InsertedAs(columns, tableName, values, stored, old(sequences)) && LastID(columns, stored, r.value.1)
                && Advanced(columns, tableName, old(sequences), sequences)
                && rowData == old(rowData)[tableName := Get(old(rowData), tableName) + [stored]]
                && rowIDs == old(rowIDs)[tableName := Get(old(rowIDs), tableName) + [old(nextID)]]
      ensures r.Err? ==> if tableName !in old(tables) then r.error == NoTable
                         else FirstComplaint(old(tables)[tableName].columns, values, r.error)
    {
      hide Acceptable, Fill, StoredRow, Stamped, Refusal, InsertedAs, Advanced, AllAllowed, LastID,
           FirstComplaint;
      stored := values;
      if tableName !in tables {
        assert Stamped([], walSeq) == [];
        return Err(NoTable), stored;
      }
      var info := tables[tableName];
      InsertedRowIs(info.columns, tableName, values, sequences);
      LastIs(info.columns, tableName, StoredRow(info.columns, values), sequences);
      var processed := ProcessRow(info.columns, values);
      if processed.Err? {
        ghost var j :| 0 <= j < |info.columns| && j < |values|
            && processed.error == Refusal(info.columns[j], values[j], j)
            && !Accepts(info.columns[j], values[j], info.columns[j].Auto()) && Acceptable(info.columns[..j], values);
        ComplaintIs(info.columns, values, j);
        assert Stamped([], walSeq) == [];
        return Err(processed.error), stored;
      }
      var lastInsertID;
      stored, lastInsertID := FillRow(info.columns, tableName, processed.value);
      var rowID := nextID;
      nextID := nextID + 1;
      WriteWAL(Insert(info.id, rowID, stored));
      rowData := rowData[tableName := Get(rowData, tableName) + [stored]];
      rowIDs := rowIDs[tableName := Get(rowIDs, tableName) + [rowID]];
      tables := tables[tableName := info.(rowCount := info.rowCount + 1)];
      return Ok((rowID, lastInsertID)), stored;
    }

    // The loop over the update map of one row.
    method AssignRow(columns: seq<Column>, row: Row, updates: seq<Assignment>)
      returns (r: Result<Row, Failure>, now: Row)
      ensures Assigned(now, r.Err?) == Assign(columns, row, updates)
      ensures if r.Ok? then r.value == now else RefusedFor(columns, row, updates, r.error)
    {
      hide Accepts, StoredAs, Refusal, FirstRefused;
      now := row;
      var k := 0;
      while k < |updates|
        invariant 0 <= k <= |updates|
        invariant Assigned(now, false) == Assign(columns, row, updates[..k])
        invariant forall i | 0 <= i < k :: !Refused(columns, row, updates[i])
      {
        assert updates[..k + 1][..k] == updates[..k];
        var u := updates[k];
        if u.column < |row| {
          if u.column >= |columns| {
            now := now[u.column := u.value];
          } else {
            var processed := ProcessValue(columns[u.column], u.column, u.value);
            if processed.Err? {
              FailureStays(columns, row, updates, k + 1);
              return Err(processed.error), now;
            }
            now := now[u.column := processed.value];
          }
        }
        k := k + 1;
      }
      assert updates[..k] == updates;
      return Ok(now), now;
    }

    // UpdateRowsWithCallback. `calls` lists what the callback was given, in order; the row is
    // the updated one.
    method UpdateRowsWithCallback(tableName: string, updater: Updater, condition: Condition)
      returns (r: Result<int, Failure>, calls: seq<(nat, Row)>)
      requires Parallel(State())
      modifies this`rowData, this`walSeq, this`log
      ensures var e := UpdateEffect(old(State()), tableName, updater, condition);
              && State() == e.state && Logged(old(log), old(walSeq), e.records) && r.Ok? == e.ok
              && calls == CallsOf(e.records)
              && (r.Ok? ==> r.value == |e.records|)
      ensures r.Ok? <==> tableName in tables && (tableName in old(rowData) ==>
                forall i | 0 <= i < |old(rowData)[tableName]| ::
                  !Stops(tables[tableName].columns, old(rowData)[tableName][i], updater, condition))
      ensures tableName in tables && tableName in old(rowData) ==>
                && tableName in rowData
                && UpdatedTo(tables[tableName].columns, old(rowData)[tableName], rowData[tableName], updater, condition)
      ensures forall name | name in old(rowData) && name != tableName ::
                name in rowData && rowData[name] == old(rowData)[name]
      ensures r.Err? ==> if tableName !in tables then r.error == NoTable
                         else tableName in old(rowData) &&
                              UpdateComplaint(tables[tableName].columns, old(rowData)[tableName], updater, condition,
                                              r.error)
    {
      hide Stamped, UpdateRows, Assign, CallsOf, Stops, UpdatedTo, UpdateComplaint;
      if tableName in tables && tableName in rowData {
        UpdateIs(tables[tableName].columns, rowData[tableName], updater, condition);
      }
      NoCalls();
      if tableName !in tables {
        return Err(NoTable), [];
      }
      if tableName !in rowData {
        return Ok(0), [];
      }
      r, calls := UpdateEach(tableName, updater, condition);
    }

    // One row that meets the condition: assign in place, then log.
    method UpdateOne(tableName: string, info: Table, ids: seq<nat>, i: nat, updates: seq<Assignment>,
                     ghost changed: seq<nat>, ghost log0: seq<Entry>, ghost seq0: nat)
      returns (outcome: Result<Row, Failure>, now: Row)
      requires tableName in rowData && |ids| == |rowData[tableName]| && i < |ids| && forall k | k in changed :: k < i
      requires Logged(log0, seq0, UpdateRecords(info.id, ids, rowData[tableName], changed))
      modifies this`rowData, this`walSeq, this`log
      ensures rowData == old(rowData)[tableName := old(rowData[tableName])[i := now]]
      ensures Assigned(now, outcome.Err?) == Assign(info.columns, old(rowData[tableName])[i], updates)
      ensures outcome.Err? ==> RefusedFor(info.columns, old(rowData[tableName])[i], updates, outcome.error)
      ensures forall k | k in changed + [i] :: k < |ids|
      ensures var rows := rowData[tableName];
              if outcome.Ok? then
                && Logged(log0, seq0, UpdateRecords(info.id, ids, rows, changed + [i]))
                && CallsOf(UpdateRecords(info.id, ids, rows, changed + [i])) ==
                   CallsOf(UpdateRecords(info.id, ids, old(rowData[tableName]), changed)) + [(ids[i], now)]
              else
                && Logged(log0, seq0, UpdateRecords(info.id, ids, rows, changed))
                && UpdateRecords(info.id, ids, rows, changed) ==
                     UpdateRecords(info.id, ids, old(rowData[tableName]), changed)
    {
      hide UpdateRecords, Assign, CallsOf, Storage.Logged, RefusedFor;
      var rows := rowData[tableName];
      outcome, now := AssignRow(info.columns, rows[i], updates);
      rowData := rowData[tableName := rows[i := now]];
      RecordsKeep(info.id, ids, rows, changed, i, now);
      CallsSnoc(UpdateRecords(info.id, ids, rows, changed), Update(info.id, ids[i], now, now));
      if outcome.Ok? {
        WriteNext(Update(info.id, ids[i], now, now), UpdateRecords(info.id, ids, rows, changed), log0, seq0);
      }
    }

    method UpdateEach(tableName: string, updater: Updater, condition: Condition)
      returns (r: Result<int, Failure>, calls: seq<(nat, Row)>)
      requires Parallel(State()) && tableName in tables && tableName in rowData
      modifies this`rowData, this`walSeq, this`log
      ensures var e := UpdateEffect(old(State()), tableName, updater, condition);
              && State() == e.state && Logged(old(log), old(walSeq), e.records) && r.Ok? == e.ok
              && calls == CallsOf(e.records)
              && (r.Ok? ==> r.value == |e.records|)
      ensures r.Err? ==>
                UpdateComplaint(tables[tableName].columns, old(rowData[tableName]), updater, condition, r.error)
    {
      hide Stamped, UpdateRows, UpdateRecords, Assign, CallOf, CallsOf, Accepts, StoredAs, Storage.Logged, RefusedFor,
           FirstRefusing, Refuses, UpdateComplaint;
      var info, ids := tables[tableName], rowIDs[tableName];
      ghost var rows0 := rowData[tableName];
      NoRowsChanged(info.columns, rows0, updater, condition);
      NoRecords(info.id, ids, rowData[tableName]);
      NothingLogged();
      var count := 0;
      calls := [];
      ghost var changed: seq<nat> := [];
      var i := 0;
      while i < |ids|
        invariant 0 <= i <= |ids| && |rows0| == |ids| && rowData.Keys == old(rowData.Keys)
        invariant rowData == old(rowData)[tableName := UpdateRows(info.columns, rows0, updater, condition, i).rows]
        invariant Progress(rowData[tableName], changed, false) == UpdateRows(info.columns, rows0, updater, condition, i)
        invariant count == |changed|
        invariant Logged(old(log), old(walSeq), UpdateRecords(info.id, ids, rowData[tableName], changed))
        invariant calls == CallsOf(UpdateRecords(info.id, ids, rowData[tableName], changed))
      {
        UpdateStep(info.columns, rows0, updater, condition, i);
        var rows := rowData[tableName];
        var row := rows[i];
        if condition(row) {
          var outcome, now := UpdateOne(tableName, info, ids, i, updater(row), changed, old(log), old(walSeq));
          if outcome.Err? {
            FailedUpdateStays(info.columns, rows0, updater, condition, i + 1);
            FirstFailed(info.columns, rows0, updater, condition, i);
            UpdateComplaintIs(info.columns, rows0, updater, condition, outcome.error);
            return Err(outcome.error), calls;
          }
          count := count + 1;
          calls := calls + [(ids[i], now)];
          changed := changed + [i];
        }
        i := i + 1;
      }
      return Ok(count), calls;
    }

    // DeleteRowsWithCallback; DeleteRows is the same without the calls.
    method DeleteRowsWithCallback(tableName: string, condition: Condition)
      returns (r: Result<int, Failure>, calls: seq<(nat, Row)>)
      requires Parallel(State())
      modifies this`tables, this`rowData, this`rowIDs, this`walSeq, this`log
      ensures var e := DeleteEffect(old(State()), tableName, condition);
              && State() == e.state && Logged(old(log), old(walSeq), e.records) && r.Ok? == e.ok
              && calls == CallsOf(e.records)
              && (r.Ok? ==> r.value == |e.records|)
    {
      hide Stamped, DeleteRecords, Kept, KeptBy, CallsOf;
      NoCalls();
      NothingStamped(walSeq);
      if tableName !in tables {
        return Err(NoTable), [];
      }
      if tableName !in rowData {
        return Ok(0), [];
      }
      var info := tables[tableName];
      var newRows, newRowIDs, count;
      newRows, newRowIDs, count, calls := Sift(info.id, rowData[tableName], rowIDs[tableName], condition);
      if count > 0 {
        rowData := rowData[tableName := newRows];
        rowIDs := rowIDs[tableName := newRowIDs];
        tables := tables[tableName := info.(rowCount := info.rowCount - count)];
      }
      return Ok(count), calls;
    }

    // The loop that splits the two parallel lists.
    method Sift(tableID: nat, rows: seq<Row>, ids: seq<nat>, condition: Condition)
      returns (newRows: seq<Row>, newRowIDs: seq<nat>, count: int, calls: seq<(nat, Row)>)
      requires |rows| == |ids|
      modifies this`walSeq, this`log
      ensures newRows == Kept(rows, condition) && newRowIDs == KeptBy(rows, ids, condition)
      ensures Logged(old(log), old(walSeq), DeleteRecords(tableID, rows, ids, condition))
      ensures calls == CallsOf(DeleteRecords(tableID, rows, ids, condition))
      ensures count == |DeleteRecords(tableID, rows, ids, condition)|
    {
      hide Stamped, CallsOf, DeleteRecords, Kept, KeptBy;
      NoCalls();
      NothingStamped(walSeq);
      NothingSifted(tableID, rows[..0], ids[..0], condition);
      newRows, newRowIDs, count, calls := [], [], 0, [];
      var i := 0;
      while i < |rows|
        invariant 0 <= i <= |rows|
        invariant newRows == Kept(rows[..i], condition) && newRowIDs == KeptBy(rows[..i], ids[..i], condition)
        invariant Logged(old(log), old(walSeq), DeleteRecords(tableID, rows[..i], ids[..i], condition))
        invariant calls == CallsOf(DeleteRecords(tableID, rows[..i], ids[..i], condition))
        invariant count == |DeleteRecords(tableID, rows[..i], ids[..i], condition)|
      {
        SiftStep(tableID, rows, ids, condition, i);
        if condition(rows[i]) {
          ghost var written := DeleteRecords(tableID, rows[..i], ids[..i], condition);
          CallsSnoc(written, Delete(tableID, ids[i], rows[i]));
          count := count + 1;
          calls := calls + [(ids[i], rows[i])];
          WriteNext(Delete(tableID, ids[i], rows[i]), written, old(log), old(walSeq));
        } else {
          newRows := newRows + [rows[i]];
          newRowIDs := newRowIDs + [ids[i]];
        }
        i := i + 1;
      }
      assert rows[..i] == rows && ids[..i] == ids;
    }

    method DropTable(name: string) returns (r: Result<(), Failure>)
      modifies this`tables, this`rowData, this`rowIDs, this`sequences, this`walSeq, this`log
      ensures var e := DropEffect(old(State()), name);
              State() == e.state && Logged(old(log), old(walSeq), e.records) && r.Ok? == e.ok
      ensures r == if name in old(tables) then Ok(()) else Err(NoTable)
      ensures r.Ok? ==>
                tables == old(tables) - {name} && rowData == old(rowData) - {name} && rowIDs == old(rowIDs) - {name}
    {
      if name !in tables {
        return Err(NoTable);
      }
      var info := tables[name];
      var j := 0;
      while j < |info.columns|
        invariant 0 <= j <= |info.columns|
        modifies this`sequences
        invariant sequences == old(sequences) - AutoKeys(info.columns[..j], name)
      {
        AutoKeysStep(info.columns, name, j);
        if info.columns[j].Auto() {
          sequences := sequences - {SeqKey(name, info.columns[j].name)};
        }
        j := j + 1;
      }
      assert info.columns[..j] == info.columns;
      rowData := rowData - {name};
      rowIDs := rowIDs - {name};
      tables := tables - {name};
      WriteWAL(Record.DropTable(info.id, name));
      return Ok(());
    }

    method ZeroSequences(name: string, columns: seq<Column>)
      modifies this`sequences
      ensures sequences == Zeroed(old(sequences), AutoKeys(columns, name))
    {
      hide AutoKeys;
      NoAutoKeys(columns[..0], name);
      var j := 0;
      while j < |columns|
        invariant 0 <= j <= |columns|
        invariant sequences == Zeroed(old(sequences), AutoKeys(columns[..j], name))
      {
        AutoKeysStep(columns, name, j);
        if columns[j].Auto() {
          ZeroedStep(old(sequences), AutoKeys(columns[..j], name), SeqKey(name, columns[j].name));
          sequences := sequences[SeqKey(name, columns[j].name) := 0];
        }
        j := j + 1;
      }
      assert columns[..j] == columns;
    }

    // The search through the tables map for an id; "" stands for no such table.
    method FindTable(id: nat) returns (tableName: string)
      requires OneTablePerID(tables)
      ensures tableName == match NameOf(tables, id) case Some(name) => name case None => ""
    {
      tableName := "";
      var todo := tables.Keys;
      while todo != {}
        invariant todo <= tables.Keys && tableName == ""
        invariant forall name | name in tables && name !in todo :: tables[name].id != id
        decreases todo
      {
        var name :| name in todo;
        if tables[name].id == id {
          NameIs(tables, id, name);
          tableName := name;
          break;
        }
        todo := todo - {name};
      }
    }

    method FindRow(ids: seq<nat>, id: nat) returns (k: nat)
      ensures k == IndexOf(ids, id)
    {
      k := 0;
      while k < |ids| && ids[k] != id
        invariant k <= |ids|
        invariant forall i | 0 <= i < k :: ids[i] != id
      {
        k := k + 1;
      }
      IndexOfIs(ids, id, k);
    }

    // One turn of the replay loop.
    method ReplayRecord(record: Record, convert: Conversion)
      requires Parallel(State()) && OneTablePerID(tables)
      modifies this`tables, this`rowData, this`rowIDs
      ensures State() == Apply(old(State()), record, convert)
      ensures Parallel(State()) && OneTablePerID(tables)
    {
      hide Converted, NameOf, IndexOf, RemoveAt;
      if record.DropTable? {
        tables := tables - {record.name};
        rowData := rowData - {record.name};
        rowIDs := rowIDs - {record.name};
        return;
      }
      var tableName := FindTable(record.tableID);
      if tableName == "" {
        return;
      }
      var rows, ids := Get(rowData, tableName), Get(rowIDs, tableName);
      if record.Insert? {
        rowData := rowData[tableName := rows + [Converted(record.row, convert)]];
        rowIDs := rowIDs[tableName := ids + [record.rowID]];
        return;
      }
      var i := FindRow(ids, record.rowID);
      if i < |ids| {
        if record.Update? {
          rowData := rowData[tableName := rows[i := Converted(record.row, convert)]];
        } else {
          rowData := rowData[tableName := RemoveAt(rows, i)];
          rowIDs := rowIDs[tableName := RemoveAt(ids, i)];
        }
      }
    }

    // recoverFromWAL, after the log has been read: replays the records and takes over the
    // largest sequence number.
    method RecoverFromWAL(entries: seq<Entry>, convert: Conversion)
      requires enabled && Parallel(State()) && OneTablePerID(tables)
      modifies this`tables, this`rowData, this`rowIDs, this`walSeq
      ensures State() == Replayed(old(State()), Unstamped(entries), convert)
      ensures walSeq >= old(walSeq) && forall e | e in entries :: e.lsn <= walSeq
      ensures walSeq == old(walSeq) || exists e :: e in entries && e.lsn == walSeq
    {
      hide Apply;
      var i := 0;
      while i < |entries|
        invariant 0 <= i <= |entries|
        invariant Parallel(State()) && OneTablePerID(tables)
        invariant State() == Replayed(old(State()), Unstamped(entries[..i]), convert)
        invariant walSeq >= old(walSeq) && forall k | 0 <= k < i :: entries[k].lsn <= walSeq
        invariant walSeq == old(walSeq) || exists k :: 0 <= k < i && entries[k].lsn == walSeq
      {
        assert Unstamped(entries[..i + 1]) == Unstamped(entries[..i]) + [entries[i].record];
        ReplayedSnoc(old(State()), Unstamped(entries[..i]), entries[i].record, convert);
        ReplayRecord(entries[i].record, convert);
        if entries[i].lsn > walSeq {
          walSeq := entries[i].lsn;
        }
        i := i + 1;
      }
      assert entries[..i] == entries;
    }

    // CreateTable of an in-memory database; with a disk it makes a page file instead.
    method CreateTable(name: string, columns: seq<Column>) returns (r: Result<(), Failure>)
      requires !enabled
      modifies this`tables, this`rowData, this`rowIDs, this`sequences, this`nextID
      ensures var e := CreateEffect(old(State()), name, columns);
              State() == e.state && r.Ok? == e.ok
      ensures r == if name in old(tables) then Err(TableExists) else Ok(())
      ensures r.Ok? ==>
                && tables == old(tables)[name := Table(old(nextID), columns, 0)] && nextID == old(nextID) + 1
                && rowData == old(rowData)[name := []] && rowIDs == old(rowIDs)[name := []]
    {
      if name in tables {
        return Err(TableExists);
      }
      tables := tables[name := Table(nextID, columns, 0)];
      nextID := nextID + 1;
      ZeroSequences(name, columns);
      rowData := rowData[name := []];
      rowIDs := rowIDs[name := []];
      return Ok(());
    }
  }
}
