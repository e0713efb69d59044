// The lengths of VARCHAR and CHAR columns: INSERT measures what it is given, but writes sequence
// values afterwards. When these fit, and when every stored value does.

module ColumnLengths {
  import opened Collections
  import opened StoreState
  import opened StoreInvariant
  import opened Sequences

  // ---------------------------------------------------------------- values

  function Pow10(n: nat): (p: nat)
    ensures p >= 1
  {
    if n == 0 then 1 else 10 * Pow10(n - 1)
  }

  lemma {:induction false} DigitsLength(v: nat, n: nat)
    requires n >= 1
    ensures |Digits(v)| <= n <==> v < Pow10(n)
    ensures |Digits(v)| >= 1
    decreases v
  {
    if v < 10 {
      PowersGrow(n);
    } else if n > 1 {
      DigitsLength(v / 10, n - 1);
    } else {
      DigitsLength(v / 10, 1);
      assert Pow10(1) == 10 * Pow10(0) == 10;
    }
  }

  lemma {:induction false} PowersGrow(n: nat)
    requires n >= 1
    ensures Pow10(n) >= 10
  {
    if n > 1 {
      PowersGrow(n - 1);
    }
  }

  // The values a sequence column has room for.
  predicate InRange(c: Column, v: nat) {
    && (c.kind == VarcharType && c.length > 0 ==> v < Pow10(c.length))
    && (c.kind == CharType && c.length > 0 ==> v < Pow10(c.length) && (c.length > 1 ==> v >= Pow10(c.length - 1)))
  }

  lemma SequenceValueFits(c: Column, v: nat)
    ensures Measured(c, Int(v)) <==> InRange(c, v)
  {
    hide Digits, Pow10;
    if c.length > 0 {
      DigitsLength(v, c.length);
      if c.length > 1 {
        DigitsLength(v, c.length - 1);
      }
    }
  }

  // A sequence column whose sequence no other column of the table uses gets the next value,
  // and the value fits exactly when it is in range.
  lemma InsertedSequenceFits(columns: seq<Column>, table: string, row: Row, sequences: map<string, int>, j: nat)
    requires AutoInside(columns, row) && j < |columns| && columns[j].Auto()
    requires forall i | 0 <= i < |columns| && i != j && columns[i].Auto() :: columns[i].name != columns[j].name
    requires Current(sequences, SeqKey(table, columns[j].name)) >= 0
    ensures var next, v := Current(sequences, SeqKey(table, columns[j].name)) + 1,
            Fill(columns, table, row, sequences).row[j];
            v == Int(next) && (Measured(columns[j], v) <==> InRange(columns[j], next))
  {
    FillTakesNext(columns, table, row, sequences, j);
    SequenceValueFits(columns[j], Current(sequences, SeqKey(table, columns[j].name)) + 1);
  }

  lemma {:induction false} FillTakesNext(columns: seq<Column>, table: string, row: Row, sequences: map<string, int>,
          j: nat)
    requires AutoInside(columns, row) && j < |columns| && columns[j].Auto()
    requires forall i | 0 <= i < |columns| && i != j && columns[i].Auto() :: columns[i].name != columns[j].name
    ensures Fill(columns, table, row, sequences).row[j] == Int(Current(sequences, SeqKey(table, columns[j].name)) + 1)
  {
    hide Current, SeqKey;
    var n := |columns| - 1;
    var before := columns[..n];
    assert forall i | 0 <= i < n :: before[i] == columns[i];
    assert AutoInside(before, row);
    if j < n {
      FillTakesNext(before, table, row, sequences, j);
    } else {
      FillMoves(before, table, row, sequences, SeqKey(table, columns[j].name));
      forall i | 0 <= i < n && before[i].Auto()
        ensures SeqKey(table, before[i].name) != SeqKey(table, columns[j].name)
      {
        KeysDiffer(table, before[i].name, columns[j].name);
      }
    }
  }

  lemma KeysDiffer(table: string, a: string, b: string)
    requires a != b
    ensures SeqKey(table, a) != SeqKey(table, b)
  {
    assert SeqKey(table, a)[|table| + 1..] == a && SeqKey(table, b)[|table| + 1..] == b;
  }

  // ---------------------------------------------------------------- rows and tables

  ghost predicate MeasuredRow(columns: seq<Column>, row: Row) {
    forall j | 0 <= j < |columns| && j < |row| :: Measured(columns[j], row[j])
  }

  ghost predicate MeasuredRows(columns: seq<Column>, rows: seq<Row>) {
    forall row | row in rows :: MeasuredRow(columns, row)
  }

  // Every stored value has the length its column asks for, sequence values included.
  ghost predicate AllMeasured(s: State) {
    forall name | name in s.tables && name in s.rowData :: MeasuredRows(s.tables[name].columns, s.rowData[name])
  }

  ghost predicate Counting(sequences: map<string, int>) {
    forall key | key in sequences :: sequences[key] >= 0
  }

  predicate Ranged(c: Column, v: Value) {
    v.Int? && v.n >= 0 && InRange(c, v.n)
  }

  // The statement is an accepted INSERT that draws a sequence value out of its column's range.
  ghost predicate Overflows(s: State, op: Op)
    requires Callable(s, op)
  {
    op.InsertOp? && op.name in s.tables && Acceptable(s.tables[op.name].columns, op.row) &&
      exists j :: 0 <= j < |s.tables[op.name].columns| && s.tables[op.name].columns[j].Auto()
                  && j < |op.row| && !Ranged(s.tables[op.name].columns[j], InsertedRow(s, op.name, op.row)[j])
  }

  lemma StoredMeasured(c: Column, v: Value, exempt: bool)
    requires Accepts(c, v, exempt)
    ensures Measured(c, StoredAs(c, v))
  {
  }

  // Filling leaves measured what is not a sequence column, and draws counting numbers.
  lemma FilledColumn(columns: seq<Column>, table: string, row: Row, sequences: map<string, int>, j: nat)
    requires AutoInside(columns, row) && Acceptable(columns, row) && Counting(sequences) && j < |columns| && j < |row|
    ensures var v := Fill(columns, table, StoredRow(columns, row), sequences).row[j];
            Measured(columns[j], v) <==> (columns[j].Auto() ==> Ranged(columns[j], v))
  {
    hide Measured, InRange, Fill, SeqKey, StoredAs, Accepts;
    var stored := StoredRow(columns, row);
    FillSets(columns, table, stored, sequences, j);
    if columns[j].Auto() {
      SequenceValueFits(columns[j], Fill(columns, table, stored, sequences).row[j].n);
    } else {
      StoredMeasured(columns[j], row[j], false);
    }
  }

  lemma {:induction false} FillCounts(columns: seq<Column>, table: string, row: Row, sequences: map<string, int>)
    requires AutoInside(columns, row) && Counting(sequences)
    ensures Counting(Fill(columns, table, row, sequences).sequences)
  {
    hide SeqKey;
    if columns != [] {
      FillCounts(columns[..|columns| - 1], table, row, sequences);
    }
  }

  lemma InsertMeasured(s: State, name: string, row: Row)
    requires Good(s) && AllMeasured(s) && Counting(s.sequences) && Callable(s, InsertOp(name, row))
    ensures AllMeasured(InsertEffect(s, name, row).state) <==> !Overflows(s, InsertOp(name, row))
    ensures Counting(InsertEffect(s, name, row).state.sequences)
  {
    hide Measured, Ranged, Fill, StoredRow, Acceptable, GoodTable, Counting, MeasuredRows;
    var e := InsertEffect(s, name, row);
    if e.ok {
      var columns := s.tables[name].columns;
      var stored := InsertedRow(s, name, row);
      FillCounts(columns, name, StoredRow(columns, row), s.sequences);
      forall j | 0 <= j < |columns| && j < |row|
        ensures Measured(columns[j], stored[j]) <==> (columns[j].Auto() ==> Ranged(columns[j], stored[j]))
      {
        FilledColumn(columns, name, row, s.sequences, j);
      }
      assert MeasuredRow(columns, stored) <==> !Overflows(s, InsertOp(name, row));
      MeasuredSnoc(columns, s.rowData[name], stored);
      assert e.state.tables[name].columns == columns && e.state.rowData[name] == s.rowData[name] + [stored];
      forall other | other in s.tables && other != name
        ensures MeasuredRows(e.state.tables[other].columns, e.state.rowData[other])
      {
        assert e.state.rowData[other] == s.rowData[other];
      }
    }
  }

  lemma MeasuredSnoc(columns: seq<Column>, rows: seq<Row>, row: Row)
    requires MeasuredRows(columns, rows)
    ensures MeasuredRows(columns, rows + [row]) <==> MeasuredRow(columns, row)
  {
    hide MeasuredRow;
    assert row in rows + [row];
  }

  lemma {:induction false} AssignMeasured(columns: seq<Column>, row: Row, updates: seq<Assignment>)
    requires MeasuredRow(columns, row)
    ensures MeasuredRow(columns, Assign(columns, row, updates).row)
  {
    hide Measured, StoredAs, Accepts;
    if updates != [] {
      var n := |updates| - 1;
      AssignMeasured(columns, row, updates[..n]);
      var u := updates[n];
      if u.column < |columns| && Accepts(columns[u.column], u.value, false) {
        StoredMeasured(columns[u.column], u.value, false);
      }
    }
  }

  lemma {:induction false} UpdateMeasured(columns: seq<Column>, rows: seq<Row>, updater: Updater, condition: Condition,
          n: nat)
    requires n <= |rows| && MeasuredRows(columns, rows)
    ensures MeasuredRows(columns, UpdateRows(columns, rows, updater, condition, n).rows)
  {
    hide Assign, MeasuredRow;
    if n > 0 {
      UpdateMeasured(columns, rows, updater, condition, n - 1);
      AssignMeasured(columns, rows[n - 1], updater(rows[n - 1]));
      var p := UpdateRows(columns, rows, updater, condition, n - 1);
      ReplacedRow(p.rows, n - 1, Assign(columns, rows[n - 1], updater(rows[n - 1])).row);
    }
  }

  lemma KeptMeasured(columns: seq<Column>, rows: seq<Row>, condition: Condition)
    requires MeasuredRows(columns, rows)
    ensures MeasuredRows(columns, Kept(rows, condition))
  {
    hide MeasuredRow;
  }

  // One statement keeps all lengths exactly when it does not draw such a value.
  lemma StepMeasured(s: State, op: Op)
    requires Good(s) && AllMeasured(s) && Counting(s.sequences) && Callable(s, op)
    ensures AllMeasured(Step(s, op).state) <==> !Overflows(s, op)
    ensures Counting(Step(s, op).state.sequences)
  {
    hide MeasuredRows, UpdateRows, UpdateRecords, Kept, KeptBy, DeleteRecords, AutoKeys, InsertEffect, GoodTable;
    match op {
      case InsertOp(name, row) => InsertMeasured(s, name, row);
      case UpdateOp(name, updater, condition) =>
        if name in s.tables {
          UpdateMeasured(s.tables[name].columns, s.rowData[name], updater, condition, |s.rowData[name]|);
        }
      case DeleteOp(name, condition) =>
        if name in s.tables {
          KeptMeasured(s.tables[name].columns, s.rowData[name], condition);
        }
      case DropOp(name) =>
      case CreateOp(name, columns) =>
        NoRowsMeasured(columns);
    }
  }

  lemma NoRowsMeasured(columns: seq<Column>)
    ensures MeasuredRows(columns, [])
  {
  }

  // ---------------------------------------------------------------- runs

  // After every statement of the run.
  ghost predicate AlwaysMeasured(run: Run)
    requires run.Valid()
  {
    AllMeasured(run.Final()) && (run.Then? ==> AlwaysMeasured(run.before))
  }

  ghost predicate NeverOverflows(run: Run)
    requires run.Valid()
  {
    run.Then? ==> NeverOverflows(run.before) && !Overflows(run.before.Final(), run.op)
  }

  lemma {:induction false} RunMeasured(run: Run)
    requires run.Valid() && Good(run.First()) && AllMeasured(run.First()) && Counting(run.First().sequences)
    ensures AlwaysMeasured(run) <==> NeverOverflows(run)
    ensures Counting(run.Final().sequences) || !AlwaysMeasured(run)
  {
    hide AllMeasured, Overflows, Counting, Good, Step, Callable;
    if run.Then? {
      RunMeasured(run.before);
      RunKeepsGood(run.before);
      var s := run.before.Final();
      if AlwaysMeasured(run.before) {
        StepMeasured(s, run.op);
      }
    }
  }

  // From a new store on, every stored value keeps to the length of its column after every
  // statement exactly when no accepted INSERT draws a sequence value out of its column's range.
  lemma NewStoreMeasured(run: Run)
    requires run.Valid() && run.First() == EmptyState
    ensures AlwaysMeasured(run) <==> NeverOverflows(run)
  {
    RunMeasured(run);
  }
}
