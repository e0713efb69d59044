// The sequences behind SEQ and AUTO_INCREMENT columns: when two tables share one, and what runs
// do to them.

module Sequences {
  import opened Collections
  import opened StoreState
  import opened StoreInvariant

  // ---------------------------------------------------------------- shared sequences

  // One table name continues the other behind an underscore.
  predicate Clash(t: string, t': string) {
    t + "_" <= t' || t' + "_" <= t
  }

  lemma KeyPrefix(t: string, t': string, c: string, c': string)
    requires SeqKey(t, c) == SeqKey(t', c') && |t| < |t'|
    ensures t + "_" <= t'
  {
    var key := SeqKey(t, c);
    assert key[..|t|] == t && key[|t|] == '_';
    assert key[..|t'|] == t';
    assert t'[..|t|] == t && t'[|t|] == '_';
  }

  lemma KeyLengths(t: string, t': string, c: string, c': string)
    requires SeqKey(t, c) == SeqKey(t', c') && t != t'
    ensures |t| != |t'|
  {
    var key := SeqKey(t, c);
    assert key[..|t|] == t && key[..|t'|] == t';
  }

  // Two tables can have sequences of the same name exactly when their names clash.
  lemma SharedKeys(t: string, t': string)
    requires t != t'
    ensures (exists c, c' :: SeqKey(t, c) == SeqKey(t', c')) <==> Clash(t, t')
  {
    if c, c' :| SeqKey(t, c) == SeqKey(t', c') {
      if |t| < |t'| {
        KeyPrefix(t, t', c, c');
      } else {
        KeyLengths(t, t', c, c');
        KeyPrefix(t', t, c', c);
      }
    }
    if t + "_" <= t' {
      SharedByClash(t, t');
    }
    if t' + "_" <= t {
      SharedByClash(t', t);
    }
  }

  lemma SharedByClash(t: string, t': string)
    requires t + "_" <= t'
    ensures SeqKey(t, t'[|t| + 1..] + "_") == SeqKey(t', "")
  {
    var x := t'[|t| + 1..];
    assert t' == t + "_" + x;
    assert t + "_" + (x + "_") == t' + "_" + "";
  }

  lemma OtherKeys(columns: seq<Column>, t: string, name: string, c: string)
    requires t != name && !Clash(t, name)
    ensures SeqKey(name, c) !in AutoKeys(columns, t)
  {
    hide SeqKey;
    SharedKeys(t, name);
    forall j | 0 <= j < |columns| && columns[j].Auto()
      ensures SeqKey(t, columns[j].name) != SeqKey(name, c)
    {
    }
  }

  ghost predicate HasSequence(s: State, name: string, j: nat) {
    && name in s.tables && j < |s.tables[name].columns| && s.tables[name].columns[j].Auto()
    && SeqKey(name, s.tables[name].columns[j].name) in s.sequences
  }

  // Some run of statements leads from a new store to this state.
  ghost predicate Reachable(s: State) {
    exists run: Run :: run.Valid() && run.First() == EmptyState && run.Final() == s
  }

  lemma ReachableStep(s: State, op: Op)
    requires Reachable(s) && Callable(s, op)
    ensures Reachable(Step(s, op).state)
  {
    hide Step, Callable;
    var run: Run :| run.Valid() && run.First() == EmptyState && run.Final() == s;
    assert Then(run, op).Valid() && Then(run, op).First() == EmptyState;
  }

  function SeqColumn(name: string): Column {
    Column(name, SeqType, 0, false, false)
  }

  function SeqTable(name: string, column: string): Op {
    CreateOp(name, [SeqColumn(column)])
  }

  // A new store in which a table with one sequence column has been created.
  function OneTable(name: string, column: string): State {
    Step(EmptyState, SeqTable(name, column)).state
  }

  // And a row inserted into it.
  function OneRow(name: string, column: string): State {
    Step(OneTable(name, column), InsertOp(name, [Null])).state
  }

  lemma OneTableIs(name: string, column: string)
    ensures Reachable(OneTable(name, column))
    ensures OneTable(name, column) ==
            State(map[name := Table(1, [SeqColumn(column)], 0)], map[name := []], map[name := []],
                  map[SeqKey(name, column) := 0], 2)
  {
    hide SeqKey, AutoKeys;
    assert Start(EmptyState).Valid();
    ReachableStep(EmptyState, SeqTable(name, column));
    OneAutoKey(name, column);
    assert Zeroed(map[], {SeqKey(name, column)}) == map[SeqKey(name, column) := 0];
  }

  lemma OneRowIs(name: string, column: string)
    ensures Reachable(OneRow(name, column))
    ensures OneRow(name, column) ==
            State(map[name := Table(1, [SeqColumn(column)], 1)], map[name := [[Int(1)]]], map[name := [2]],
                  map[SeqKey(name, column) := 1], 3)
  {
    hide SeqKey, AutoKeys, Fill, StoredRow, Acceptable, AutoInside;
    OneTableIs(name, column);
    var s := OneTable(name, column);
    hide OneTable;
    FillOne(name, column, s.sequences);
    ReachableStep(s, InsertOp(name, [Null]));
    var e := Step(s, InsertOp(name, [Null]));
    assert e.state.sequences == map[SeqKey(name, column) := 1];
    assert Get(s.rowData, name) + [[Int(1)]] == [[Int(1)]] && Get(s.rowIDs, name) + [s.nextID] == [2];
    assert e.state.rowData == map[name := [[Int(1)]]];
    assert e.state.rowIDs == map[name := [2]];
    assert e.state.tables == map[name := Table(1, [SeqColumn(column)], 1)];
  }

  lemma OneAutoKey(name: string, column: string)
    ensures AutoKeys([SeqColumn(column)], name) == {SeqKey(name, column)}
  {
    var columns := [SeqColumn(column)];
    assert columns[0].Auto();
  }

  lemma FillOne(name: string, column: string, sequences: map<string, int>)
    ensures var value, key := Current(sequences, SeqKey(name, column)) + 1, SeqKey(name, column);
            && Acceptable([SeqColumn(column)], [Null]) && AutoInside([SeqColumn(column)], [Null])
            && StoredRow([SeqColumn(column)], [Null]) == [Null]
            && Fill([SeqColumn(column)], name, [Null], sequences) ==
                 Filled([Int(value)], sequences[key := value], value)
  {
    var columns := [SeqColumn(column)];
    assert columns[..0] == [];
    assert Fill(columns[..0], name, [Null], sequences) == Filled([Null], sequences, 0);
  }

  lemma DropSpares(s: State, t: string, t': string, j: nat)
    requires t != t' && !Clash(t, t') && HasSequence(s, t', j)
    ensures HasSequence(DropEffect(s, t).state, t', j)
  {
    if t in s.tables {
      OtherKeys(s.tables[t].columns, t, t', s.tables[t'].columns[j].name);
    }
  }

  // Dropping table t loses no sequence of table t', whatever statements came before and whatever
  // their columns, exactly when the two names do not clash.
  lemma DropSparesExactly(t: string, t': string)
    requires t != t'
    ensures (forall s: State, j: nat | Reachable(s) && HasSequence(s, t', j) ::
            HasSequence(DropEffect(s, t).state, t', j))
            <==> !Clash(t, t')
  {
    if Clash(t, t') {
      SharedKeys(t, t');
      var c, c' :| SeqKey(t, c) == SeqKey(t', c');
      DropLosesShared(t, t', c, c');
    } else {
      forall s: State, j: nat | HasSequence(s, t', j)
        ensures HasSequence(DropEffect(s, t).state, t', j)
      {
        DropSpares(s, t, t', j);
      }
    }
  }

  // Create both tables, and drop one.
  lemma DropLosesShared(t: string, t': string, c: string, c': string)
    requires t != t' && SeqKey(t, c) == SeqKey(t', c')
    ensures var s := Step(OneTable(t', c'), SeqTable(t, c)).state;
            Reachable(s) && HasSequence(s, t', 0) && !HasSequence(DropEffect(s, t).state, t', 0)
  {
    hide SeqKey, AutoKeys, Reachable;
    OneTableIs(t', c');
    var s := OneTable(t', c');
    hide OneTable;
    OneAutoKey(t, c);
    ReachableStep(s, SeqTable(t, c));
  }

  // CREATE TABLE sets its sequences to zero.
  lemma CreateSpares(s: State, t: string, columns: seq<Column>, t': string, c: string)
    requires t != t' && !Clash(t, t')
    ensures Current(CreateEffect(s, t, columns).state.sequences, SeqKey(t', c)) == Current(s.sequences, SeqKey(t', c))
  {
    OtherKeys(columns, t, t', c);
  }

  ghost predicate CreateKeepsValues(s: State, t: string, columns: seq<Column>, t': string) {
    forall j: nat | HasSequence(s, t', j) ::
      var key := SeqKey(t', s.tables[t'].columns[j].name);
      Current(CreateEffect(s, t, columns).state.sequences, key) == Current(s.sequences, key)
  }

  // Creating table t leaves every sequence of table t' where it stands, whatever statements came
  // before and whatever their columns, exactly when the two names do not clash.
  lemma CreateSparesExactly(t: string, t': string)
    requires t != t'
    ensures (forall s: State, columns: seq<Column> | Reachable(s) :: CreateKeepsValues(s, t, columns, t'))
            <==> !Clash(t, t')
  {
    hide SeqKey, Reachable, Clash;
    if Clash(t, t') {
      SharedKeys(t, t');
      var c, c' :| SeqKey(t, c) == SeqKey(t', c');
      CreateRepeatsValue(t, t', c, c');
      OneRowIs(t', c');
      var s := OneRow(t', c');
      hide OneRow;
      assert HasSequence(s, t', 0) && s.tables[t'].columns[0].name == c';
      assert !CreateKeepsValues(s, t, [SeqColumn(c)], t');
    } else {
      forall s: State, columns: seq<Column>
        ensures CreateKeepsValues(s, t, columns, t')
      {
        forall j: nat | HasSequence(s, t', j)
          ensures var key := SeqKey(t', s.tables[t'].columns[j].name);
                  Current(CreateEffect(s, t, columns).state.sequences, key) == Current(s.sequences, key)
        {
          CreateSpares(s, t, columns, t', s.tables[t'].columns[j].name);
        }
      }
    }
  }

  // Create t' and insert a row, create t, and insert another row into t': both rows get value 1.
  lemma CreateRepeatsValue(t: string, t': string, c: string, c': string)
    requires t != t' && SeqKey(t, c) == SeqKey(t', c')
    ensures var s := OneRow(t', c');
            && Reachable(s) && HasSequence(s, t', 0) && Current(s.sequences, SeqKey(t', c')) == 1
            && var e := Step(s, SeqTable(t, c));
               && e.ok && Current(e.state.sequences, SeqKey(t', c')) == 0
               && Callable(e.state, InsertOp(t', [Null]))
               && Step(e.state, InsertOp(t', [Null])).ok
               && Step(e.state, InsertOp(t', [Null])).state.rowData[t'] == [[Int(1)], [Int(1)]]
  {
    hide SeqKey, AutoKeys, Fill, StoredRow, Acceptable, AutoInside, Reachable;
    OneRowIs(t', c');
    var s := OneRow(t', c');
    hide OneRow;
    OneAutoKey(t, c);
    var created := Step(s, SeqTable(t, c)).state;
    FillOne(t', c', created.sequences);
    assert Current(created.sequences, SeqKey(t', c')) == 0;
    assert created.rowData[t'] + [[Int(1)]] == [[Int(1)], [Int(1)]];
  }

  // So it is with a column c of table a_b and a column b_c of table a.
  lemma ClashingNames()
    ensures Clash("a", "a_b") && SeqKey("a", "b_c") == SeqKey("a_b", "c")
  {
  }

  // ---------------------------------------------------------------- runs

  // The run drops neither the table nor one that clashes with it, and creates none that does.
  ghost predicate Spares(run: Run, name: string) {
    run.Then? ==>
      && Spares(run.before, name)
      && (run.op.DropOp? ==> run.op.name != name && !Clash(run.op.name, name))
      && (run.op.CreateOp? ==> run.op.name == name || !Clash(run.op.name, name))
  }

  lemma FillMoves(columns: seq<Column>, table: string, row: Row, sequences: map<string, int>, key: string)
    requires AutoInside(columns, row)
    ensures var now, was := Current(Fill(columns, table, row, sequences).sequences, key), Current(sequences, key);
            if key in AutoKeys(columns, table) then now > was else now == was
  {
    hide SeqKey;
    if columns != [] {
      var n := |columns| - 1;
      assert AutoInside(columns[..n], row);
      FillMoves(columns[..n], table, row, sequences, key);
      AutoKeysLast(columns, table);
    }
  }

  lemma AutoKeysLast(columns: seq<Column>, table: string)
    requires columns != []
    ensures var n := |columns| - 1;
            AutoKeys(columns, table) ==
            AutoKeys(columns[..n], table) + if columns[n].Auto() then {SeqKey(table, columns[n].name)} else {}
  {
    hide SeqKey;
    var n := |columns| - 1;
    assert forall i | 0 <= i < n :: columns[..n][i] == columns[i];
  }

  // Some accepted insert of the run took a value of the sequence.
  ghost predicate Draws(run: Run, key: string)
    requires run.Valid()
  {
    run.Then? &&
      (|| Draws(run.before, key)
       || (run.op.InsertOp? && InsertEffect(run.before.Final(), run.op.name, run.op.row).ok
           && key in AutoKeys(run.before.Final().tables[run.op.name].columns, run.op.name)))
  }

  // One statement of such a run.
  lemma StepSpares(s: State, op: Op, name: string, c: string)
    requires Callable(s, op) && name in s.tables
    requires op.DropOp? ==> op.name != name && !Clash(op.name, name)
    requires op.CreateOp? ==> op.name == name || !Clash(op.name, name)
    ensures var s', key := Step(s, op).state, SeqKey(name, c);
            && name in s'.tables && s'.tables[name].columns == s.tables[name].columns
            && if op.InsertOp? && InsertEffect(s, op.name, op.row).ok
                 && key in AutoKeys(s.tables[op.name].columns, op.name)
               then Current(s'.sequences, key) > Current(s.sequences, key)
               else Current(s'.sequences, key) == Current(s.sequences, key)
  {
    hide Fill, StoredRow, Acceptable, Kept, KeptBy, DeleteRecords, UpdateRows, UpdateRecords, AutoKeys, SeqKey, Clash;
    match op {
      case InsertOp(t, row) =>
        if InsertEffect(s, t, row).ok {
          FillMoves(s.tables[t].columns, t, StoredRow(s.tables[t].columns, row), s.sequences, SeqKey(name, c));
        }
      case UpdateOp(t, updater, condition) =>
      case DeleteOp(t, condition) =>
      case DropOp(t) =>
        if t in s.tables {
          OtherKeys(s.tables[t].columns, t, name, c);
        }
      case CreateOp(t, columns) =>
        if t != name {
          OtherKeys(columns, t, name, c);
        }
    }
  }

  // Over such a run the table keeps its columns, and its sequences grow exactly when some
  // accepted insert takes a value.
  lemma {:induction false} RunGrowsSequences(run: Run, name: string, c: string)
    requires run.Valid() && Spares(run, name) && name in run.First().tables
    ensures name in run.Final().tables && run.Final().tables[name].columns == run.First().tables[name].columns
    ensures var key := SeqKey(name, c);
            && Current(run.First().sequences, key) <= Current(run.Final().sequences, key)
            && (Current(run.First().sequences, key) < Current(run.Final().sequences, key) <==> Draws(run, key))
  {
    hide Current, SeqKey, AutoKeys, Step, InsertEffect, Clash, Callable;
    if run.Then? {
      RunGrowsSequences(run.before, name, c);
      StepSpares(run.before.Final(), run.op, name, c);
    }
  }

  // Between two accepted inserts into a table the value of a sequence column strictly
  // increases, whatever statements ran in between, other tables' DROP and CREATE included, as
  // long as these do not clash with it.
  lemma SequenceValuesIncrease(s: State, name: string, row: Row, run: Run, later: Row, j: nat)
    requires Insertable(s, name, row) && InsertEffect(s, name, row).ok
    requires run.Valid() && Spares(run, name) && run.First() == InsertEffect(s, name, row).state
    requires Insertable(run.Final(), name, later) && InsertEffect(run.Final(), name, later).ok
    requires j < |s.tables[name].columns| && s.tables[name].columns[j].Auto() && j < |row| && j < |later|
    ensures var a, b := InsertedRow(s, name, row)[j], InsertedRow(run.Final(), name, later)[j];
            a.Int? && b.Int? && a.n < b.n
  {
    hide Fill, StoredRow, Current, Acceptable, SeqKey, Draws, Spares;
    var columns := s.tables[name].columns;
    FillSets(columns, name, StoredRow(columns, row), s.sequences, j);
    RunGrowsSequences(run, name, columns[j].name);
    FillSets(columns, name, StoredRow(columns, later), run.Final().sequences, j);
  }
}
