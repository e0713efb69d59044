// What recovery does not restore: row counts, the id counter and the sequences are those of the
// snapshot. When this is harmless, and what it does otherwise.

module AfterRecovery {
  import opened Collections
  import opened StoreState
  import opened StoreInvariant
  import opened Sequences
  import opened Replay

  // The state that replaying a run's log over its snapshot gives.
  ghost function Recovered(run: Run, convert: Conversion): State
    requires run.Valid() && Parallel(run.First())
  {
    Replayed(run.First(), run.Log(), convert)
  }

  // A run that starts from a good snapshot and whose log tells everything.
  ghost predicate Recoverable(run: Run) {
    run.Valid() && AllRecorded(run) && Good(run.First())
  }

  lemma RecoverableIs(run: Run, convert: Conversion)
    requires Recoverable(run)
    ensures run.Valid() && Parallel(run.First()) && Sound(run.First()) && Sound(run.Final()) && Good(run.Final())
    ensures CopyNamed(Recovered(run, convert), run.Final(), convert)
    ensures Copy(Recovered(run, convert), run.Final(), convert) <==> UnnamedKept(run, convert)
    ensures LeavesUnnamed(run.First(), Recovered(run, convert))
    ensures Recovered(run, convert).nextID == run.First().nextID
    ensures Recovered(run, convert).sequences == run.First().sequences
  {
    hide Good, IDsSound, OneTablePerID, Parallel, Copy, CopyNamed;
    GoodIsSound(run.First());
    SoundIsParallel(run.First());
    ReplayIsLive(run, convert);
    ReplayLeavesUnnamed(run.First(), run.Log(), convert);
    RunKeepsGood(run);
    ReplayKeepsCounters(run.First(), run.Log(), convert);
  }

  // From a new store through any statements to a snapshot, and from there through any logged
  // run: recovery gives the live tables, row ids and rows, that of the table named "" exactly
  // when the run kept it as it was or dropped it.
  lemma RecoveryFromAnySnapshot(before: Run, run: Run, convert: Conversion)
    requires before.Valid() && before.First() == EmptyState
    requires run.Valid() && AllRecorded(run) && run.First() == before.Final()
    ensures Recoverable(run) && Parallel(run.First())
    ensures CopyNamed(Recovered(run, convert), run.Final(), convert)
    ensures Copy(Recovered(run, convert), run.Final(), convert) <==> UnnamedKept(run, convert)
  {
    hide Good, Sound, Parallel, Copy, CopyNamed, Recovered;
    NewStoreKeepsGood(before);
    RecoverableIs(run, convert);
  }

  // ---------------------------------------------------------------- row ids

  ghost predicate Live(s: State, id: nat) {
    exists name :: name in s.rowIDs && id in s.rowIDs[name]
  }

  // The row ids that the accepted inserts of a run gave out.
  ghost function InsertedIDs(run: Run): set<nat>
    requires run.Valid()
  {
    if run.Start? then {}
    else
      var s := run.before.Final();
      InsertedIDs(run.before) + if run.op.InsertOp? && InsertEffect(s, run.op.name, run.op.row).ok then {s.nextID}
          else {}
  }

  lemma StepIDs(s: State, op: Op, id: nat)
    requires Callable(s, op) && !op.CreateOp?
    ensures var s' := Step(s, op).state;
            && (Live(s', id) ==> Live(s, id) || (op.InsertOp? && InsertEffect(s, op.name, op.row).ok && id == s.nextID))
            && s'.nextID == s.nextID + if op.InsertOp? && InsertEffect(s, op.name, op.row).ok then 1 else 0
  {
    hide Fill, StoredRow, Acceptable, Kept, KeptBy, DeleteRecords, UpdateRows, UpdateRecords, AutoKeys;
    var s' := Step(s, op).state;
    if name :| name in s'.rowIDs && id in s'.rowIDs[name] {
      if name in s.rowIDs && id in s.rowIDs[name] {
        assert Live(s, id);
      }
    }
  }

  lemma StepTables(s: State, op: Op, name: string)
    requires Callable(s, op) && !op.CreateOp? && name in Step(s, op).state.tables
    ensures name in s.tables
    ensures Step(s, op).state.tables[name].id == s.tables[name].id
    ensures Step(s, op).state.tables[name].columns == s.tables[name].columns
  {
    hide Fill, StoredRow, Acceptable, Kept, KeptBy, DeleteRecords, UpdateRows, UpdateRecords, AutoKeys;
  }

  // A live row was in the snapshot or was inserted since, under an id the snapshot had not
  // given out yet.
  lemma {:induction false} LiveIDs(run: Run, id: nat)
    requires run.Valid() && AllRecorded(run)
    ensures Live(run.Final(), id) ==> Live(run.First(), id) || id in InsertedIDs(run)
    ensures id in InsertedIDs(run) ==> run.First().nextID <= id < run.Final().nextID
    ensures run.First().nextID <= run.Final().nextID
  {
    hide Live, Step, InsertEffect, Callable;
    if run.Then? {
      LiveIDs(run.before, id);
      RunStep(run);
      StepIDs(run.before.Final(), run.op, id);
    }
  }

  lemma {:induction false} TablesShrink(run: Run, name: string)
    requires run.Valid() && AllRecorded(run) && name in run.Final().tables
    ensures name in run.First().tables
    ensures run.Final().tables[name].id == run.First().tables[name].id
    ensures run.Final().tables[name].columns == run.First().tables[name].columns
  {
    hide Step, Callable;
    if run.Then? {
      RunStep(run);
      StepTables(run.before.Final(), run.op, name);
      TablesShrink(run.before, name);
    }
  }

  // In a table that replay finds: not in the one named "".
  ghost predicate LiveNamed(s: State, id: nat) {
    exists name :: name != "" && name in s.rowIDs && id in s.rowIDs[name]
  }

  ghost predicate NoneLive(s: State, ids: set<nat>) {
    forall id | id in ids :: !LiveNamed(s, id)
  }

  ghost predicate AllBelow(s: State, limit: nat) {
    forall name | name != "" && name in s.rowIDs :: IDsBelow(s.rowIDs[name], limit)
  }

  lemma BelowMeansNoneInserted(run: Run)
    requires Recoverable(run)
    ensures AllBelow(run.Final(), run.First().nextID) <==> NoneLive(run.Final(), InsertedIDs(run))
  {
    hide InsertedIDs, Live, LiveNamed, Recoverable, AllRecorded, Run.Valid;
    RecoverableFacts(run);
    LiveBelow(run.First());
    var limit := run.First().nextID;
    if AllBelow(run.Final(), limit) {
      forall id | id in InsertedIDs(run)
        ensures !LiveNamed(run.Final(), id)
      {
        LiveIDs(run, id);
        if LiveNamed(run.Final(), id) {
          AllBelowLive(run.Final(), limit, id);
        }
      }
    }
    if NoneLive(run.Final(), InsertedIDs(run)) {
      forall name, id | name != "" && name in run.Final().rowIDs && id in run.Final().rowIDs[name]
        ensures id < limit
      {
        IsLive(run.Final(), name, id);
        LiveIDs(run, id);
      }
    }
  }

  lemma RecoverableFacts(run: Run)
    requires Recoverable(run)
    ensures run.Valid() && AllRecorded(run) && Good(run.First()) && Good(run.Final())
  {
    hide Good;
    RunKeepsGood(run);
  }

  lemma IsLive(s: State, name: string, id: nat)
    requires name in s.rowIDs && id in s.rowIDs[name]
    ensures Live(s, id) && (name != "" ==> LiveNamed(s, id))
  {
  }

  lemma AllBelowLive(s: State, limit: nat, id: nat)
    requires AllBelow(s, limit) && LiveNamed(s, id)
    ensures id < limit
  {
  }

  lemma LiveBelow(s: State)
    requires Good(s)
    ensures forall id: nat | Live(s, id) :: id < s.nextID
  {
    hide RowHolds, Increasing;
    forall id: nat | Live(s, id)
      ensures id < s.nextID
    {
      var name :| name in s.rowIDs && id in s.rowIDs[name];
      assert GoodTable(s.tables[name], s.rowData[name], s.rowIDs[name], s.nextID);
    }
  }

  // The row ids of a recovered table are the live ones or, for the name "", those of the snapshot.
  lemma RecoveredIDs(run: Run, convert: Conversion, name: string)
    requires Recoverable(run) && Parallel(run.First()) && name in Recovered(run, convert).rowIDs
    ensures var ids := Recovered(run, convert).rowIDs[name];
            if name != "" then name in run.Final().rowIDs && ids == run.Final().rowIDs[name]
            else name in run.First().rowIDs && ids == run.First().rowIDs[name]
  {
    hide Recoverable, AllRecorded, Run.Valid, Recovered, Good, Parallel, SameTables, CopyRows;
    RecoverableIs(run, convert);
    assert name != "" ==> CopyOf(Recovered(run, convert), run.Final(), name, convert);
  }

  // Every live table but the one named "" is recovered with its ids.
  lemma LiveIDsRecovered(run: Run, convert: Conversion, name: string)
    requires Recoverable(run) && Parallel(run.First()) && name in run.Final().rowIDs && name != ""
    ensures name in Recovered(run, convert).rowIDs && Recovered(run, convert).rowIDs[name] == run.Final().rowIDs[name]
  {
    hide Recoverable, AllRecorded, Run.Valid, Recovered, Good, Parallel, SameTables, CopyRows;
    RecoverableIs(run, convert);
    assert CopyOf(Recovered(run, convert), run.Final(), name, convert);
  }

  lemma GoodIDs(s: State, name: string)
    requires Good(s) && name in s.rowIDs
    ensures Increasing(s.rowIDs[name]) && IDsBelow(s.rowIDs[name], s.nextID)
  {
    hide Increasing, IDsBelow, RowHolds;
    assert GoodTable(s.tables[name], s.rowData[name], s.rowIDs[name], s.nextID);
  }

  // The ids of the recovered rows are below the recovered id counter, as they must be to stay
  // unique, exactly when every row the run inserted was deleted, or its table dropped, again, or
  // went into the table named "", which replay leaves alone.
  lemma RecoveredIDsSound(run: Run, convert: Conversion)
    requires Recoverable(run)
    ensures Parallel(run.First())
    ensures IDsSound(Recovered(run, convert)) <==> NoneLive(run.Final(), InsertedIDs(run))
  {
    hide Good, Parallel, Recoverable, AllRecorded, Run.Valid, Recovered, InsertedIDs, NoneLive, Increasing, IDsBelow;
    hide CopyNamed, LeavesUnnamed, Copy, UnnamedKept;
    RecoverableIs(run, convert);
    RecoverableFacts(run);
    BelowMeansNoneInserted(run);
    var r := Recovered(run, convert);
    CopyTables(r, run.Final(), convert);
    forall name | name in r.tables
      ensures r.tables[name].id < r.nextID
    {
      TablesShrink(run, name);
      GoodTableID(run.First(), name);
    }
    forall name | name in r.rowIDs
      ensures Increasing(r.rowIDs[name])
      ensures if name != "" then name in run.Final().rowIDs && r.rowIDs[name] == run.Final().rowIDs[name]
              else IDsBelow(r.rowIDs[name], r.nextID)
    {
      RecoveredIDs(run, convert, name);
      if name != "" {
        GoodIDs(run.Final(), name);
      } else {
        GoodIDs(run.First(), name);
      }
    }
    forall name | name in run.Final().rowIDs && name != ""
      ensures name in r.rowIDs && r.rowIDs[name] == run.Final().rowIDs[name]
    {
      LiveIDsRecovered(run, convert, name);
    }
  }

  lemma GoodTableID(s: State, name: string)
    requires Good(s) && name in s.tables
    ensures s.tables[name].id < s.nextID
  {
    hide RowHolds, Increasing, IDsBelow;
    assert GoodTable(s.tables[name], s.rowData[name], s.rowIDs[name], s.nextID);
  }

  // The first insert after recovery is given the id of the first row inserted since the
  // snapshot, which collides exactly when that row is still live in a table that replay finds.
  lemma RecoveryReusesIDs(run: Run, name: string, next: Row, convert: Conversion)
    requires Recoverable(run)
    ensures Parallel(run.First())
    ensures var r, limit := Recovered(run, convert), run.First().nextID;
            && (Insertable(r, name, next) && InsertEffect(r, name, next).ok ==>
                  InsertEffect(r, name, next).state.rowIDs[name] == Get(r.rowIDs, name) + [limit])
            && (Live(r, limit) <==> LiveNamed(run.Final(), limit))
            && (Live(r, limit) ==> limit in InsertedIDs(run))
  {
    hide Good, Parallel, Recoverable, AllRecorded, Run.Valid, Recovered, InsertedIDs, Fill, StoredRow, Acceptable;
    hide CopyNamed, LeavesUnnamed, Copy, UnnamedKept, IDsBelow, Increasing;
    RecoverableIs(run, convert);
    RecoverableFacts(run);
    var r, limit := Recovered(run, convert), run.First().nextID;
    LiveIDs(run, limit);
    LiveBelow(run.First());
    if name' :| name' in r.rowIDs && limit in r.rowIDs[name'] {
      RecoveredIDs(run, convert, name');
      assert name' == "" ==> Live(run.First(), limit);
    }
    if name' :| name' != "" && name' in run.Final().rowIDs && limit in run.Final().rowIDs[name'] {
      LiveIDsRecovered(run, convert, name');
      IsLive(run.Final(), name', limit);
    }
  }

  // ---------------------------------------------------------------- row counts

  ghost predicate SameSizes(a: State, b: State)
    requires a.tables.Keys <= b.tables.Keys && Good(a) && Good(b)
  {
    forall name | name in a.tables :: |a.rowData[name]| == |b.rowData[name]|
  }

  // A recovered table carries the row count of the snapshot. The tables are recovered with
  // their counts exactly when each has as many rows as it had there.
  lemma RecoveredRowCounts(run: Run, convert: Conversion)
    requires Recoverable(run)
    ensures Parallel(run.First())
    ensures Good(run.First()) && Good(run.Final()) && run.Final().tables.Keys <= run.First().tables.Keys
    ensures Recovered(run, convert).tables == run.Final().tables <==> SameSizes(run.Final(), run.First())
  {
    hide Recoverable, AllRecorded, Run.Valid, Replayed, RowHolds, Increasing, IDsBelow, CopyOf;
    RecoverableIs(run, convert);
    RecoverableFacts(run);
    var r, s, first := Recovered(run, convert), run.Final(), run.First();
    forall name | name in s.tables
      ensures name in first.tables && r.tables[name] == first.tables[name]
      ensures r.tables[name].id == s.tables[name].id && r.tables[name].columns == s.tables[name].columns
      ensures s.tables[name].rowCount == |s.rowData[name]| && first.tables[name].rowCount == |first.rowData[name]|
    {
      TablesShrink(run, name);
      ReplayKeepsTables(first, run.Log(), convert, name);
      assert GoodTable(s.tables[name], s.rowData[name], s.rowIDs[name], s.nextID);
      assert GoodTable(first.tables[name], first.rowData[name], first.rowIDs[name], first.nextID);
    }
    if r.tables == s.tables {
      assert forall name | name in s.tables :: r.tables[name].rowCount == s.tables[name].rowCount;
    } else {
      var name :| name in s.tables && r.tables[name] != s.tables[name];
      assert r.tables[name].rowCount != s.tables[name].rowCount;
    }
  }

  // All tables but the one named "" have as many rows in both.
  ghost predicate SameNamedSizes(a: State, b: State)
    requires a.tables.Keys <= b.tables.Keys && Good(a) && Good(b)
  {
    forall name | name != "" && name in a.tables :: |a.rowData[name]| == |b.rowData[name]|
  }

  // The recovered state keeps the invariant of the live one, when the log carries its values
  // unchanged, exactly when no inserted row is live and every table has its old size. The table
  // named "" does no harm, as replay leaves it as it was in the snapshot, row count included.
  lemma RecoveredIsGood(run: Run, convert: Conversion)
    requires Recoverable(run) && Carries(run.Final(), convert)
    ensures Parallel(run.First())
    ensures Good(run.First()) && Good(run.Final()) && run.Final().tables.Keys <= run.First().tables.Keys
    ensures Good(Recovered(run, convert)) <==>
            NoneLive(run.Final(), InsertedIDs(run)) && SameNamedSizes(run.Final(), run.First())
  {
    hide Recoverable, AllRecorded, Run.Valid, InsertedIDs, NoneLive, Recovered, CopyNamed, Copy, UnnamedKept,
         LeavesUnnamed;
    hide GoodTable, IDsSound, Carries;
    RecoverableIs(run, convert);
    RecoverableFacts(run);
    RecoveredIDsSound(run, convert);
    RecoveredRowCounts(run, convert);
    var r, s, first := Recovered(run, convert), run.Final(), run.First();
    RecoveredKeys(run, convert);
    if Good(r) {
      GoodIsSound(r);
    }
    if IDsSound(r) {
      forall name | name in r.tables
        ensures GoodTable(r.tables[name], r.rowData[name], r.rowIDs[name], r.nextID)
                <==> name == "" || |s.rowData[name]| == |first.rowData[name]|
      {
        RecoveredTableGood(run, convert, name);
      }
    }
  }

  lemma RecoveredKeys(run: Run, convert: Conversion)
    requires Recoverable(run) && Parallel(run.First())
    ensures var r := Recovered(run, convert);
            && r.tables.Keys == r.rowData.Keys == r.rowIDs.Keys == run.Final().tables.Keys
            && OneTablePerID(r.tables)
  {
    hide Recoverable, AllRecorded, Run.Valid, Recovered, GoodTable, CopyRows;
    RecoverableIs(run, convert);
    RecoverableFacts(run);
    var r, s := Recovered(run, convert), run.Final();
    forall name: string
      ensures name in r.rowIDs <==> name in s.tables
      ensures name in r.rowData <==> name in s.tables
    {
      assert name != "" ==> CopyOf(r, s, name, convert);
      if name == "" && "" in r.tables {
        TablesShrink(run, "");
      }
    }
    assert forall name | name in r.tables :: r.tables[name].id == s.tables[name].id;
  }

  lemma RecoveredTableGood(run: Run, convert: Conversion, name: string)
    requires Recoverable(run) && Parallel(run.First()) && Carries(run.Final(), convert) && name in run.Final().tables
    requires IDsSound(Recovered(run, convert))
    ensures Good(run.First()) && Good(run.Final()) && name in run.First().tables
    ensures var r := Recovered(run, convert);
            && name in r.tables && name in r.rowData && name in r.rowIDs
            && (GoodTable(r.tables[name], r.rowData[name], r.rowIDs[name], r.nextID)
                <==> name == "" || |run.Final().rowData[name]| == |run.First().rowData[name]|)
  {
    hide Recoverable, AllRecorded, Run.Valid, Recovered, CopyRows, RowHolds, Increasing, IDsBelow;
    RecoverableIs(run, convert);
    RecoverableFacts(run);
    RecoveredKeys(run, convert);
    TablesShrink(run, name);
    var r, s, first := Recovered(run, convert), run.Final(), run.First();
    RecoveredEntry(run, convert, name);
    assert GoodTable(s.tables[name], s.rowData[name], s.rowIDs[name], s.nextID);
    assert GoodTable(first.tables[name], first.rowData[name], first.rowIDs[name], first.nextID);
    if name != "" {
      assert CopyOf(r, s, name, convert);
      CopyRowsExact(r.rowData[name], s.rowData[name], convert);
    }
  }

  lemma RecoveredEntry(run: Run, convert: Conversion, name: string)
    requires Recoverable(run) && Parallel(run.First()) && name in Recovered(run, convert).tables
    ensures name in run.First().tables && Recovered(run, convert).tables[name] == run.First().tables[name]
  {
    ReplayKeepsTables(run.First(), run.Log(), convert, name);
  }

  // ---------------------------------------------------------------- sequences

  // A recovered sequence stands where the live one does exactly when no accepted insert of the
  // run took a value of it.
  lemma RecoveredSequences(run: Run, name: string, c: string, convert: Conversion)
    requires Recoverable(run) && Spares(run, name) && name in run.First().tables
    ensures Parallel(run.First())
    ensures var key := SeqKey(name, c);
            Current(Recovered(run, convert).sequences, key) == Current(run.Final().sequences, key) <==> !Draws(run, key)
  {
    hide Recovered, AllRecorded, Spares, Good, Draws, Current, SeqKey;
    RecoverableIs(run, convert);
    RunGrowsSequences(run, name, c);
  }

  lemma {:induction false} FillIgnoresRow(columns: seq<Column>, table: string, a: Row, b: Row,
          sequences: map<string, int>, j: nat)
    requires AutoInside(columns, a) && AutoInside(columns, b) && j < |a| && j < |b|
    requires j < |columns| && columns[j].Auto()
    ensures Fill(columns, table, a, sequences).sequences == Fill(columns, table, b, sequences).sequences
    ensures Fill(columns, table, a, sequences).row[j] == Fill(columns, table, b, sequences).row[j]
  {
    hide SeqKey, Current;
    var n := |columns| - 1;
    FillSequencesIgnoreRow(columns[..n], table, a, b, sequences);
    if j < n {
      assert AutoInside(columns[..n], a) && AutoInside(columns[..n], b) && columns[..n][j] == columns[j];
      FillIgnoresRow(columns[..n], table, a, b, sequences, j);
    }
  }

  lemma {:induction false} FillSequencesIgnoreRow(columns: seq<Column>, table: string, a: Row, b: Row,
          sequences: map<string, int>)
    requires AutoInside(columns, a) && AutoInside(columns, b)
    ensures Fill(columns, table, a, sequences).sequences == Fill(columns, table, b, sequences).sequences
  {
    hide SeqKey, Current;
    if columns != [] {
      FillSequencesIgnoreRow(columns[..|columns| - 1], table, a, b, sequences);
    }
  }

  // The first insert after recovery hands out again the sequence values that the first insert
  // after the snapshot got.
  lemma RecoveryRepeatsSequences(run: Run, name: string, first: Row, next: Row, j: nat, convert: Conversion)
    requires Recoverable(run) && name in run.Final().tables && name in run.First().tables
    requires Insertable(run.First(), name, first) && j < |first| && j < |next|
    requires AutoInside(run.First().tables[name].columns, next)
    requires j < |run.First().tables[name].columns| && run.First().tables[name].columns[j].Auto()
    ensures Parallel(run.First())
    ensures var r := Recovered(run, convert);
            && name in r.tables && Insertable(r, name, next)
            && InsertedRow(r, name, next)[j] == InsertedRow(run.First(), name, first)[j]
  {
    hide Recoverable, Recovered, AllRecorded, Good, Fill, CopyOf, StoredRow, Run.Valid;
    RecoverableIs(run, convert);
    RecoverableFacts(run);
    TablesShrink(run, name);
    var columns := run.First().tables[name].columns;
    FillIgnoresRow(columns, name, StoredRow(columns, first), StoredRow(columns, next), run.First().sequences, j);
  }
}
