// When a full-text index agrees with the rows of its table, and what INSERT, UPDATE and DELETE
// do to that agreement.

module TextAgreement {
  import opened Collections
  import opened StoreState
  import opened StoreInvariant
  import opened RowUpdates
  import opened Replay
  import opened IndexState
  import opened SearchSpec
  import Store

  type Documents = map<nat, set<Term>>

  // The indexed column and how its text is split for indexing.
  datatype TextColumn = TextColumn(table: string, position: nat, tokens: string -> seq<Token>) {
    // Rows whose text is not handed to the index: too short or empty.
    predicate Skips(row: Row) {
      position >= |row| || Shown(row[position]) == ""
    }

    // The document of a text.
    function DocOfValue(v: Value): Option<set<Term>> {
      if Shown(v) == "" || tokens(Shown(v)) == [] then None else Some(TermsOf(tokens(Shown(v))))
    }

    // The document a row should have.
    function DocOf(row: Row): Option<set<Term>> {
      if position < |row| then DocOfValue(row[position]) else None
    }

    // The document a row has after the indexing callback ran, given what it had before.
    function Reindex(row: Row, before: Option<set<Term>>): Option<set<Term>> {
      if Skips(row) then before else DocOf(row)
    }
  }

  function Lookup(docs: Documents, id: nat): Option<set<Term>> {
    if id in docs then Some(docs[id]) else None
  }

  function SetDoc(docs: Documents, id: nat, doc: Option<set<Term>>): Documents {
    if doc.Some? then docs[id := doc.value] else docs - {id}
  }

  // The callback of INSERT and UPDATE, call after call.
  function Reindexed(c: TextColumn, docs: Documents, calls: seq<(nat, Row)>): Documents {
    if calls == [] then docs
    else
      var before := Reindexed(c, docs, calls[..|calls| - 1]);
      var (id, row) := calls[|calls| - 1];
      SetDoc(before, id, c.Reindex(row, Lookup(before, id)))
  }

  // The callback of DELETE.
  function Unindexed(c: TextColumn, docs: Documents, calls: seq<(nat, Row)>): Documents {
    if calls == [] then docs
    else
      var before := Unindexed(c, docs, calls[..|calls| - 1]);
      var (id, row) := calls[|calls| - 1];
      if c.position < |row| then before - {id} else before
  }

  // Every row has the document of its text; nothing else is indexed.
  ghost predicate Agrees(c: TextColumn, docs: Documents, rows: seq<Row>, ids: seq<nat>) {
    && |rows| == |ids|
    && (forall i | 0 <= i < |rows| :: Lookup(docs, ids[i]) == c.DocOf(rows[i]))
    && forall id | id in docs :: id in ids
  }

  // ---------------------------------------------------------------- INSERT

  lemma InsertAgrees(c: TextColumn, docs: Documents, rows: seq<Row>, ids: seq<nat>, id: nat, row: Row)
    requires Agrees(c, docs, rows, ids) && IDsBelow(ids, id)
    ensures Agrees(c, Reindexed(c, docs, [(id, row)]), rows + [row], ids + [id])
  {
    hide TextColumn.DocOf, TextColumn.Skips;
    assert id !in ids;
    var call := [(id, row)];
    assert call[..0] == [];
    var docs' := Reindexed(c, docs, call);
    assert Reindexed(c, docs, []) == docs;
    assert docs' == SetDoc(docs, id, c.Reindex(row, None));
    ReindexNothing(c, row);
    assert forall i | 0 <= i < |ids| :: ids[i] in ids;
  }

  lemma ReindexNothing(c: TextColumn, row: Row)
    ensures c.Reindex(row, None) == c.DocOf(row)
  {
  }

  // ---------------------------------------------------------------- UPDATE

  lemma ReindexedSnoc(c: TextColumn, docs: Documents, calls: seq<(nat, Row)>, id: nat, row: Row)
    ensures var before := Reindexed(c, docs, calls);
            Reindexed(c, docs, calls + [(id, row)]) == SetDoc(before, id, c.Reindex(row, Lookup(before, id)))
  {
    assert (calls + [(id, row)])[..|calls|] == calls;
  }

  lemma SetDocLookup(docs: Documents, id: nat, doc: Option<set<Term>>, other: nat)
    ensures Lookup(SetDoc(docs, id, doc), other) == if other == id then doc else Lookup(docs, other)
  {
  }

  // After the first n rows: changed rows were re-indexed, no other document moved.
  lemma {:induction false} UpdatedDocs(c: TextColumn, docs: Documents, t: nat, columns: seq<Column>, rows: seq<Row>,
          ids: seq<nat>,
                                       updater: Updater, condition: Condition, n: nat, id: nat, j: nat)
    requires |rows| == |ids| && n <= |rows| && Increasing(ids)
    ensures var p := UpdateRows(columns, rows, updater, condition, n);
            var docs' := Reindexed(c, docs, Store.CallsOf(UpdateRecords(t, ids, p.rows, p.changed)));
            && (j < |ids| && id == ids[j] ==>
                  Lookup(docs', id) == if j in p.changed then c.Reindex(p.rows[j], Lookup(docs, id))
                      else Lookup(docs, id))
            && (id !in ids ==> Lookup(docs', id) == Lookup(docs, id))
  {
    hide Assign, Lookup, Reindexed, UpdateRecords, TextColumn.Reindex, Increasing, Store.CallsOf;
    if n == 0 {
      NoUpdates(t, ids, rows);
      Store.NoCalls();
      NothingReindexed(c, docs);
    } else {
      UpdatedDocs(c, docs, t, columns, rows, ids, updater, condition, n - 1, id, j);
      var p := UpdateRows(columns, rows, updater, condition, n - 1);
      if !p.failed && condition(rows[n - 1]) {
        var a := Assign(columns, rows[n - 1], updater(rows[n - 1]));
        RecordsKeep(t, ids, p.rows, p.changed, n - 1, a.row);
        if !a.failed {
          var records := UpdateRecords(t, ids, p.rows, p.changed);
          Store.CallsSnoc(records, Update(t, ids[n - 1], a.row, a.row));
          ReindexedSnoc(c, docs, Store.CallsOf(records), ids[n - 1], a.row);
          var before := Reindexed(c, docs, Store.CallsOf(records));
          SetDocLookup(before, ids[n - 1], c.Reindex(a.row, Lookup(before, ids[n - 1])), id);
          if j < |ids| {
            SameID(ids, j, n - 1);
          }
          UnchangedYet(p.changed, n - 1);
          assert ids[n - 1] in ids;
        }
      }
    }
  }

  lemma NothingReindexed(c: TextColumn, docs: Documents)
    ensures Reindexed(c, docs, []) == docs
  {
  }

  lemma SameID(ids: seq<nat>, i: nat, j: nat)
    requires Increasing(ids) && i < |ids| && j < |ids|
    ensures ids[i] == ids[j] <==> i == j
  {
  }

  lemma UnchangedYet(changed: seq<nat>, n: nat)
    requires forall k | k in changed :: k < n
    ensures n !in changed && forall j :: j in changed + [n] <==> j in changed || j == n
  {
  }

  // The assignment stores a text in the indexed column of the row.
  predicate SetsText(c: TextColumn, row: Row, u: Assignment) {
    u.column == c.position < |row|
  }

  // It stores an empty text, which the callback does not hand to the index.
  predicate Empties(c: TextColumn, columns: seq<Column>, row: Row, u: Assignment) {
    SetsText(c, row, u) && Shown(StoredFor(columns, u)) == ""
  }

  // It stores a text with another document.
  predicate Rewords(c: TextColumn, columns: seq<Column>, row: Row, u: Assignment) {
    SetsText(c, row, u) && c.DocOfValue(StoredFor(columns, u)) != c.DocOf(row)
  }

  // No row that is updated before one refuses has its indexed text emptied.
  ghost predicate EmptiesNothing(c: TextColumn, columns: seq<Column>, rows: seq<Row>, updater: Updater,
          condition: Condition) {
    forall i, u | 0 <= i < FirstRefusing(columns, rows, updater, condition) && condition(rows[i])
        && u in updater(rows[i]) ::
      Empties(c, columns, rows[i], u) ==> c.DocOf(rows[i]) == None
  }

  // The first refusing row is not given another text before its update stops.
  ghost predicate FailureKeepsText(c: TextColumn, columns: seq<Column>, rows: seq<Row>, updater: Updater,
          condition: Condition) {
    var f := FirstRefusing(columns, rows, updater, condition);
    f < |rows| ==>
      var updates := updater(rows[f]);
      forall i | 0 <= i < FirstRefused(columns, rows[f], updates) :: !Rewords(c, columns, rows[f], updates[i])
  }

  ghost predicate UpdateHarmless(c: TextColumn, columns: seq<Column>, rows: seq<Row>, updater: Updater,
          condition: Condition) {
    EmptiesNothing(c, columns, rows, updater, condition) && FailureKeepsText(c, columns, rows, updater, condition)
  }

  // The document of a row after its assignments.
  lemma AssignedDoc(c: TextColumn, columns: seq<Column>, row: Row, updates: seq<Assignment>)
    requires DistinctColumns(updates)
    ensures var now, k := Assign(columns, row, updates).row, FirstRefused(columns, row, updates);
            && (forall i | 0 <= i < k && SetsText(c, row, updates[i]) ::
                 now[c.position] == StoredFor(columns, updates[i]))
            && ((forall i | 0 <= i < k :: !SetsText(c, row, updates[i])) && c.position < |row| ==>
                 now[c.position] == row[c.position])
  {
    hide Refused, StoredFor, Assign, FirstRefused;
    if c.position < |row| {
      AssignedColumn(columns, row, updates, c.position);
      var k := FirstRefused(columns, row, updates);
      assert forall i | 0 <= i < k && SetsText(c, row, updates[i]) :: AssignsTo(updates, k, c.position, i);
    }
  }

  // A complete update of a row leaves its document stale exactly when it empties an indexed text.
  lemma UpdatedRowIndexed(c: TextColumn, columns: seq<Column>, row: Row, updates: seq<Assignment>)
    requires DistinctColumns(updates) && !Refuses(columns, row, updates)
    ensures var now := Assign(columns, row, updates).row;
            c.Reindex(now, c.DocOf(row)) == c.DocOf(now) <==>
            forall u | u in updates :: Empties(c, columns, row, u) ==> c.DocOf(row) == None
  {
    hide Refused, StoredFor, Assign, FirstRefused;
    AssignedDoc(c, columns, row, updates);
    var now, k := Assign(columns, row, updates).row, FirstRefused(columns, row, updates);
    assert forall m | 0 <= m < |updates| :: updates[m] in updates;
    assert k == |updates|;
    if i :| 0 <= i < k && SetsText(c, row, updates[i]) {
      assert updates[i] in updates;
      forall u | u in updates && SetsText(c, row, u)
        ensures u == updates[i]
      {
        var m :| 0 <= m < |updates| && updates[m] == u;
      }
    } else {
      assert forall u | u in updates :: !SetsText(c, row, u);
    }
  }

  // A failing update leaves the document right exactly when it does not change it first.
  lemma FailedRowIndexed(c: TextColumn, columns: seq<Column>, row: Row, updates: seq<Assignment>)
    requires DistinctColumns(updates)
    ensures c.DocOf(Assign(columns, row, updates).row) == c.DocOf(row) <==>
            forall i | 0 <= i < FirstRefused(columns, row, updates) :: !Rewords(c, columns, row, updates[i])
  {
    hide Refused, StoredFor, Assign, FirstRefused, TextColumn.DocOfValue;
    AssignedDoc(c, columns, row, updates);
    var now, k := Assign(columns, row, updates).row, FirstRefused(columns, row, updates);
    if i :| 0 <= i < k && SetsText(c, row, updates[i]) {
      forall m | 0 <= m < k && SetsText(c, row, updates[m])
        ensures m == i
      {
      }
    }
  }

  // Whether row i is indexed with its own text after the statement.
  lemma UpdateRowAgrees(c: TextColumn, columns: seq<Column>, rows: seq<Row>, updater: Updater, condition: Condition,
          i: nat)
    requires i < |rows|
    ensures var p, f := UpdateRows(columns, rows, updater, condition, |rows|),
                        FirstRefusing(columns, rows, updater, condition);
            (if i in p.changed then c.Reindex(p.rows[i], c.DocOf(rows[i])) else c.DocOf(rows[i])) == c.DocOf(p.rows[i])
            <==> && (i < f && condition(rows[i]) ==>
                       forall u | u in updater(rows[i]) :: Empties(c, columns, rows[i], u) ==> c.DocOf(rows[i]) == None)
                 && (i == f ==> forall k | 0 <= k < FirstRefused(columns, rows[i], updater(rows[i])) ::
                       !Rewords(c, columns, rows[i], updater(rows[i])[k]))
  {
    hide Refuses, Assign, FirstRefused, FirstRefusing, UpdateRows, Empties, Rewords, TextColumn.DocOf,
         TextColumn.Reindex;
    UpdatedRowsAre(columns, rows, updater, condition, |rows|, i);
    var f := FirstRefusing(columns, rows, updater, condition);
    if i < f && condition(rows[i]) {
      UpdatedRowIndexed(c, columns, rows[i], updater(rows[i]));
    } else if i == f {
      FailedRowIndexed(c, columns, rows[i], updater(rows[i]));
    }
  }

  // An UPDATE keeps the index in agreement exactly when it empties no indexed text and changes
  // no indexed text of the first row it refuses.
  lemma UpdateAgrees(c: TextColumn, docs: Documents, t: nat, columns: seq<Column>, rows: seq<Row>, ids: seq<nat>,
                     updater: Updater, condition: Condition)
    requires Agrees(c, docs, rows, ids) && Increasing(ids)
    ensures var p := UpdateRows(columns, rows, updater, condition, |rows|);
            Agrees(c, Reindexed(c, docs, Store.CallsOf(UpdateRecords(t, ids, p.rows, p.changed))), p.rows, ids)
            <==> UpdateHarmless(c, columns, rows, updater, condition)
  {
    hide UpdateRows, Reindexed, UpdateRecords, TextColumn.Skips, TextColumn.DocOf, TextColumn.Reindex, Store.CallsOf;
    hide FirstRefusing, FirstRefused, Empties, Rewords, Increasing;
    var p, f := UpdateRows(columns, rows, updater, condition, |rows|), FirstRefusing(columns, rows, updater, condition);
    var docs' := Reindexed(c, docs, Store.CallsOf(UpdateRecords(t, ids, p.rows, p.changed)));
    forall id | id in docs'
      ensures id in ids
    {
      UpdatedDocs(c, docs, t, columns, rows, ids, updater, condition, |rows|, id, 0);
    }
    forall i | 0 <= i < |rows|
      ensures Lookup(docs', ids[i]) == if i in p.changed then c.Reindex(p.rows[i], c.DocOf(rows[i]))
              else c.DocOf(rows[i])
    {
      UpdatedDocs(c, docs, t, columns, rows, ids, updater, condition, |rows|, ids[i], i);
    }
    forall i: nat | i < |rows|
      ensures Lookup(docs', ids[i]) == c.DocOf(p.rows[i])
              <==> && (i < f && condition(rows[i]) ==>
                         forall u | u in updater(rows[i]) :: Empties(c, columns, rows[i], u) ==>
                             c.DocOf(rows[i]) == None)
                   && (i == f ==> forall k | 0 <= k < FirstRefused(columns, rows[i], updater(rows[i])) ::
                         !Rewords(c, columns, rows[i], updater(rows[i])[k]))
    {
      UpdateRowAgrees(c, columns, rows, updater, condition, i);
    }
  }

  // No accepted assignment would change an indexed text of the first refusing row.
  ghost predicate NoTextToLose(c: TextColumn, columns: seq<Column>, rows: seq<Row>, updater: Updater,
          condition: Condition) {
    var f := FirstRefusing(columns, rows, updater, condition);
    f < |rows| ==> forall u | u in updater(rows[f]) :: Refused(columns, rows[f], u) || !Rewords(c, columns, rows[f], u)
  }

  // In whatever order Go walks the update maps, the statement is harmless: this holds exactly
  // when it empties no indexed text and the first refusing row has no text to lose.
  lemma HarmlessInEveryOrder(c: TextColumn, columns: seq<Column>, rows: seq<Row>, updater: Updater,
          condition: Condition)
    ensures (forall v: Updater | SameMaps(updater, v) :: UpdateHarmless(c, columns, rows, v, condition))
            <==> && EmptiesNothing(c, columns, rows, updater, condition)
                 && NoTextToLose(c, columns, rows, updater, condition)
  {
    hide Refused, Rewords, Empties, FirstRefusing, FirstRefused;
    var f := FirstRefusing(columns, rows, updater, condition);
    assert SameMaps(updater, updater);
    if EmptiesNothing(c, columns, rows, updater, condition) && NoTextToLose(c, columns, rows, updater, condition) {
      forall v: Updater | SameMaps(updater, v)
        ensures UpdateHarmless(c, columns, rows, v, condition)
      {
        SameRefusing(columns, rows, updater, v, condition);
        assert forall i | 0 <= i < |rows| :: SameAssignments(updater(rows[i]), v(rows[i]));
        if f < |rows| {
          assert forall i | 0 <= i < |v(rows[f])| :: v(rows[f])[i] in v(rows[f]);
        }
      }
    } else if EmptiesNothing(c, columns, rows, updater, condition) {
      var u :| u in updater(rows[f]) && !Refused(columns, rows[f], u) && Rewords(c, columns, rows[f], u);
      LosesItFirst(columns, rows, updater, condition, u);
      assert !FailureKeepsText(c, columns, rows, FrontedUpdater(updater, u), condition);
    }
  }

  // ---------------------------------------------------------------- DELETE

  lemma UnindexedSnoc(c: TextColumn, docs: Documents, calls: seq<(nat, Row)>, id: nat, row: Row)
    ensures var before := Unindexed(c, docs, calls);
            Unindexed(c, docs, calls + [(id, row)]) == if c.position < |row| then before - {id} else before
  {
    assert (calls + [(id, row)])[..|calls|] == calls;
  }

  // Deleting among the first n rows leaves agreement with the kept ones and the rows ahead.
  lemma {:induction false} DeletionsAgree(c: TextColumn, docs: Documents, t: nat, rows: seq<Row>, ids: seq<nat>,
          condition: Condition, n: nat)
    requires |rows| == |ids| && Agrees(c, docs, rows, ids) && Increasing(ids) && n <= |rows|
    ensures Agrees(c, Unindexed(c, docs, Store.CallsOf(DeleteRecords(t, rows[..n], ids[..n], condition))),
                   KeptBy(rows[..n], rows[..n], condition) + rows[n..],
                       KeptBy(rows[..n], ids[..n], condition) + ids[n..])
  {
    hide Increasing, Agrees, Unindexed, KeptBy, Kept, DeleteRecords, Store.CallsOf;
    if n == 0 {
      Store.NoCalls();
      NothingUnindexed(c, docs);
      NothingKept(t, rows, ids, condition);
    } else {
      DeletionsAgree(c, docs, t, rows, ids, condition, n - 1);
      var k := n - 1;
      SiftedStep(t, rows, ids, rows, condition, k);
      var keptRows, keptIDs := KeptBy(rows[..k], rows[..k], condition), KeptBy(rows[..k], ids[..k], condition);
      var records := DeleteRecords(t, rows[..k], ids[..k], condition);
      var before := Unindexed(c, docs, Store.CallsOf(records));
      if condition(rows[k]) {
        Store.CallsSnoc(records, Delete(t, ids[k], rows[k]));
        UnindexedSnoc(c, docs, Store.CallsOf(records), ids[k], rows[k]);
        NotAhead(keptIDs, ids, k);
        RemovedAgrees(c, before, keptRows, keptIDs, rows[k..], ids[k..]);
        TailOfRest(rows, k);
        TailOfRest(ids, k);
      } else {
        WithoutMiddle(keptRows, rows, k);
        WithoutMiddle(keptIDs, ids, k);
      }
    }
  }

  lemma TailOfRest<T>(s: seq<T>, k: nat)
    requires k < |s|
    ensures s[k..][0] == s[k] && s[k..][1..] == s[k + 1..]
  {
  }

  lemma NothingKept(t: nat, rows: seq<Row>, ids: seq<nat>, condition: Condition)
    requires |rows| == |ids|
    ensures KeptBy(rows[..0], rows[..0], condition) + rows[0..] == rows
    ensures KeptBy(rows[..0], ids[..0], condition) + ids[0..] == ids
    ensures DeleteRecords(t, rows[..0], ids[..0], condition) == []
  {
  }

  lemma NothingUnindexed(c: TextColumn, docs: Documents)
    ensures Unindexed(c, docs, []) == docs
  {
  }

  lemma NotAhead(kept: seq<nat>, ids: seq<nat>, k: nat)
    requires k < |ids| && Increasing(ids) && forall id | id in kept :: id in ids[..k]
    ensures ids[k] !in kept && ids[k] !in ids[k..][1..]
  {
    assert forall i | 0 <= i < |ids[k..][1..]| :: ids[k..][1..][i] == ids[k + 1 + i];
  }

  // Taking a row out of the middle, with its document.
  lemma RemovedAgrees(c: TextColumn, docs: Documents, rows: seq<Row>, ids: seq<nat>, moreRows: seq<Row>,
          moreIDs: seq<nat>)
    requires |rows| == |ids| && |moreRows| == |moreIDs| && moreRows != []
    requires Agrees(c, docs, rows + moreRows, ids + moreIDs)
    requires moreIDs[0] !in ids && moreIDs[0] !in moreIDs[1..]
    ensures Agrees(c, if c.position < |moreRows[0]| then docs - {moreIDs[0]} else docs,
                   rows + moreRows[1..], ids + moreIDs[1..])
  {
    var id, row := moreIDs[0], moreRows[0];
    var docs' := if c.position < |row| then docs - {id} else docs;
    var allRows, allIDs := rows + moreRows, ids + moreIDs;
    var newRows, newIDs := rows + moreRows[1..], ids + moreIDs[1..];
    assert allRows[|rows|] == row && allIDs[|ids|] == id;
    assert id !in docs';
    forall i | 0 <= i < |newRows|
      ensures Lookup(docs', newIDs[i]) == c.DocOf(newRows[i])
    {
      var j := if i < |rows| then i else i + 1;
      assert newRows[i] == allRows[j] && newIDs[i] == allIDs[j];
      assert newIDs[i] in newIDs;
    }
    forall other | other in docs'
      ensures other in newIDs
    {
      assert other in allIDs;
      assert other in ids || other == id || other in moreIDs[1..];
    }
  }

  // A DELETE always keeps the index in agreement.
  lemma DeleteAgrees(c: TextColumn, docs: Documents, t: nat, rows: seq<Row>, ids: seq<nat>, condition: Condition)
    requires |rows| == |ids| && Agrees(c, docs, rows, ids) && Increasing(ids)
    ensures Agrees(c, Unindexed(c, docs, Store.CallsOf(DeleteRecords(t, rows, ids, condition))),
                   Kept(rows, condition), KeptBy(rows, ids, condition))
  {
    hide Agrees, Increasing, Unindexed, KeptBy, Kept, DeleteRecords, Store.CallsOf;
    DeletionsAgree(c, docs, t, rows, ids, condition, |rows|);
    assert rows[..|rows|] == rows && ids[..|ids|] == ids;
    assert KeptBy(rows, rows, condition) + rows[|rows|..] == KeptBy(rows, rows, condition);
    assert KeptBy(rows, ids, condition) + ids[|ids|..] == KeptBy(rows, ids, condition);
    KeptIsKeptBy(rows, condition);
  }

  lemma {:induction false} KeptIsKeptBy(rows: seq<Row>, condition: Condition)
    ensures KeptBy(rows, rows, condition) == Kept(rows, condition)
  {
    if rows != [] {
      KeptIsKeptBy(rows[..|rows| - 1], condition);
    }
  }

  // ---------------------------------------------------------------- runs

  ghost predicate InAgreement(c: TextColumn, docs: Documents, s: State) {
    c.table in s.rowData && c.table in s.rowIDs && Agrees(c, docs, s.rowData[c.table], s.rowIDs[c.table])
  }

  // What a statement does to the documents: nothing, unless it is on the indexed table.
  function DocsStep(c: TextColumn, docs: Documents, s: State, op: Op): Documents
    requires Callable(s, op)
  {
    if op.DropOp? || op.CreateOp? || op.name != c.table then docs
    else if op.DeleteOp? then Unindexed(c, docs, Store.CallsOf(Step(s, op).records))
    else Reindexed(c, docs, Store.CallsOf(Step(s, op).records))
  }

  ghost predicate Harmless(c: TextColumn, s: State, op: Op) {
    op.UpdateOp? && op.name == c.table && c.table in s.tables && c.table in s.rowData ==>
      UpdateHarmless(c, s.tables[c.table].columns, s.rowData[c.table], op.updater, op.condition)
  }

  // One statement keeps the agreement exactly when it is harmless.
  lemma StepAgrees(c: TextColumn, docs: Documents, s: State, op: Op)
    requires Good(s) && Callable(s, op) && InAgreement(c, docs, s) && op != DropOp(c.table)
    ensures InAgreement(c, DocsStep(c, docs, s, op), Step(s, op).state) <==> Harmless(c, s, op)
  {
    hide Agrees, UpdateHarmless, Increasing, IDsBelow, RowHolds, Fill, StoredRow, Acceptable, Reindexed, Unindexed,
         UpdateRows, UpdateRecords, Kept, KeptBy, DeleteRecords, Store.CallsOf, Store.CallOf;
    NothingReindexed(c, docs);
    NothingUnindexed(c, docs);
    Store.NoCalls();
    if op.name == c.table && c.table in s.tables {
      var rows, ids, t := s.rowData[c.table], s.rowIDs[c.table], s.tables[c.table];
      assert GoodTable(t, rows, ids, s.nextID);
      match op {
        case InsertOp(name, row) => InsertStepAgrees(c, docs, s, row);
        case UpdateOp(name, updater, condition) =>
            UpdateAgrees(c, docs, t.id, t.columns, rows, ids, updater, condition);
        case DeleteOp(name, condition) => DeleteStepAgrees(c, docs, s, condition);
        case CreateOp(name, columns) =>
      }
    }
  }

  lemma InsertStepAgrees(c: TextColumn, docs: Documents, s: State, row: Row)
    requires Good(s) && Insertable(s, c.table, row) && InAgreement(c, docs, s) && c.table in s.tables
    ensures var e := InsertEffect(s, c.table, row);
            InAgreement(c, Reindexed(c, docs, Store.CallsOf(e.records)), e.state)
  {
    hide Agrees, Increasing, IDsBelow, RowHolds, Fill, StoredRow, Acceptable, Reindexed, Store.CallsOf;
    NothingReindexed(c, docs);
    Store.NoCalls();
    var e := InsertEffect(s, c.table, row);
    if e.ok {
      assert GoodTable(s.tables[c.table], s.rowData[c.table], s.rowIDs[c.table], s.nextID);
      var record := e.records[0];
      assert [] + [record] == [record];
      Store.CallsSnoc([], record);
      assert [] + [(s.nextID, record.row)] == [(s.nextID, record.row)];
      InsertAgrees(c, docs, s.rowData[c.table], s.rowIDs[c.table], s.nextID, record.row);
    }
  }

  lemma DeleteStepAgrees(c: TextColumn, docs: Documents, s: State, condition: Condition)
    requires Good(s) && Parallel(s) && InAgreement(c, docs, s) && c.table in s.tables
    ensures var e := DeleteEffect(s, c.table, condition);
            InAgreement(c, Unindexed(c, docs, Store.CallsOf(e.records)), e.state)
  {
    hide Agrees, Increasing, IDsBelow, RowHolds, Unindexed, Kept, KeptBy, DeleteRecords, Store.CallsOf;
    NothingUnindexed(c, docs);
    Store.NoCalls();
    assert GoodTable(s.tables[c.table], s.rowData[c.table], s.rowIDs[c.table], s.nextID);
    DeleteAgrees(c, docs, s.tables[c.table].id, s.rowData[c.table], s.rowIDs[c.table], condition);
  }

  ghost function DocsAfter(c: TextColumn, docs: Documents, run: Run): Documents
    requires run.Valid()
  {
    if run.Start? then docs else DocsStep(c, DocsAfter(c, docs, run.before), run.before.Final(), run.op)
  }

  // The indexed table is not dropped in the run; others may come and go.
  ghost predicate KeepsTable(run: Run, name: string) {
    run.Then? ==> KeepsTable(run.before, name) && run.op != DropOp(name)
  }

  ghost predicate AllHarmless(c: TextColumn, run: Run)
    requires run.Valid()
  {
    run.Then? ==> AllHarmless(c, run.before) && Harmless(c, run.before.Final(), run.op)
  }

  // Over any run of statements the index agrees with the table, as long as no UPDATE of
  // the table leaves a stale document behind.
  lemma {:induction false} RunAgrees(c: TextColumn, docs: Documents, run: Run)
    requires run.Valid() && KeepsTable(run, c.table) && AllHarmless(c, run)
    requires Good(run.First()) && InAgreement(c, docs, run.First())
    ensures InAgreement(c, DocsAfter(c, docs, run), run.Final())
  {
    hide Good, InAgreement, Harmless, DocsStep, Step, Callable;
    if run.Then? {
      RunAgrees(c, docs, run.before);
      RunKeepsGood(run.before);
      StepAgrees(c, DocsAfter(c, docs, run.before), run.before.Final(), run.op);
    }
  }

  // The statement that clears the indexed text of row i.
  function ClearText(c: TextColumn, row: Row): Op {
    UpdateOp(c.table, _ => [Assignment(c.position, Text(""))], r => r == row)
  }

  // A fixed-length column pads the empty text with spaces, which the callback does hand over.
  predicate PadsEmpty(columns: seq<Column>, j: nat) {
    j < |columns| && columns[j].kind == CharType && columns[j].length > 0
  }

  // Clearing the text of an indexed row leaves it indexed with its old words exactly when the
  // column does not pad.
  lemma ClearedTextStaysIndexed(c: TextColumn, docs: Documents, s: State, i: nat)
    requires Good(s) && InAgreement(c, docs, s) && c.table in s.tables && i < |s.rowData[c.table]|
    requires c.DocOf(s.rowData[c.table][i]).Some?
    ensures Callable(s, ClearText(c, s.rowData[c.table][i]))
    ensures var op := ClearText(c, s.rowData[c.table][i]);
            !InAgreement(c, DocsStep(c, docs, s, op), Step(s, op).state)
            <==> !PadsEmpty(s.tables[c.table].columns, c.position)
  {
    GoodIsParallel(s);
    hide Good, Step, DocsStep, InAgreement;
    var columns, rows := s.tables[c.table].columns, s.rowData[c.table];
    var op := ClearText(c, rows[i]);
    StepAgrees(c, docs, s, op);
    ClearingHarms(c, columns, rows, op.updater, op.condition, i);
  }

  lemma ClearingHarms(c: TextColumn, columns: seq<Column>, rows: seq<Row>, updater: Updater, condition: Condition,
          i: nat)
    requires i < |rows| && c.DocOf(rows[i]).Some?
    requires forall r :: condition(r) <==> r == rows[i]
    requires forall r :: updater(r) == [Assignment(c.position, Text(""))]
    ensures UpdateHarmless(c, columns, rows, updater, condition) <==> PadsEmpty(columns, c.position)
  {
    var u := Assignment(c.position, Text(""));
    forall row: Row
      ensures !Refused(columns, row, u)
    {
    }
    var f := FirstRefusing(columns, rows, updater, condition);
    assert f == |rows|;
    assert u in updater(rows[i]);
    assert Shown(StoredFor(columns, u)) == "" <==> !PadsEmpty(columns, c.position);
  }
}
