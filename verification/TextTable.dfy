// An in-memory table with one full-text index: the INSERT, UPDATE and DELETE statements of the
// executor with their index callbacks, and the MATCH query.

module TextTable {
  import opened Collections
  import opened StoreState
  import opened StoreInvariant
  import opened IndexState
  import opened SearchSpec
  import opened TextAgreement
  import Store
  import II = InvertedIndex

  // Rows of a statement inserted one after the other; the first refused row ends it.
  datatype Batch = Batch(state: State, count: nat, ok: bool)

  ghost predicate AllInside(s: State, name: string, rows: seq<Row>) {
    name in s.tables && forall row | row in rows :: AutoInside(s.tables[name].columns, row)
  }

  ghost function InsertAll(s: State, name: string, rows: seq<Row>): Batch
    requires AllInside(s, name, rows)
    decreases |rows|
  {
    if rows == [] then Batch(s, 0, true)
    else
      var e := InsertEffect(s, name, rows[0]);
      if !e.ok then Batch(s, 0, false)
      else
        var b := InsertAll(e.state, name, rows[1..]);
        Batch(b.state, b.count + 1, b.ok)
  }

  lemma IndexedDocuments(s: Index, id: nat, content: string, tokens: seq<Token>, store: bool)
    ensures Indexed(s, id, content, tokens, store).documents ==
            SetDoc(s.documents, id, if tokens == [] then None else Some(TermsOf(tokens)))
  {
    hide Removed, TermsOf, AddedPostings, AddedPositions;
    RemovedDocuments(s, id);
    PutOver(s.documents, id, TermsOf(tokens));
  }

  lemma PutOver<T>(m: map<nat, T>, id: nat, x: T)
    ensures (m - {id})[id := x] == m[id := x]
  {
  }

  lemma RemovedDocuments(s: Index, id: nat)
    ensures Removed(s, id).documents == s.documents - {id}
  {
    hide ClearedPostings, ClearedPositions;
    assert id !in s.documents ==> s.documents - {id} == s.documents;
  }

  // A MATCH on a column: the query and how texts are split.
  datatype Question = Question(config: II.Config, tokenizer: II.Tokenizer, position: nat, query: string) {
    // Every word of the query, and there is one, is among the words the row's text is indexed
    // under.
    ghost predicate Answers(row: Row) {
      && position < |row| && Shown(row[position]) != ""
      && (exists w: Term :: II.HasWord(config, tokenizer, query, false, w))
      && forall w: Term | II.HasWord(config, tokenizer, query, false, w) ::
           II.HasWord(config, tokenizer, Shown(row[position]), true, w)
    }
  }

  // The rows that answer a query, in table order.
  ghost function Answering(q: Question, rows: seq<Row>, ids: seq<nat>): seq<(nat, Row)>
    requires |rows| == |ids|
  {
    if rows == [] then []
    else
      var n := |rows| - 1;
      Answering(q, rows[..n], ids[..n]) + if q.Answers(rows[n]) then [(ids[n], rows[n])] else []
  }

  const SEARCH_LIMIT := 1000

  // What a MATCH may return: answering rows only, in table order, all of them up to the limit.
  ghost predicate AnswersMatch(result: seq<(nat, Row)>, q: Question, rows: seq<Row>, ids: seq<nat>)
    requires |rows| == |ids|
  {
    var answering := Answering(q, rows, ids);
    Subsequence(result, answering) && (|answering| <= 1000 ==> result == answering)
  }

  lemma NothingAnswers(q: Question, rows: seq<Row>, ids: seq<nat>)
    requires |rows| == |ids|
    ensures Answering(q, rows[..0], ids[..0]) == [] && Subsequence([], Answering(q, rows[..0], ids[..0]))
  {
  }

  // What the ids of a query are, and when the first page of the search holds them all.
  ghost function Found(s: Index, terms: seq<Term>): set<nat> {
    if terms == [] then {} else Matching(s, terms)
  }

  // The column's texts are split as the question says, and these are the query's terms.
  ghost predicate Splits(c: TextColumn, q: Question, terms: seq<Term>) {
    && c.position == q.position
    && (forall text, w: Term :: w in TermsOf(c.tokens(text)) <==> II.HasWord(q.config, q.tokenizer, text, true, w))
    && (forall w: Term :: w in terms <==> II.HasWord(q.config, q.tokenizer, q.query, false, w))
  }

  lemma RowFound(c: TextColumn, q: Question, s: Index, rows: seq<Row>, ids: seq<nat>, terms: seq<Term>, i: nat)
    requires Agrees(c, s.documents, rows, ids) && i < |rows| && Splits(c, q, terms)
    ensures ids[i] in Found(s, terms) <==> q.Answers(rows[i])
  {
    assert Lookup(s.documents, ids[i]) == c.DocOf(rows[i]);
    hide II.HasWord, Agrees, TermsOf;
    if terms != [] {
      assert terms[0] in terms;
    }
    if q.position < |rows[i]| && c.tokens(Shown(rows[i][q.position])) == [] {
      NoTerms(c.tokens(Shown(rows[i][q.position])));
    }
  }

  lemma NoTerms(tokens: seq<Token>)
    requires tokens == []
    ensures TermsOf(tokens) == {}
  {
  }

  // In agreement as many ids are found as rows answer.
  lemma FoundAreAnswering(c: TextColumn, q: Question, s: Index, rows: seq<Row>, ids: seq<nat>, terms: seq<Term>)
    requires Agrees(c, s.documents, rows, ids) && Increasing(ids) && Splits(c, q, terms)
    ensures |Found(s, terms)| == |Answering(q, rows, ids)|
  {
    hide Question.Answers, Matching, Splits;
    var n := |rows|;
    assert rows[..n] == rows && ids[..n] == ids;
    AnsweringIDs(q, rows, ids, n);
    forall id: nat
      ensures id in Found(s, terms) <==> id in IDsAnswering(q, rows, ids, n)
    {
      if id in Found(s, terms) {
        FoundIsDocument(s, terms, id);
        var i :| 0 <= i < n && ids[i] == id;
        RowFound(c, q, s, rows, ids, terms, i);
      } else if id in IDsAnswering(q, rows, ids, n) {
        var i :| 0 <= i < n && ids[i] == id && q.Answers(rows[i]);
        RowFound(c, q, s, rows, ids, terms, i);
      }
    }
    assert Found(s, terms) == IDsAnswering(q, rows, ids, n);
  }

  lemma FoundIsDocument(s: Index, terms: seq<Term>, id: nat)
    requires id in Found(s, terms)
    ensures id in s.documents
  {
  }

  // The ids of the first n rows that answer.
  ghost function IDsAnswering(q: Question, rows: seq<Row>, ids: seq<nat>, n: nat): set<nat>
    requires n <= |rows| == |ids|
  {
    set i | 0 <= i < n && q.Answers(rows[i]) :: ids[i]
  }

  lemma {:induction false} AnsweringIDs(q: Question, rows: seq<Row>, ids: seq<nat>, n: nat)
    requires n <= |rows| == |ids| && Increasing(ids)
    ensures |IDsAnswering(q, rows, ids, n)| == |Answering(q, rows[..n], ids[..n])|
  {
    hide Question.Answers, Answering, IDsAnswering, Increasing;
    if n > 0 {
      AnsweringIDs(q, rows, ids, n - 1);
      AnsweringStep(q, rows, ids, n - 1);
      IDsStep(q, rows, ids, n - 1);
    } else {
      NothingAnswers(q, rows, ids);
      NoIDs(q, rows, ids);
    }
  }

  lemma IDsStep(q: Question, rows: seq<Row>, ids: seq<nat>, i: nat)
    requires |rows| == |ids| && i < |rows| && Increasing(ids)
    ensures var before := IDsAnswering(q, rows, ids, i);
            && ids[i] !in before
            && IDsAnswering(q, rows, ids, i + 1) == before + if q.Answers(rows[i]) then {ids[i]} else {}
  {
    hide Question.Answers;
  }

  lemma NoIDs(q: Question, rows: seq<Row>, ids: seq<nat>)
    requires |rows| == |ids|
    ensures IDsAnswering(q, rows, ids, 0) == {}
  {
  }

  // One search returns every matching row exactly when no more than 1000 match.
  lemma PageHoldsAll(ranked: seq<SearchResult>, ids: set<nat>)
    requires Lists(ranked, ids)
    ensures (forall id | id in ids :: id in IdsOf(PageOf(ranked, SEARCH_LIMIT, 0))) <==> |ids| <= 1000
  {
    ListLength(IdsOf(ranked), ids);
    var page := PageOf(ranked, SEARCH_LIMIT, 0);
    if |ids| <= SEARCH_LIMIT {
      FirstPageIsAll(ranked, ids, SEARCH_LIMIT);
    } else {
      var last := IdsOf(ranked)[SEARCH_LIMIT];
      assert last in IdsOf(ranked);
      forall k | 0 <= k < |page|
        ensures IdsOf(page)[k] != last
      {
        assert IdsOf(page)[k] == IdsOf(ranked)[k];
      }
    }
  }

  class TextTable {
    const store: Store.Storage
    const index: II.InvertedIndex
    const column: TextColumn

    ghost predicate Valid()
      reads store, index
    {
      && !store.enabled && Good(store.State()) && column.table in store.tables
      && index.Valid() && index.PositiveSource() && Positive(index.termWeights)
      && forall text :: column.tokens(text) == index.TokensFor(text)
    }

    // Every row is indexed with its own text and nothing else is.
    ghost predicate Agreement()
      reads store, index
    {
      InAgreement(column, index.documents, store.State())
    }

    constructor (store: Store.Storage, index: II.InvertedIndex, column: TextColumn)
      ensures this.store == store && this.index == index && this.column == column
    {
      this.store := store;
      this.index := index;
      this.column := column;
    }

    // The indexing callback for one row.
    method IndexRow(id: nat, row: Row)
      requires Valid()
      modifies index
      ensures Valid()
      ensures index.documents == SetDoc(old(index.documents), id, column.Reindex(row, Lookup(old(index.documents), id)))
    {
      hide Good, Indexed, TermsOf, II.InvertedIndex.Valid, II.InvertedIndex.PositiveSource;
      hide II.InvertedIndex.TokensFor, Positive;
      if column.position < |row| {
        var content := Shown(row[column.position]);
        if content != "" {
          IndexedDocuments(index.View(), id, content, index.TokensFor(content), index.config.storePos);
          index.IndexDocument(id, content);
          return;
        }
      }
    }

    method IndexCalls(calls: seq<(nat, Row)>)
      requires Valid()
      modifies index
      ensures Valid() && index.documents == Reindexed(column, old(index.documents), calls)
    {
      hide TextColumn.Reindex, TextTable.Valid;
      var i := 0;
      while i < |calls|
        invariant 0 <= i <= |calls| && Valid()
        invariant index.documents == Reindexed(column, old(index.documents), calls[..i])
      {
        assert calls[..i + 1][..i] == calls[..i];
        IndexRow(calls[i].0, calls[i].1);
        i := i + 1;
      }
      assert calls[..i] == calls;
    }

    // The callback of DELETE for one row.
    method RemoveRow(id: nat, row: Row)
      requires Valid()
      modifies index
      ensures Valid()
      ensures index.documents == if column.position < |row| then old(index.documents) - {id} else old(index.documents)
    {
      hide Good, Removed, II.InvertedIndex.Valid, II.InvertedIndex.PositiveSource, II.InvertedIndex.TokensFor, Positive;
      if column.position < |row| {
        RemovedDocuments(index.View(), id);
        index.DeleteDocument(id);
      }
    }

    method RemoveCalls(calls: seq<(nat, Row)>)
      requires Valid()
      modifies index
      ensures Valid() && index.documents == Unindexed(column, old(index.documents), calls)
    {
      hide TextTable.Valid;
      var i := 0;
      while i < |calls|
        invariant 0 <= i <= |calls| && Valid()
        invariant index.documents == Unindexed(column, old(index.documents), calls[..i])
      {
        assert calls[..i + 1][..i] == calls[..i];
        RemoveRow(calls[i].0, calls[i].1);
        i := i + 1;
      }
      assert calls[..i] == calls;
    }

    // CREATE FULLTEXT INDEX over the rows already there.
    method IndexExistingRows()
      requires Valid() && index.documents == map[]
      modifies index
      ensures Valid() && Agreement()
    {
      hide TextTable.Valid, Agrees;
      ValidStore();
      var rows, ids := store.rowData[column.table], store.rowIDs[column.table];
      assert GoodTable(store.tables[column.table], rows, ids, store.nextID);
      NothingAgrees(column);
      var i := 0;
      while i < |rows|
        invariant 0 <= i <= |rows| == |ids| && Valid()
        invariant Agrees(column, index.documents, rows[..i], ids[..i])
      {
        assert rows[..i + 1] == rows[..i] + [rows[i]] && ids[..i + 1] == ids[..i] + [ids[i]];
        EarlierBelow(ids, i);
        AddedAgrees(column, index.documents, rows[..i], ids[..i], ids[i], rows[i]);
        IndexRow(ids[i], rows[i]);
        i := i + 1;
      }
      assert rows[..i] == rows && ids[..i] == ids;
    }

    lemma ValidStore()
      requires Valid()
      ensures !store.enabled && Good(store.State()) && Parallel(store.State()) && column.table in store.tables
    {
      GoodIsParallel(store.State());
    }

    // The store changed to a good state that still has the table; the index did not.
    twostate lemma StoreChanged()
      requires old(Valid()) && unchanged(index) && Good(store.State()) && column.table in store.tables
      ensures Valid()
    {
      hide Good, II.InvertedIndex.Valid, II.InvertedIndex.PositiveSource, II.InvertedIndex.TokensFor, Positive;
    }

    // INSERT ... VALUES. Rows before a refused one stay, and stay indexed.
    method ExecuteInsert(valuesList: seq<Row>) returns (r: Result<nat, Store.Failure>)
      requires Valid() && AllInside(store.State(), column.table, valuesList)
      modifies store, index
      ensures Valid() && (old(Agreement()) ==> Agreement())
      ensures var b := InsertAll(old(store.State()), column.table, valuesList);
              store.State() == b.state && r.Ok? == b.ok && (r.Ok? ==> r.value == |valuesList|)
    {
      hide TextTable.Valid, InsertAll, Agrees, AutoInside;
      ghost var s0 := store.State();
      var i := 0;
      assert valuesList[0..] == valuesList;
      while i < |valuesList|
        invariant 0 <= i <= |valuesList| && Valid() && (old(Agreement()) ==> Agreement())
        invariant AllInside(store.State(), column.table, valuesList[i..])
        invariant var b, rest := InsertAll(s0, column.table, valuesList),
                  InsertAll(store.State(), column.table, valuesList[i..]);
                  b.state == rest.state && b.ok == rest.ok
      {
        InsertAllStep(store.State(), column.table, valuesList, i);
        var inserted := InsertOne(valuesList[i]);
        if inserted.Err? {
          return Err(inserted.error);
        }
        i := i + 1;
      }
      InsertAllNothing(store.State(), column.table, valuesList[i..]);
      return Ok(|valuesList|);
    }

    method InsertOne(values: Row) returns (r: Result<(nat, int), Store.Failure>)
      requires Valid() && Insertable(store.State(), column.table, values)
      modifies store, index
      ensures Valid() && (old(Agreement()) ==> Agreement())
      ensures var e := InsertEffect(old(store.State()), column.table, values);
              store.State() == e.state && r.Ok? == e.ok
    {
      hide TextTable.Valid, Good, Agrees, Fill, StoredRow, Acceptable, AutoInside, Reindexed, TextColumn.Reindex;
      hide Store.CallsOf, InAgreement;
      ValidStore();
      InsertKeepsGood(store.State(), column.table, values);
      if Agreement() {
        InsertStepAgrees(column, index.documents, store.State(), values);
      }
      ghost var s := store.State();
      var stored;
      r, stored := store.InsertRow(column.table, values);
      StoreChanged();
      CallsOfInsert(s, column.table, values);
      NothingReindexed(column, index.documents);
      if r.Ok? {
        IndexCalls([(r.value.0, stored)]);
      }
    }

    // UPDATE. The index stays in agreement exactly when the statement is harmless.
    method ExecuteUpdate(updater: Updater, condition: Condition) returns (r: Result<int, Store.Failure>)
      requires Valid()
      modifies store, index
      ensures Valid()
      ensures Callable(old(store.State()), UpdateOp(column.table, updater, condition))
      ensures var op := UpdateOp(column.table, updater, condition);
              && store.State() == Step(old(store.State()), op).state && r.Ok? == Step(old(store.State()), op).ok
              && (old(Agreement()) ==> (Agreement() <==> Harmless(column, old(store.State()), op)))
    {
      hide TextTable.Valid, Good, UpdateEffect, Reindexed, Store.CallsOf, InAgreement, UpdateHarmless;
      ValidStore();
      ghost var op := UpdateOp(column.table, updater, condition);
      StepKeepsGood(store.State(), op);
      if Agreement() {
        StepAgrees(column, index.documents, store.State(), op);
      }
      UpdateKeepsTables(store.State(), column.table, updater, condition);
      var calls;
      r, calls := store.UpdateRowsWithCallback(column.table, updater, condition);
      StoreChanged();
      IndexCalls(calls);
    }

    // DELETE. The index stays in agreement.
    method ExecuteDelete(condition: Condition) returns (r: Result<int, Store.Failure>)
      requires Valid()
      modifies store, index
      ensures Valid() && (old(Agreement()) ==> Agreement())
      ensures Callable(old(store.State()), Op.DeleteOp(column.table, condition))
      ensures var e := Step(old(store.State()), Op.DeleteOp(column.table, condition));
              store.State() == e.state && r.Ok? == e.ok
    {
      hide TextTable.Valid, Good, DeleteEffect, Unindexed, Store.CallsOf, InAgreement, UpdateHarmless;
      ValidStore();
      ghost var op := Op.DeleteOp(column.table, condition);
      StepKeepsGood(store.State(), op);
      if Agreement() {
        StepAgrees(column, index.documents, store.State(), op);
      }
      DeleteKeepsTables(store.State(), column.table, condition);
      var calls;
      r, calls := store.DeleteRowsWithCallback(column.table, condition);
      StoreChanged();
      RemoveCalls(calls);
    }

    // One evaluation of MATCH for a row: search, then look the row id up among the results.
    method EvalMatch(rowID: nat, query: string) returns (hit: bool)
      requires Valid()
      ensures var found := index.Selected(query);
              && (hit ==> rowID in found)
              && (|found| <= 1000 ==> (hit <==> rowID in found))
    {
      hide Good, Lists, IdsOf, Matching, II.InvertedIndex.Valid, II.InvertedIndex.PositiveSource;
      hide II.InvertedIndex.QueryTerms, Positive;
      hide II.InvertedIndex.Selected;
      var results := index.Search(query, SEARCH_LIMIT, 0);
      ghost var ranked :| Ranking(ranked, index.Selected(query), index.ScoringOf(query))
          && results == PageOf(ranked, SEARCH_LIMIT, 0);
      PageHoldsAll(ranked, index.Selected(query));
      PageIsPrefix(ranked, index.Selected(query));
      hit := false;
      var i := 0;
      while i < |results|
        invariant 0 <= i <= |results|
        invariant hit <==> exists k | 0 <= k < i :: results[k].rowID == rowID
      {
        if results[i].score > 0.0 && results[i].rowID == rowID {
          hit := true;
        }
        i := i + 1;
      }
      IdAmong(results, rowID);
    }

    // SELECT with MATCH: while the index agrees with the table, rows whose words include every
    // word of the query, in table order, and all of these if there are at most 1000.
    method SelectMatch(query: string) returns (result: seq<(nat, Row)>)
      requires Valid()
      ensures column.table in store.rowData && column.table in store.rowIDs
      ensures var rows, ids := store.rowData[column.table], store.rowIDs[column.table];
              && |rows| == |ids|
              && (Agreement() ==> AnswersMatch(result, Asked(query), rows, ids))
      ensures forall x | x in result :: x.0 in index.Selected(query)
    {
      hide TextTable.Valid, Agrees, Found, Question.Answers, Answering, Subsequence, II.InvertedIndex.QueryTerms;
      hide II.InvertedIndex.Selected, II.HasWord, Splits;
      ValidStore();
      Splitting(query);
      SelectedIsFound(query);
      var rows, ids := store.rowData[column.table], store.rowIDs[column.table];
      ghost var q, terms := Asked(query), index.QueryTerms(query);
      ghost var agreed, exact := Agreement(), Agreement() && |Found(index.View(), terms)| <= SEARCH_LIMIT;
      result := [];
      NothingAnswers(q, rows, ids);
      var i := 0;
      while i < |rows|
        invariant 0 <= i <= |rows|
        invariant exact ==> result == Answering(q, rows[..i], ids[..i])
        invariant agreed ==> Subsequence(result, Answering(q, rows[..i], ids[..i]))
        invariant forall x | x in result :: x.0 in Found(index.View(), terms)
      {
        if agreed {
          RowFound(column, q, index.View(), rows, ids, terms, i);
          SubsequenceSnoc(result, Answering(q, rows[..i], ids[..i]), (ids[i], rows[i]));
        }
        AnsweringStep(q, rows, ids, i);
        var hit := EvalMatch(ids[i], query);
        if hit {
          result := result + [(ids[i], rows[i])];
        }
        i := i + 1;
      }
      assert rows[..i] == rows && ids[..i] == ids;
      if agreed {
        StoredIncreasing();
        FoundAreAnswering(column, q, index.View(), rows, ids, terms);
      }
    }

    // MATCH on the indexed column.
    ghost function Asked(query: string): Question {
      Question(index.config, index.tokenizer, column.position, query)
    }

    lemma Splitting(query: string)
      requires Valid()
      ensures Splits(column, Asked(query), index.QueryTerms(query))
    {
      hide Good, II.InvertedIndex.Valid, II.InvertedIndex.PositiveSource, II.InvertedIndex.QueryTerms, II.HasWord;
      index.QueryTermsAre(query);
      hide II.InvertedIndex.TokensFor, TermsOf;
      forall text, w: Term
        ensures w in TermsOf(column.tokens(text)) <==> II.HasWord(index.config, index.tokenizer, text, true, w)
      {
        index.DocumentWords(text);
      }
    }

    lemma SelectedIsFound(query: string)
      ensures index.Selected(query) == Found(index.View(), index.QueryTerms(query))
    {
      index.SelectedIsMatching(query);
    }

    lemma StoredIncreasing()
      requires Valid()
      ensures column.table in store.rowIDs && Increasing(store.rowIDs[column.table])
    {
      hide RowHolds, IDsBelow, Increasing;
      var s := store.State();
      assert GoodTable(s.tables[column.table], s.rowData[column.table], s.rowIDs[column.table], s.nextID);
    }

    // One statement on the table.
    method Execute(op: TextOp)
      requires Valid() && RowFits(op)
      modifies store, index
      ensures Valid() && store.tables[column.table].columns == old(store.tables[column.table].columns)
      ensures Callable(old(store.State()), OpOf(column, op))
      ensures store.State() == Step(old(store.State()), OpOf(column, op)).state
      ensures old(Agreement()) && Harmless(column, old(store.State()), OpOf(column, op)) ==> Agreement()
    {
      hide TextTable.Valid, TextTable.Agreement, Good, InsertEffect, UpdateEffect, DeleteEffect, UpdateHarmless,
           AutoInside;
      ValidStore();
      StepKeepsColumns(store.State(), OpOf(column, op));
      match op {
        case InsertRow(row) =>
          var _ := InsertOne(row);
        case UpdateRows(updater, condition) =>
          var _ := ExecuteUpdate(updater, condition);
        case DeleteRows(condition) =>
          var _ := ExecuteDelete(condition);
      }
    }

    // A row to insert has a place for every sequence column.
    predicate RowFits(op: TextOp)
      reads store
    {
      column.table in store.tables && (op.InsertRow? ==> AutoInside(store.tables[column.table].columns, op.row))
    }

    // Any statements on the table, then a SELECT with MATCH: unless some UPDATE of the run left a
    // stale document, the result are rows of the final table whose words include every word of
    // the query, in table order, and all of these if there are at most 1000.
    method RunAndSelect(ops: seq<TextOp>, query: string) returns (result: seq<(nat, Row)>, ghost run: Run)
      requires Valid() && Agreement() && forall op | op in ops :: RowFits(op)
      modifies store, index
      ensures Valid() && IsRun(run, column, ops)
      ensures run.Valid() && run.First() == old(store.State()) && run.Final() == store.State()
      ensures column.table in store.rowData && column.table in store.rowIDs
      ensures var rows, ids := store.rowData[column.table], store.rowIDs[column.table];
              && |rows| == |ids|
              && (AllHarmless(column, run) ==> AnswersMatch(result, Asked(query), rows, ids))
    {
      hide TextTable.Valid, TextTable.Agreement, Step, Callable, Harmless, AutoInside, Found, AnswersMatch,
           II.InvertedIndex.Selected;
      ValidStore();
      run := Start(store.State());
      var i := 0;
      while i < |ops|
        invariant 0 <= i <= |ops| && Valid() && IsRun(run, column, ops[..i])
        invariant run.Valid() && run.First() == old(store.State()) && run.Final() == store.State()
        invariant AllHarmless(column, run) ==> Agreement()
        invariant forall op | op in ops :: RowFits(op)
      {
        assert ops[..i + 1][..i] == ops[..i];
        assert ops[i] in ops;
        ghost var s := store.State();
        Execute(ops[i]);
        run := Then(run, OpOf(column, ops[i]));
        ValidStore();
        i := i + 1;
      }
      assert ops[..i] == ops;
      result := SelectMatch(query);
    }
  }

  datatype TextOp =
    | InsertRow(row: Row)
    | UpdateRows(updater: Updater, condition: Condition)
    | DeleteRows(condition: Condition)

  function OpOf(c: TextColumn, op: TextOp): Op {
    match op
    case InsertRow(row) => Op.InsertOp(c.table, row)
    case UpdateRows(updater, condition) => Op.UpdateOp(c.table, updater, condition)
    case DeleteRows(condition) => Op.DeleteOp(c.table, condition)
  }

  // The run that executes these statements in this order.
  ghost predicate IsRun(run: Run, c: TextColumn, ops: seq<TextOp>)
    decreases |ops|
  {
    if ops == [] then run.Start?
    else run.Then? && run.op == OpOf(c, ops[|ops| - 1]) && IsRun(run.before, c, ops[..|ops| - 1])
  }

  lemma StepKeepsColumns(s: State, op: Op)
    requires Callable(s, op) && op.name in s.tables && !op.DropOp? && !op.CreateOp?
    ensures var s' := Step(s, op).state;
            op.name in s'.tables && s'.tables[op.name].columns == s.tables[op.name].columns
  {
    hide Fill, StoredRow, Acceptable, Kept, KeptBy, DeleteRecords, StoreState.UpdateRows, UpdateRecords;
  }

  lemma AnsweringStep(q: Question, rows: seq<Row>, ids: seq<nat>, i: nat)
    requires |rows| == |ids| && i < |rows|
    ensures var before := Answering(q, rows[..i], ids[..i]);
            Answering(q, rows[..i + 1], ids[..i + 1]) ==
            if q.Answers(rows[i]) then before + [(ids[i], rows[i])] else before
  {
    assert rows[..i + 1][..i] == rows[..i] && ids[..i + 1][..i] == ids[..i];
  }

  lemma NothingAgrees(c: TextColumn)
    ensures Agrees(c, map[], [], [])
  {
  }

  lemma EarlierBelow(ids: seq<nat>, i: nat)
    requires Increasing(ids) && i < |ids|
    ensures IDsBelow(ids[..i], ids[i])
  {
  }

  lemma AddedAgrees(c: TextColumn, docs: Documents, rows: seq<Row>, ids: seq<nat>, id: nat, row: Row)
    requires Agrees(c, docs, rows, ids) && IDsBelow(ids, id)
    ensures Agrees(c, SetDoc(docs, id, c.Reindex(row, Lookup(docs, id))), rows + [row], ids + [id])
  {
    hide Agrees, TextColumn.Reindex;
    InsertAgrees(c, docs, rows, ids, id, row);
    NothingReindexed(c, docs);
    assert [(id, row)][..0] == [];
    assert Reindexed(c, docs, [(id, row)]) == SetDoc(docs, id, c.Reindex(row, Lookup(docs, id)));
  }

  lemma InsertAllNothing(s: State, name: string, rows: seq<Row>)
    requires rows == [] && AllInside(s, name, rows)
    ensures InsertAll(s, name, rows) == Batch(s, 0, true)
  {
  }

  lemma InsertAllStep(s: State, name: string, rows: seq<Row>, i: nat)
    requires i < |rows| && AllInside(s, name, rows[i..])
    ensures Insertable(s, name, rows[i])
    ensures var e := InsertEffect(s, name, rows[i]);
            && AllInside(e.state, name, rows[i + 1..])
            && var b := InsertAll(s, name, rows[i..]);
               if e.ok then
                 var rest := InsertAll(e.state, name, rows[i + 1..]);
                 b.state == rest.state && b.ok == rest.ok
               else b.state == s && !b.ok
  {
    hide Fill, StoredRow, Acceptable, AutoInside;
    assert rows[i..][0] == rows[i] && rows[i..][1..] == rows[i + 1..];
    assert rows[i] in rows[i..];
    forall row | row in rows[i + 1..]
      ensures row in rows[i..]
    {
      assert row in rows[i..][1..];
    }
  }

  lemma CallsOfInsert(s: State, name: string, row: Row)
    requires Insertable(s, name, row)
    ensures var e := InsertEffect(s, name, row);
            Store.CallsOf(e.records) == if e.ok then [(s.nextID, InsertedRow(s, name, row))] else []
  {
    hide Fill, StoredRow, Acceptable;
  }

  lemma UpdateKeepsTables(s: State, name: string, updater: Updater, condition: Condition)
    requires Parallel(s)
    ensures UpdateEffect(s, name, updater, condition).state.tables == s.tables
  {
  }

  lemma DeleteKeepsTables(s: State, name: string, condition: Condition)
    requires Parallel(s)
    ensures DeleteEffect(s, name, condition).state.tables.Keys == s.tables.Keys
  {
    hide Kept, KeptBy, DeleteRecords;
  }

  lemma PageIsPrefix(ranked: seq<SearchResult>, ids: set<nat>)
    requires Lists(ranked, ids)
    ensures var page := PageOf(ranked, SEARCH_LIMIT, 0);
            && (forall id | id in IdsOf(page) :: id in ids)
            && forall k | 0 <= k < |page| :: page[k] in ranked && k < |ranked| && page[k] == ranked[k]
  {
    var page := PageOf(ranked, SEARCH_LIMIT, 0);
    forall k | 0 <= k < |page|
      ensures IdsOf(page)[k] in ids
    {
      assert IdsOf(page)[k] == IdsOf(ranked)[k];
      assert IdsOf(ranked)[k] in IdsOf(ranked);
    }
  }

  lemma IdAmong(r: seq<SearchResult>, id: nat)
    ensures id in IdsOf(r) <==> exists k | 0 <= k < |r| :: r[k].rowID == id
  {
  }
}
