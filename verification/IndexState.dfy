// The state of the inverted full-text index of fts/fts.go and what indexing and removing a
// document do to it.

module IndexState {
  import opened Collections

  type Term = string

  // TokenWithLevel. In single-level mode the level is 1 and the position is the token's index.
  datatype Token = Token(term: Term, level: int, position: int, weight: real, source: Term)

  datatype TermPosition = TermPosition(rowID: nat, position: int, level: int, source: Term)

  datatype Index = Index(
    index: map<Term, seq<nat>>,
    positions: map<Term, seq<TermPosition>>,
    documents: map<nat, set<Term>>,
    contents: map<nat, string>,
    docCount: int,
    termCount: int)

  const EmptyIndex := Index(map[], map[], map[], map[], 0, 0)

  function TermsOf(tokens: seq<Token>): set<Term> {
    set t | t in tokens :: t.term
  }

  // ---------------------------------------------------------------- removal

  // removeRowID: the first occurrence goes.
  function RemoveFirst(s: seq<nat>, id: nat): seq<nat> {
    if s == [] then []
    else if s[0] == id then s[1..]
    else [s[0]] + RemoveFirst(s[1..], id)
  }

  function WithoutRow(ps: seq<TermPosition>, id: nat): seq<TermPosition> {
    if ps == [] then []
    else
      var rest := WithoutRow(ps[..|ps| - 1], id);
      if ps[|ps| - 1].rowID == id then rest else rest + [ps[|ps| - 1]]
  }

  // The postings after the terms in `terms` were cleared of `id`.
  function ClearedPostings(index: map<Term, seq<nat>>, terms: set<Term>, id: nat): map<Term, seq<nat>> {
    map t | t in index && (t in terms ==> RemoveFirst(index[t], id) != []) ::
      if t in terms then RemoveFirst(index[t], id) else index[t]
  }

  function ClearedPositions(positions: map<Term, seq<TermPosition>>, terms: set<Term>,
          id: nat): map<Term, seq<TermPosition>> {
    map t | t in positions && (t in terms ==> WithoutRow(positions[t], id) != []) ::
      if t in terms then WithoutRow(positions[t], id) else positions[t]
  }

  function Removed(s: Index, id: nat): Index {
    if id !in s.documents then s
    else
      var terms := s.documents[id];
      var index := ClearedPostings(s.index, terms, id);
      Index(index, ClearedPositions(s.positions, terms, id), s.documents - {id}, s.contents - {id}, s.docCount - 1,
          |index|)
  }

  // ---------------------------------------------------------------- indexing

  function Get<T>(m: map<Term, seq<T>>, t: Term): seq<T> {
    if t in m then m[t] else []
  }

  function AddedPostings(index: map<Term, seq<nat>>, terms: set<Term>, id: nat): map<Term, seq<nat>> {
    map t | t in index.Keys + terms ::
      if t in terms && id !in Get(index, t) then Get(index, t) + [id] else Get(index, t)
  }

  function PositionOf(id: nat, t: Token): TermPosition {
    TermPosition(id, t.position, t.level, t.source)
  }

  function AddedPositions(positions: map<Term, seq<TermPosition>>, tokens: seq<Token>, id: nat,
          store: bool): map<Term, seq<TermPosition>> {
    if tokens == [] || !store then positions
    else
      var before := AddedPositions(positions, tokens[..|tokens| - 1], id, store);
      var t := tokens[|tokens| - 1];
      before[t.term := Get(before, t.term) + [PositionOf(id, t)]]
  }

  // IndexDocument: an existing document is removed first; a text without tokens is not stored.
  function Indexed(s: Index, id: nat, content: string, tokens: seq<Token>, store: bool): Index {
    var base := Removed(s, id);
    if tokens == [] then base else Added(base, id, content, tokens, store)
  }

  function Added(base: Index, id: nat, content: string, tokens: seq<Token>, store: bool): Index {
    var terms := TermsOf(tokens);
    var index := AddedPostings(base.index, terms, id);
    Index(index, AddedPositions(base.positions, tokens, id, store),
          base.documents[id := terms], base.contents[id := content], base.docCount + 1, |index|)
  }

  // ---------------------------------------------------------------- the invariant

  // A row id is in the postings of a term exactly when the term is in that document.
  ghost predicate PostingsAgree(index: map<Term, seq<nat>>, documents: map<nat, set<Term>>) {
    && (forall t, id | t in index && id in index[t] :: id in documents && t in documents[id])
    && (forall id, t | id in documents && t in documents[id] :: t in index && id in index[t])
  }

  ghost predicate PostingsClean(index: map<Term, seq<nat>>) {
    forall t | t in index :: index[t] != [] && NoRepeats(index[t])
  }

  // Stored positions belong to indexed documents and their terms.
  ghost predicate PositionsAgree(positions: map<Term, seq<TermPosition>>, documents: map<nat, set<Term>>) {
    && (forall t | t in positions :: positions[t] != [])
    && (forall t, p | t in positions && p in positions[t] :: p.rowID in documents && t in documents[p.rowID])
  }

  ghost predicate DocumentsCounted(documents: map<nat, set<Term>>, contents: map<nat, string>, docCount: int) {
    && contents.Keys == documents.Keys
    && (forall id | id in documents :: documents[id] != {})
    && docCount == |documents|
  }

  ghost predicate Inv(s: Index) {
    && PostingsAgree(s.index, s.documents)
    && PostingsClean(s.index)
    && PositionsAgree(s.positions, s.documents)
    && DocumentsCounted(s.documents, s.contents, s.docCount)
    && s.termCount == |s.index|
  }

  lemma {:induction false} RemoveFirstMembers(s: seq<nat>, id: nat, x: nat)
    requires NoRepeats(s)
    ensures x in RemoveFirst(s, id) <==> x in s && x != id
  {
    if s != [] {
      var tail := s[1..];
      NoRepeatsTail(s);
      assert x in s <==> x == s[0] || x in tail;
      RemoveFirstMembers(tail, id, x);
    }
  }

  lemma {:induction false} WithoutRowMembers(ps: seq<TermPosition>, id: nat, p: TermPosition)
    ensures p in WithoutRow(ps, id) <==> p in ps && p.rowID != id
  {
    if ps != [] {
      WithoutRowMembers(ps[..|ps| - 1], id, p);
      assert p in ps <==> p in ps[..|ps| - 1] || p == ps[|ps| - 1];
    }
  }

  lemma {:induction false} RemoveFirstNoRepeats(s: seq<nat>, id: nat)
    requires NoRepeats(s)
    ensures NoRepeats(RemoveFirst(s, id))
  {
    if s != [] {
      NoRepeatsTail(s);
      if s[0] != id {
        RemoveFirstNoRepeats(s[1..], id);
        RemoveFirstMembers(s[1..], id, s[0]);
        NoRepeatsCons(s[0], RemoveFirst(s[1..], id));
      }
    }
  }

  lemma ClearedPostingsClean(s: Index, id: nat)
    requires Inv(s) && id in s.documents
    ensures PostingsClean(ClearedPostings(s.index, s.documents[id], id))
  {
    hide RemoveFirst, NoRepeats;
    var index := ClearedPostings(s.index, s.documents[id], id);
    forall t | t in index
      ensures index[t] != [] && NoRepeats(index[t])
    {
      RemoveFirstNoRepeats(s.index[t], id);
    }
  }

  lemma ClearedMember(s: Index, id: nat, t: Term, x: nat)
    requires Inv(s) && id in s.documents
    ensures x in Get(ClearedPostings(s.index, s.documents[id], id), t) <==> x != id && x in Get(s.index, t)
  {
    hide RemoveFirst, NoRepeats;
    if t in s.index {
      RemoveFirstMembers(s.index[t], id, x);
    }
  }

  // Membership in the cleared postings, for one term and one row.
  lemma ClearedAgree(s: Index, id: nat, t: Term, x: nat)
    requires Inv(s) && id in s.documents
    ensures x in Get(ClearedPostings(s.index, s.documents[id], id), t)
            <==> x != id && x in s.documents && t in s.documents[x]
  {
    hide ClearedPostings, PostingsClean, PositionsAgree, DocumentsCounted;
    ClearedMember(s, id, t, x);
    PostingMember(s, t, x);
  }

  lemma PostingMember(s: Index, t: Term, x: nat)
    requires PostingsAgree(s.index, s.documents)
    ensures x in Get(s.index, t) <==> x in s.documents && t in s.documents[x]
  {
  }

  // Agreement, stated member by member.
  lemma AgreeByMember(index: map<Term, seq<nat>>, docs: map<nat, set<Term>>)
    requires forall t, x :: x in Get(index, t) <==> x in docs && t in docs[x]
    ensures PostingsAgree(index, docs)
  {
    forall t, x | t in index && x in index[t]
      ensures x in docs && t in docs[x]
    {
      assert x in Get(index, t);
    }
    forall x, t | x in docs && t in docs[x]
      ensures t in index && x in index[t]
    {
      assert x in Get(index, t);
    }
  }

  lemma ClearedPostingsAgree(s: Index, id: nat)
    requires Inv(s) && id in s.documents
    ensures PostingsAgree(ClearedPostings(s.index, s.documents[id], id), s.documents - {id})
  {
    hide Inv, ClearedPostings, PostingsAgree, Get;
    var index, docs := ClearedPostings(s.index, s.documents[id], id), s.documents - {id};
    forall t, x
      ensures x in Get(index, t) <==> x in docs && t in docs[x]
    {
      ClearedAgree(s, id, t, x);
    }
    AgreeByMember(index, docs);
  }

  lemma ClearedPositionsAgree(s: Index, id: nat)
    requires Inv(s) && id in s.documents
    ensures PositionsAgree(ClearedPositions(s.positions, s.documents[id], id), s.documents - {id})
  {
    hide WithoutRow;
    var terms, docs := s.documents[id], s.documents - {id};
    var positions := ClearedPositions(s.positions, terms, id);
    forall t, p: TermPosition | t in positions && p in positions[t]
      ensures p.rowID in docs && t in docs[p.rowID]
    {
      WithoutRowMembers(s.positions[t], id, p);
    }
  }

  // Deleting a document keeps the index consistent and leaves no trace of the document.
  lemma RemovedKeepsInv(s: Index, id: nat)
    requires Inv(s)
    ensures Inv(Removed(s, id))
    ensures id !in Removed(s, id).documents
    ensures forall x | x in s.documents && x != id ::
              x in Removed(s, id).documents && Removed(s, id).documents[x] == s.documents[x]
  {
    if id in s.documents {
      ClearedPostingsClean(s, id);
      ClearedPostingsAgree(s, id);
      ClearedPositionsAgree(s, id);
      hide ClearedPostings, ClearedPositions;
      var r := Removed(s, id);
      assert r.documents.Keys == s.documents.Keys - {id};
      assert |r.documents| == |r.documents.Keys| == |s.documents.Keys| - 1;
    }
  }

  // Positions are only added for the new document's own terms.
  lemma {:induction false} AddedPositionsAre(positions: map<Term, seq<TermPosition>>, tokens: seq<Token>, id: nat,
          store: bool, t: Term)
    ensures var r := AddedPositions(positions, tokens, id, store);
            && (t in r ==> t in positions || t in TermsOf(tokens))
            && (t in positions ==> t in r)
            && (t in r && (t in positions ==> positions[t] != []) ==> r[t] != [])
            && forall p | p in Get(r, t) :: p in Get(positions, t) || (t in TermsOf(tokens) && p.rowID == id)
  {
    if tokens != [] && store {
      var n := |tokens| - 1;
      AddedPositionsAre(positions, tokens[..n], id, store, t);
      assert tokens[n] in tokens && tokens[n].term in TermsOf(tokens);
      assert forall u | u in tokens[..n] :: u in tokens;
      assert t in TermsOf(tokens[..n]) ==> t in TermsOf(tokens);
    }
  }

  lemma AddedPositionsAgree(base: Index, id: nat, tokens: seq<Token>, store: bool)
    requires Inv(base) && id !in base.documents
    ensures PositionsAgree(AddedPositions(base.positions, tokens, id, store), base.documents[id := TermsOf(tokens)])
  {
    hide AddedPositions;
    var r, docs := AddedPositions(base.positions, tokens, id, store), base.documents[id := TermsOf(tokens)];
    forall t | t in r
      ensures r[t] != []
    {
      AddedPositionsAre(base.positions, tokens, id, store, t);
    }
    forall t, p: TermPosition | t in r && p in r[t]
      ensures p.rowID in docs && t in docs[p.rowID]
    {
      AddedPositionsAre(base.positions, tokens, id, store, t);
      assert p in Get(r, t);
    }
  }

  // Adding a document that is not in the index.
  lemma AddedKeepsInv(base: Index, id: nat, content: string, tokens: seq<Token>, store: bool)
    requires Inv(base) && id !in base.documents && tokens != []
    ensures Inv(Added(base, id, content, tokens, store))
  {
    var terms := TermsOf(tokens);
    assert tokens[0] in tokens && tokens[0].term in terms;
    hide AddedPostings, AddedPositions, PostingsAgree, PostingsClean, PositionsAgree, DocumentsCounted, TermsOf;
    AddedPostingsClean(base, id, terms);
    AddedPostingsAgree(base, id, terms);
    AddedPositionsAgree(base, id, tokens, store);
    AddedCounts(base.documents, base.contents, base.docCount, id, terms, content);
  }

  lemma AddedCounts(documents: map<nat, set<Term>>, contents: map<nat, string>, docCount: int, id: nat,
          terms: set<Term>, content: string)
    requires DocumentsCounted(documents, contents, docCount) && id !in documents && terms != {}
    ensures DocumentsCounted(documents[id := terms], contents[id := content], docCount + 1)
  {
    var docs := documents[id := terms];
    assert docs.Keys == documents.Keys + {id};
    assert |docs| == |docs.Keys| == |documents.Keys| + 1;
  }

  lemma AddedPostingsClean(base: Index, id: nat, terms: set<Term>)
    requires Inv(base) && id !in base.documents
    ensures PostingsClean(AddedPostings(base.index, terms, id))
  {
    hide NoRepeats;
    var index := AddedPostings(base.index, terms, id);
    forall t | t in index
      ensures index[t] != [] && NoRepeats(index[t])
    {
      assert id !in Get(base.index, t);
      NoRepeatsSnocFresh(Get(base.index, t), id);
    }
  }

  lemma NoRepeatsSnocFresh(s: seq<nat>, x: nat)
    requires NoRepeats(s) || s == []
    requires x !in s
    ensures NoRepeats(s + [x])
  {
    NoRepeatsSnoc(s, x);
  }

  lemma AddedAgree(base: Index, id: nat, terms: set<Term>, t: Term, x: nat)
    requires Inv(base) && id !in base.documents
    ensures x in Get(AddedPostings(base.index, terms, id), t)
            <==> if x == id then t in terms else x in base.documents && t in base.documents[x]
  {
    hide Inv, PostingsAgree;
    InvPostings(base);
    PostingMember(base, t, x);
    PostingMember(base, t, id);
  }

  lemma InvPostings(s: Index)
    requires Inv(s)
    ensures PostingsAgree(s.index, s.documents)
  {
    hide PostingsAgree;
  }

  lemma AddedPostingsAgree(base: Index, id: nat, terms: set<Term>)
    requires Inv(base) && id !in base.documents
    ensures PostingsAgree(AddedPostings(base.index, terms, id), base.documents[id := terms])
  {
    hide Inv, AddedPostings, PostingsAgree, Get;
    var index, docs := AddedPostings(base.index, terms, id), base.documents[id := terms];
    forall t, x
      ensures x in Get(index, t) <==> x in docs && t in docs[x]
    {
      AddedAgree(base, id, terms, t, x);
    }
    AgreeByMember(index, docs);
  }

  // Indexing and re-indexing keep the index consistent; the document's term set is that of
  // its tokens, and no other document changes.
  lemma IndexedKeepsInv(s: Index, id: nat, content: string, tokens: seq<Token>, store: bool)
    requires Inv(s)
    ensures var r := Indexed(s, id, content, tokens, store);
            && Inv(r)
            && (id in r.documents <==> tokens != [])
            && (tokens != [] ==> r.documents[id] == TermsOf(tokens) && r.contents[id] == content)
            && (forall x | x in s.documents && x != id :: x in r.documents && r.documents[x] == s.documents[x])
            && (forall x | x in r.documents && x != id :: x in s.documents)
  {
    RemovedKeepsInv(s, id);
    if tokens != [] {
      AddedKeepsInv(Removed(s, id), id, content, tokens, store);
    }
  }

  // One of the tokens leaves this position in the list of the term.
  ghost predicate LeftBy(tokens: seq<Token>, id: nat, t: Term, p: TermPosition) {
    exists i :: 0 <= i < |tokens| && tokens[i].term == t
                && p == TermPosition(id, tokens[i].position, tokens[i].level, tokens[i].source)
  }

  lemma {:induction false} AddedPosition(positions: map<Term, seq<TermPosition>>, tokens: seq<Token>, id: nat,
                                          store: bool, t: Term, p: TermPosition)
    ensures p in Get(AddedPositions(positions, tokens, id, store), t) <==>
            p in Get(positions, t) || (store && LeftBy(tokens, id, t, p))
  {
    if tokens != [] && store {
      var n := |tokens| - 1;
      AddedPosition(positions, tokens[..n], id, store, t, p);
      if LeftBy(tokens[..n], id, t, p) {
        var i :| 0 <= i < n && tokens[..n][i].term == t
                 && p == TermPosition(id, tokens[..n][i].position, tokens[..n][i].level, tokens[..n][i].source);
        assert tokens[i].term == t;
      }
      if LeftBy(tokens, id, t, p) {
        var i :| 0 <= i < |tokens| && tokens[i].term == t
                 && p == TermPosition(id, tokens[i].position, tokens[i].level, tokens[i].source);
        assert i < n ==> tokens[..n][i].term == t;
      }
    }
  }

  lemma RemovedPosition(s: Index, id: nat, t: Term, p: TermPosition)
    requires Inv(s)
    ensures p in Get(Removed(s, id).positions, t) <==> p in Get(s.positions, t) && p.rowID != id
  {
    if t in s.positions {
      WithoutRowMembers(s.positions[t], id, p);
    }
    hide WithoutRow;
  }

  // The stored positions of an indexed document are those of its tokens, if positions are kept;
  // those of other documents stay.
  lemma IndexedPositions(s: Index, id: nat, content: string, tokens: seq<Token>, store: bool, t: Term, p: TermPosition)
    requires Inv(s)
    ensures p in Get(Indexed(s, id, content, tokens, store).positions, t) <==>
            if p.rowID != id then p in Get(s.positions, t)
            else
              store && exists i :: 0 <= i < |tokens| && tokens[i].term == t
                                   && p == TermPosition(id, tokens[i].position, tokens[i].level, tokens[i].source)
  {
    hide Inv, Removed, AddedPositions, Get;
    RemovedPosition(s, id, t, p);
    AddedPosition(Removed(s, id).positions, tokens, id, store, t, p);
  }

  // Nor does the text of another document change.
  lemma IndexedContents(s: Index, id: nat, content: string, tokens: seq<Token>, store: bool)
    requires Inv(s)
    ensures var r := Indexed(s, id, content, tokens, store);
            r.contents == if tokens == [] then s.contents - {id} else s.contents[id := content]
  {
    hide AddedPositions, AddedPostings, ClearedPositions, ClearedPostings;
    assert id !in s.documents ==> s.contents - {id} == s.contents;
    assert (s.contents - {id})[id := content] == s.contents[id := content];
  }

  // ---------------------------------------------------------------- undoing

  lemma {:induction false} RemoveFirstOfSnoc(s: seq<nat>, id: nat)
    requires id !in s
    ensures RemoveFirst(s + [id], id) == s
  {
    if s == [] {
      assert [] + [id] == [id];
    } else {
      RemoveFirstOfSnoc(s[1..], id);
      assert (s + [id])[1..] == s[1..] + [id];
    }
  }

  lemma {:induction false} WithoutRowIdentity(ps: seq<TermPosition>, id: nat)
    requires forall p | p in ps :: p.rowID != id
    ensures WithoutRow(ps, id) == ps
  {
    if ps != [] {
      var n := |ps| - 1;
      assert forall p | p in ps[..n] :: p in ps;
      assert ps[n] in ps;
      WithoutRowIdentity(ps[..n], id);
      assert ps[..n] + [ps[n]] == ps;
    }
  }

  lemma {:induction false} PositionsUndone(positions: map<Term, seq<TermPosition>>, tokens: seq<Token>, id: nat,
          store: bool, t: Term)
    requires forall u, p | u in positions && p in positions[u] :: p.rowID != id
    ensures WithoutRow(Get(AddedPositions(positions, tokens, id, store), t), id) == Get(positions, t)
  {
    if tokens == [] || !store {
      WithoutRowIdentity(Get(positions, t), id);
    } else {
      var n := |tokens| - 1;
      PositionsUndone(positions, tokens[..n], id, store, t);
      var before := Get(AddedPositions(positions, tokens[..n], id, store), t);
      var p := PositionOf(id, tokens[n]);
      assert (before + [p])[..|before|] == before;
    }
  }

  // Deleting a document that was newly indexed restores postings, positions and counters.
  lemma DeleteUndoesIndex(s: Index, id: nat, content: string, tokens: seq<Token>, store: bool)
    requires Inv(s) && id !in s.documents
    ensures Removed(Indexed(s, id, content, tokens, store), id) == s
  {
    hide AddedPostings, AddedPositions, ClearedPostings, ClearedPositions, TermsOf, PostingsAgree, PostingsClean;
    hide PositionsAgree;
    if tokens != [] {
      var r := Added(s, id, content, tokens, store);
      UndonePostings(s, TermsOf(tokens), id);
      UndonePositions(s, tokens, id, store);
      TakenBack(s.documents, id, TermsOf(tokens));
      TakenBack(s.contents, id, content);
    }
  }

  lemma TakenBack<T>(m: map<nat, T>, id: nat, x: T)
    requires id !in m
    ensures m[id := x] - {id} == m
  {
  }

  lemma UndonePosting(s: Index, terms: set<Term>, id: nat, t: Term)
    requires Inv(s) && id !in s.documents
    ensures var added := AddedPostings(s.index, terms, id);
            && (t in added <==> t in s.index || t in terms)
            && (t in added ==> if t in terms then RemoveFirst(added[t], id) == Get(s.index, t)
                 else added[t] == Get(s.index, t))
  {
    hide RemoveFirst;
    assert id !in Get(s.index, t);
    RemoveFirstOfSnoc(Get(s.index, t), id);
  }

  lemma UndonePostings(s: Index, terms: set<Term>, id: nat)
    requires Inv(s) && id !in s.documents
    ensures ClearedPostings(AddedPostings(s.index, terms, id), terms, id) == s.index
  {
    hide RemoveFirst, AddedPostings, PostingsAgree, PositionsAgree;
    var back := ClearedPostings(AddedPostings(s.index, terms, id), terms, id);
    forall t: Term
      ensures t in back <==> t in s.index
      ensures t in back ==> back[t] == s.index[t]
    {
      UndonePosting(s, terms, id, t);
    }
  }

  lemma UndonePosition(s: Index, tokens: seq<Token>, id: nat, store: bool, t: Term)
    requires Inv(s) && id !in s.documents
    ensures var added := AddedPositions(s.positions, tokens, id, store);
            && WithoutRow(Get(added, t), id) == Get(s.positions, t)
            && (t !in TermsOf(tokens) ==> Get(added, t) == Get(s.positions, t))
            && (t in s.positions ==> t in added)
            && (t in added ==> t in s.positions || t in TermsOf(tokens))
  {
    hide WithoutRow;
    AddedPositionsAre(s.positions, tokens, id, store, t);
    PositionsUndone(s.positions, tokens, id, store, t);
    hide AddedPositions;
    if t !in TermsOf(tokens) {
      var added := AddedPositions(s.positions, tokens, id, store);
      assert forall p | p in Get(s.positions, t) :: p.rowID != id;
      WithoutRowIdentity(Get(added, t), id);
    }
  }

  lemma UndonePositions(s: Index, tokens: seq<Token>, id: nat, store: bool)
    requires Inv(s) && id !in s.documents
    ensures ClearedPositions(AddedPositions(s.positions, tokens, id, store), TermsOf(tokens), id) == s.positions
  {
    hide WithoutRow, AddedPositions, TermsOf;
    var added := AddedPositions(s.positions, tokens, id, store);
    var back := ClearedPositions(added, TermsOf(tokens), id);
    forall t: Term
      ensures t in back <==> t in s.positions
      ensures t in back ==> back[t] == s.positions[t]
    {
      UndonePosition(s, tokens, id, store, t);
    }
  }

  // ---------------------------------------------------------------- runs

  datatype IndexOp = IndexOp(id: nat, content: string, tokens: seq<Token>) | DeleteOp(id: nat)

  function StepIndex(s: Index, op: IndexOp, store: bool): Index {
    match op
    case IndexOp(id, content, tokens) => Indexed(s, id, content, tokens, store)
    case DeleteOp(id) => Removed(s, id)
  }

  function RunIndex(s: Index, ops: seq<IndexOp>, store: bool): Index {
    if ops == [] then s else StepIndex(RunIndex(s, ops[..|ops| - 1], store), ops[|ops| - 1], store)
  }

  // The index is consistent after any run of indexing, re-indexing and deleting.
  lemma {:induction false} RunKeepsInv(ops: seq<IndexOp>, store: bool)
    ensures Inv(RunIndex(EmptyIndex, ops, store))
  {
    if ops != [] {
      var before := ops[..|ops| - 1];
      RunKeepsInv(before, store);
      var s := RunIndex(EmptyIndex, before, store);
      match ops[|ops| - 1] {
        case IndexOp(id, content, tokens) => IndexedKeepsInv(s, id, content, tokens, store);
        case DeleteOp(id) => RemovedKeepsInv(s, id);
      }
    }
  }
}
