// What a full-text search should return, independently of how postings are intersected.

module SearchSpec {
  import opened Collections
  import opened IndexState

  datatype SearchResult = SearchResult(rowID: nat, score: real)

  // AND search: the documents whose term set contains every query term.
  function Matching(s: Index, terms: seq<Term>): set<nat> {
    set id | id in s.documents && HasAll(s.documents[id], terms)
  }

  predicate HasAll(doc: set<Term>, terms: seq<Term>) {
    forall t | t in terms :: t in doc
  }

  // ---------------------------------------------------------------- scores

  function Weight(weights: map<Term, real>, t: Term): real {
    if t in weights && weights[t] != 0.0 then weights[t] else 1.0
  }

  function QueryWeight(weights: map<Term, real>, t: Term): real {
    if t in weights then weights[t] else 1.0
  }

  function TermScore(s: Index, termWeights: map<Term, real>, id: nat, t: Term, queryWeights: map<Term, real>): real
    requires id in s.documents
  {
    var docLen := |s.documents[id]|;
    var totalDocs := if s.docCount == 0 then 1 else s.docCount;
    var df := |Get(s.index, t)|;
    var tf := if docLen > 0 then 1.0 / docLen as real else 1.0;
    var idf := if df > 0 then totalDocs as real / df as real else 1.0;
    tf * idf * Weight(termWeights, t) * QueryWeight(queryWeights, t)
  }

  function Score(s: Index, termWeights: map<Term, real>, id: nat, terms: seq<Term>, queryWeights: map<Term, real>): real
    requires id in s.documents
  {
    if terms == [] then 0.0
    else
      var last := terms[|terms| - 1];
      Score(s, termWeights, id, terms[..|terms| - 1], queryWeights)
      + if last in s.documents[id] then TermScore(s, termWeights, id, last, queryWeights) else 0.0
  }

  // A document scores, for each query term it has, one over the number of its terms, times the
  // number of documents over that of the documents with the term, times the term's weights in the
  // index and in the query; a missing weight counts as one.
  lemma ScoreIs(s: Index, termWeights: map<Term, real>, id: nat, terms: seq<Term>, t: Term,
                queryWeights: map<Term, real>)
    requires Inv(s) && id in s.documents
    ensures Score(s, termWeights, id, [], queryWeights) == 0.0
    ensures var before, after := Score(s, termWeights, id, terms, queryWeights),
                                 Score(s, termWeights, id, terms + [t], queryWeights);
            if t !in s.documents[id] then after == before
            else
              && |s.documents[id]| > 0 && t in s.index && |s.index[t]| > 0
              && after == before
                          + 1.0 / |s.documents[id]| as real * (|s.documents| as real / |s.index[t]| as real)
                            * (if t in termWeights && termWeights[t] != 0.0 then termWeights[t] else 1.0)
                            * (if t in queryWeights then queryWeights[t] else 1.0)
  {
    assert (terms + [t])[..|terms|] == terms;
    if t in s.documents[id] {
      assert id in s.index[t];
    }
  }

  ghost predicate Positive(weights: map<Term, real>) {
    forall t | t in weights :: weights[t] > 0.0
  }

  lemma ProductPositive(a: real, b: real)
    requires a > 0.0 && b > 0.0
    ensures a * b > 0.0
  {
  }

  lemma QuotientPositive(a: real, b: real)
    requires a > 0.0 && b > 0.0
    ensures a / b > 0.0
  {
  }

  lemma TermScorePositive(s: Index, termWeights: map<Term, real>, id: nat, t: Term, queryWeights: map<Term, real>)
    requires Inv(s) && id in s.documents && t in s.documents[id]
    requires Positive(termWeights) && Positive(queryWeights)
    ensures TermScore(s, termWeights, id, t, queryWeights) > 0.0
  {
    var docLen, df := |s.documents[id]|, |Get(s.index, t)|;
    assert t in s.index && id in s.index[t];
    assert docLen > 0 && df > 0 && s.docCount > 0;
    var tf, idf := 1.0 / docLen as real, s.docCount as real / df as real;
    QuotientPositive(1.0, docLen as real);
    QuotientPositive(s.docCount as real, df as real);
    ProductPositive(tf, idf);
    ProductPositive(tf * idf, Weight(termWeights, t));
    ProductPositive(tf * idf * Weight(termWeights, t), QueryWeight(queryWeights, t));
  }

  // A document that contains a query term has a positive score.
  lemma {:induction false} ScorePositive(s: Index, termWeights: map<Term, real>, id: nat, terms: seq<Term>,
          queryWeights: map<Term, real>)
    requires Inv(s) && id in s.documents
    requires Positive(termWeights) && Positive(queryWeights)
    ensures Score(s, termWeights, id, terms, queryWeights) >= 0.0
    ensures terms != [] && HasAll(s.documents[id], terms) ==> Score(s, termWeights, id, terms, queryWeights) > 0.0
  {
    if terms != [] {
      var n := |terms| - 1;
      ScorePositive(s, termWeights, id, terms[..n], queryWeights);
      if terms[n] in s.documents[id] {
        TermScorePositive(s, termWeights, id, terms[n], queryWeights);
      }
      hide Inv, TermScore;
      assert HasAll(s.documents[id], terms) ==> terms[n] in s.documents[id];
    }
  }

  // ---------------------------------------------------------------- ranking and paging

  ghost predicate Descending(r: seq<SearchResult>) {
    forall i, j | 0 <= i < j < |r| :: r[i].score >= r[j].score
  }

  function IdsOf(r: seq<SearchResult>): (ids: seq<nat>)
    ensures |ids| == |r| && forall i | 0 <= i < |r| :: ids[i] == r[i].rowID
  {
    if r == [] then [] else IdsOf(r[..|r| - 1]) + [r[|r| - 1].rowID]
  }

  ghost predicate Lists(r: seq<SearchResult>, ids: set<nat>) {
    NoRepeats(IdsOf(r)) && forall id :: id in IdsOf(r) <==> id in ids
  }

  // What the scores of a search depend on.
  datatype Scoring = Scoring(index: Index, termWeights: map<Term, real>, terms: seq<Term>,
          queryWeights: map<Term, real>) {
    ghost predicate AllPositive() {
      Inv(index) && Positive(termWeights) && Positive(queryWeights) && terms != []
    }
  }

  ghost predicate Scored(r: seq<SearchResult>, sc: Scoring) {
    forall i | 0 <= i < |r| ::
      r[i].rowID in sc.index.documents
      && r[i].score == Score(sc.index, sc.termWeights, r[i].rowID, sc.terms, sc.queryWeights)
  }

  ghost predicate PositiveScores(r: seq<SearchResult>) {
    forall i | 0 <= i < |r| :: r[i].score > 0.0
  }

  // A complete result: each of the ids once, with its own score, by falling score.
  ghost predicate Ranking(r: seq<SearchResult>, ids: set<nat>, sc: Scoring) {
    Lists(r, ids) && Descending(r) && Scored(r, sc)
  }

  // What a search with these ids returns: the page of some complete result.
  ghost predicate PageOfRanking(page: seq<SearchResult>, ids: set<nat>, sc: Scoring, limit: int, offset: nat)
    requires limit > 0
  {
    exists ranked :: Ranking(ranked, ids, sc) && page == PageOf(ranked, limit, offset)
  }

  lemma RankingPage(ranked: seq<SearchResult>, ids: set<nat>, sc: Scoring, limit: int, offset: nat)
    requires limit > 0 && Ranking(ranked, ids, sc)
    ensures PageOfRanking(PageOf(ranked, limit, offset), ids, sc, limit, offset)
  {
  }

  // Documents that have every query term score above zero, as long as all weights do.
  lemma PageScoresPositive(page: seq<SearchResult>, ids: set<nat>, sc: Scoring, limit: int, offset: nat)
    requires limit > 0 && PageOfRanking(page, ids, sc, limit, offset)
    requires sc.AllPositive() && ids <= Matching(sc.index, sc.terms)
    ensures PositiveScores(page)
  {
    hide Inv, Score;
    var ranked: seq<SearchResult> :| Ranking(ranked, ids, sc) && page == PageOf(ranked, limit, offset);
    forall i | 0 <= i < |ranked|
      ensures ranked[i].score > 0.0
    {
      assert IdsOf(ranked)[i] in IdsOf(ranked);
      ScorePositive(sc.index, sc.termWeights, ranked[i].rowID, sc.terms, sc.queryWeights);
    }
  }

  function PageOf(r: seq<SearchResult>, limit: int, offset: nat): (p: seq<SearchResult>)
    requires limit > 0
    ensures |p| == if offset >= |r| then 0 else if offset + limit > |r| then |r| - offset else limit
    ensures forall i | 0 <= i < |p| :: p[i] == r[offset + i]
  {
    if offset >= |r| then []
    else r[offset..if offset + limit > |r| then |r| else offset + limit]
  }

  // A sorted permutation of a listing lists the same ids.
  lemma SortedLists(r: seq<SearchResult>, sorted: seq<SearchResult>, ids: set<nat>)
    requires Lists(r, ids) && multiset(sorted) == multiset(r)
    ensures Lists(sorted, ids)
  {
    IdsMultiset(r);
    IdsMultiset(sorted);
    SameIdMultiset(r, sorted);
    hide IdsOf;
    forall id
      ensures id in IdsOf(sorted) <==> id in ids
    {
      assert id in multiset(IdsOf(sorted)) <==> id in multiset(IdsOf(r));
    }
    forall i, j | 0 <= i < j < |IdsOf(sorted)|
      ensures IdsOf(sorted)[i] != IdsOf(sorted)[j]
    {
      if IdsOf(sorted)[i] == IdsOf(sorted)[j] {
        TwiceInMultiset(IdsOf(sorted), i, j);
        NoRepeatsMultiset(IdsOf(r), IdsOf(sorted)[i]);
      }
    }
  }

  function CountId(m: seq<SearchResult>, id: nat): nat {
    if m == [] then 0 else CountId(m[..|m| - 1], id) + if m[|m| - 1].rowID == id then 1 else 0
  }

  lemma {:induction false} IdsMultiset(r: seq<SearchResult>)
    ensures forall id :: multiset(IdsOf(r))[id] == CountId(r, id)
  {
    if r != [] {
      IdsMultiset(r[..|r| - 1]);
    }
  }

  lemma {:induction false} CountSplit(a: seq<SearchResult>, b: seq<SearchResult>, id: nat)
    ensures CountId(a + b, id) == CountId(a, id) + CountId(b, id)
  {
    if b == [] {
      assert a + b == a;
    } else {
      assert (a + b)[..|a + b| - 1] == a + b[..|b| - 1];
      CountSplit(a, b[..|b| - 1], id);
    }
  }

  lemma {:induction false} SameIdMultiset(r: seq<SearchResult>, sorted: seq<SearchResult>)
    requires multiset(sorted) == multiset(r)
    ensures forall id :: CountId(sorted, id) == CountId(r, id)
  {
    if r == [] {
      assert |multiset(sorted)| == 0;
      assert sorted == [];
    } else {
      var n := |r| - 1;
      var x := r[n];
      assert x in multiset(r);
      assert x in sorted;
      var k :| 0 <= k < |sorted| && sorted[k] == x;
      var a, b := sorted[..k], sorted[k + 1..];
      assert sorted == a + [x] + b;
      assert r == r[..n] + [x];
      assert multiset(a + b) == multiset(sorted) - multiset{x};
      assert multiset(r[..n]) == multiset(r) - multiset{x};
      SameIdMultiset(r[..n], a + b);
      forall id
        ensures CountId(sorted, id) == CountId(r, id)
      {
        CountSplit(a, b, id);
        CountSplit(a + [x], b, id);
        CountSplit(a, [x], id);
        CountSplit(r[..n], [x], id);
      }
    }
  }

  lemma TwiceInMultiset(s: seq<nat>, i: nat, j: nat)
    requires i < j < |s| && s[i] == s[j]
    ensures multiset(s)[s[i]] >= 2
  {
    assert s == s[..j] + s[j..];
    assert s[i] == s[..j][i] && s[j] == s[j..][0];
    assert s[i] in multiset(s[..j]) && s[j] in multiset(s[j..]);
    assert multiset(s) == multiset(s[..j]) + multiset(s[j..]);
  }

  lemma {:induction false} NoRepeatsMultiset(s: seq<nat>, x: nat)
    requires NoRepeats(s)
    ensures multiset(s)[x] <= 1
  {
    if s != [] {
      var n := |s| - 1;
      NoRepeatsMultiset(s[..n], x);
      assert s == s[..n] + [s[n]];
      if s[n] == x {
        assert x !in s[..n];
        assert x !in multiset(s[..n]);
      }
    }
  }

  // A first page that is long enough lists everything.
  lemma FirstPageIsAll(r: seq<SearchResult>, ids: set<nat>, limit: int)
    requires Lists(r, ids) && limit > 0 && |r| <= limit
    ensures Lists(PageOf(r, limit, 0), ids)
  {
    assert r[0..|r|] == r;
  }

  lemma {:induction false} ListLength(s: seq<nat>, ids: set<nat>)
    requires NoRepeats(s) && forall id :: id in s <==> id in ids
    ensures |s| == |ids|
  {
    if s == [] {
      assert ids == {};
    } else {
      var n := |s| - 1;
      var last := s[n];
      assert forall i | 0 <= i < n :: s[..n][i] == s[i];
      assert last !in s[..n];
      forall id
        ensures id in s[..n] <==> id in ids - {last}
      {
        assert id in s <==> id in s[..n] || id == last;
      }
      ListLength(s[..n], ids - {last});
    }
  }

  // Intersecting with one more posting list.
  lemma MatchingStep(s: Index, terms: seq<Term>, i: nat)
    requires Inv(s) && i < |terms|
    ensures var rows := set id | id in Get(s.index, terms[i]);
            && Matching(s, terms[..i + 1]) == Matching(s, terms[..i]) * rows
            && (i == 0 ==> Matching(s, terms[..1]) == rows)
  {
    hide Inv, HasAll, Get;
    InvPostings(s);
    forall id: nat
      ensures id in Get(s.index, terms[i]) <==> id in s.documents && terms[i] in s.documents[id]
    {
      PostingMember(s, terms[i], id);
    }
    forall id | id in s.documents
      ensures HasAll(s.documents[id], terms[..i + 1])
              <==> HasAll(s.documents[id], terms[..i]) && terms[i] in s.documents[id]
      ensures i == 0 ==> HasAll(s.documents[id], terms[..i])
    {
      HasAllStep(s.documents[id], terms, i);
    }
  }

  lemma HasAllStep(doc: set<Term>, terms: seq<Term>, i: nat)
    requires i < |terms|
    ensures HasAll(doc, terms[..i + 1]) <==> HasAll(doc, terms[..i]) && terms[i] in doc
    ensures HasAll(doc, terms[..0])
  {
    assert terms[..i + 1] == terms[..i] + [terms[i]];
    assert forall u :: u in terms[..i + 1] <==> u in terms[..i] || u == terms[i];
  }

  // A term that is in no postings rules out every document.
  lemma MatchingNothing(s: Index, terms: seq<Term>, t: Term)
    requires Inv(s) && t in terms && t !in s.index
    ensures Matching(s, terms) == {}
  {
    hide Inv, PostingsAgree;
    InvPostings(s);
    forall id | id in s.documents
      ensures !HasAll(s.documents[id], terms)
    {
      PostingMember(s, t, id);
    }
  }

  lemma MatchingShrinks(s: Index, terms: seq<Term>, i: nat)
    requires i <= |terms| && Matching(s, terms[..i]) == {}
    ensures Matching(s, terms) == {}
  {
    forall id | id in s.documents && HasAll(s.documents[id], terms)
      ensures HasAll(s.documents[id], terms[..i])
    {
      assert forall u | u in terms[..i] :: u in terms;
    }
    assert forall id | id in Matching(s, terms) :: id in Matching(s, terms[..i]);
  }

  // sort.Slice by falling score.
  method SortByScore(results: seq<SearchResult>) returns (sorted: seq<SearchResult>)
    ensures Descending(sorted) && multiset(sorted) == multiset(results)
  {
    var falling := (r: SearchResult) => -r.score;
    sorted := SortByKey(results, falling);
    assert forall i, j | 0 <= i < j < |sorted| :: falling(sorted[i]) <= falling(sorted[j]);
  }

  lemma SortedScored(r: seq<SearchResult>, sorted: seq<SearchResult>, sc: Scoring)
    requires Scored(r, sc) && multiset(sorted) == multiset(r)
    ensures Scored(sorted, sc)
  {
    hide Score;
    forall i | 0 <= i < |sorted|
      ensures sorted[i].rowID in sc.index.documents
      ensures sorted[i].score == Score(sc.index, sc.termWeights, sorted[i].rowID, sc.terms, sc.queryWeights)
    {
      assert sorted[i] in multiset(sorted);
      assert sorted[i] in r;
    }
  }

  lemma ListsSnoc(r: seq<SearchResult>, ids: set<nat>, x: SearchResult)
    requires Lists(r, ids) && x.rowID !in ids
    ensures Lists(r + [x], ids + {x.rowID})
  {
    assert (r + [x])[..|r|] == r;
    assert IdsOf(r + [x]) == IdsOf(r) + [x.rowID];
    hide IdsOf;
    NoRepeatsSnoc(IdsOf(r), x.rowID);
  }
}
