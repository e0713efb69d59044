// The inverted index object of fts/fts.go: indexing and deleting update its maps in place,
// searching intersects postings.

module InvertedIndex {
  import opened Collections
  import opened IndexState
  import opened SearchSpec

  // `levelled`: the tokenizer knows levels; `levelCount`: how many levels are configured.
  datatype Config = Config(levelled: bool, levelCount: nat, storePos: bool, weightL1: real) {
    predicate MultiLevel() {
      levelled && levelCount > 1
    }
  }

  // The segmenter is a parameter: words for single-level mode, tokens with levels otherwise
  // (the flag asks for synonyms, which only indexing uses).
  datatype Tokenizer = Tokenizer(words: string -> seq<Term>, levels: (string, bool) -> seq<Token>)

  // The word is one that the tokenizer delivers for the text. In multi-level mode indexing asks
  // for synonyms as well, searching does not.
  ghost predicate HasWord(config: Config, tokenizer: Tokenizer, text: string, forIndex: bool, w: Term) {
    if config.levelled && config.levelCount > 1 then
      var tokens := tokenizer.levels(text, forIndex);
      exists i :: 0 <= i < |tokens| && tokens[i].term == w
    else
      var words := tokenizer.words(text);
      exists i :: 0 <= i < |words| && words[i] == w
  }

  // The word is one of the query's words at this level; without levels all words are at level 1.
  ghost predicate HasLevelWord(config: Config, tokenizer: Tokenizer, query: string, level: int, w: Term) {
    if config.levelled then
      var tokens := tokenizer.levels(query, false);
      exists i :: 0 <= i < |tokens| && tokens[i].level == level && tokens[i].term == w
    else level == 1 && w in tokenizer.words(query)
  }

  function Numbered(words: seq<Term>): (tokens: seq<Token>)
    ensures |tokens| == |words|
    ensures forall i | 0 <= i < |words| :: tokens[i] == Token(words[i], 1, i, 1.0, words[i])
  {
    if words == [] then []
    else
      var n := |words| - 1;
      Numbered(words[..n]) + [Token(words[n], 1, n, 1.0, words[n])]
  }

  function TermSeq(tokens: seq<Token>): (terms: seq<Term>)
    ensures |terms| == |tokens| && forall i | 0 <= i < |terms| :: terms[i] == tokens[i].term
  {
    if tokens == [] then [] else TermSeq(tokens[..|tokens| - 1]) + [tokens[|tokens| - 1].term]
  }

  lemma TermAmong(tokens: seq<Token>, w: Term)
    ensures w in TermsOf(tokens) <==> exists i :: 0 <= i < |tokens| && tokens[i].term == w
  {
    if i :| 0 <= i < |tokens| && tokens[i].term == w {
      assert tokens[i] in tokens;
    }
  }

  lemma TermsOfStep(tokens: seq<Token>, i: nat)
    requires i < |tokens|
    ensures TermsOf(tokens[..i + 1]) == TermsOf(tokens[..i]) + {tokens[i].term}
  {
    assert tokens[..i + 1] == tokens[..i] + [tokens[i]];
  }

  lemma PositionsStep(positions: map<Term, seq<TermPosition>>, tokens: seq<Token>, id: nat, store: bool, i: nat)
    requires i < |tokens|
    ensures AddedPositions(positions, tokens[..i + 1], id, store) ==
            if store then
              var before := AddedPositions(positions, tokens[..i], id, store);
              before[tokens[i].term := Get(before, tokens[i].term) + [PositionOf(id, tokens[i])]]
            else AddedPositions(positions, tokens[..i], id, store)
  {
    assert tokens[..i + 1][..i] == tokens[..i];
  }

  lemma PostingsStep(index: map<Term, seq<nat>>, done: set<Term>, id: nat, t: Term)
    requires t !in done
    ensures AddedPostings(index, done + {t}, id) ==
            if id in Get(index, t) then AddedPostings(index, done, id)[t := Get(index, t)]
            else AddedPostings(index, done, id)[t := Get(index, t) + [id]]
    ensures Get(AddedPostings(index, done, id), t) == Get(index, t)
  {
  }

  lemma ClearedStep(index: map<Term, seq<nat>>, done: set<Term>, id: nat, t: Term)
    requires t !in done && t in index
    ensures var r := RemoveFirst(index[t], id);
            ClearedPostings(index, done + {t}, id) ==
            if r == [] then ClearedPostings(index, done, id) - {t} else ClearedPostings(index, done, id)[t := r]
    ensures Get(ClearedPostings(index, done, id), t) == index[t]
  {
  }

  lemma ClearedPositionsStep(positions: map<Term, seq<TermPosition>>, done: set<Term>, id: nat, t: Term)
    requires t !in done
    ensures var cleared := ClearedPositions(positions, done, id);
            && (t in cleared <==> t in positions) && Get(cleared, t) == Get(positions, t)
            && var r := WithoutRow(Get(positions, t), id);
               ClearedPositions(positions, done + {t}, id) ==
               if t !in positions then cleared else if r == [] then cleared - {t} else cleared[t := r]
  {
  }

  class InvertedIndex {
    const config: Config
    const tokenizer: Tokenizer
    var index: map<Term, seq<nat>>
    var termWeights: map<Term, real>
    var termPositions: map<Term, seq<TermPosition>>
    var documents: map<nat, set<Term>>
    var contents: map<nat, string>
    var docCount: int
    var termCount: int

    ghost function View(): Index
      reads this
    {
      Index(index, termPositions, documents, contents, docCount, termCount)
    }

    ghost predicate Valid()
      reads this
    {
      Inv(View()) && Weighed()
    }

    // Every indexed term has a weight.
    ghost predicate Weighed()
      reads this`index, this`termWeights
    {
      forall t | t in index :: t in termWeights
    }

    ghost predicate WeighedWith(terms: set<Term>)
      reads this`index, this`termWeights
    {
      Weighed() && forall t | t in terms :: t in termWeights
    }

    // Configured and token weights are positive, as the defaults 1.0, 0.7, 0.3 are; a zero
    // level-1 weight stands for 1.0.
    ghost predicate PositiveSource() {
      config.weightL1 >= 0.0 && forall text, forIndex :: PositiveTokens(tokenizer.levels(text, forIndex))
    }

    ghost predicate PositiveTokens(tokens: seq<Token>) {
      config.weightL1 >= 0.0 && (config.MultiLevel() ==> forall t | t in tokens :: t.weight > 0.0)
    }

    lemma SourceTokens(content: string)
      requires PositiveSource()
      ensures PositiveTokens(TokensFor(content))
    {
      if config.MultiLevel() {
        assert PositiveTokens(tokenizer.levels(content, true));
      }
    }

    function TokensFor(content: string): seq<Token> {
      if config.MultiLevel() then tokenizer.levels(content, true) else Numbered(tokenizer.words(content))
    }

    constructor (tokenizer: Tokenizer, config: Config)
      ensures Valid() && View() == EmptyIndex
      ensures this.tokenizer == tokenizer && this.config == config && termWeights == map[]
    {
      this.tokenizer := tokenizer;
      this.config := config;
      index, termWeights, termPositions, documents, contents := map[], map[], map[], map[], map[];
      docCount, termCount := 0, 0;
    }

    method RemoveDocument(rowID: nat)
      requires Valid()
      modifies this
      ensures Valid() && View() == Removed(old(View()), rowID) && termWeights == old(termWeights)
    {
      hide Inv, Get, TermsOf, ClearedPostings, ClearedPositions, InvertedIndex.Weighed, InvertedIndex.WeighedWith;
      RemovedIsGood(View(), rowID);
      if rowID !in documents {
        return;
      }
      var termSet := documents[rowID];
      RemoveTerms(rowID, termSet);
      ForgetDocument(rowID);
    }

    // The document tables and counters, once the terms are gone.
    method ForgetDocument(rowID: nat)
      modifies this`documents, this`contents, this`docCount, this`termCount
      ensures documents == old(documents) - {rowID} && contents == old(contents) - {rowID}
      ensures docCount == old(docCount) - 1 && termCount == |index|
    {
      documents := documents - {rowID};
      contents := contents - {rowID};
      docCount := docCount - 1;
      termCount := |index|;
    }

    // The loop over the terms of a document that is being removed.
    method RemoveTerms(rowID: nat, termSet: set<Term>)
      requires forall t | t in termSet :: t in index
      modifies this`index, this`termPositions
      ensures index == ClearedPostings(old(index), termSet, rowID)
      ensures termPositions == ClearedPositions(old(termPositions), termSet, rowID)
      ensures old(Weighed()) ==> Weighed()
    {
      hide RemoveFirst, WithoutRow;
      ghost var index0, positions0 := index, termPositions;
      var todo := termSet;
      ghost var done: set<Term> := {};
      while todo != {}
        invariant done + todo == termSet && done !! todo
        invariant index == ClearedPostings(index0, done, rowID)
        invariant termPositions == ClearedPositions(positions0, done, rowID)
        decreases todo
      {
        var term :| term in todo;
        ClearedStep(index0, done, rowID, term);
        ClearedPositionsStep(positions0, done, rowID, term);
        var postings := RemoveFirst(Get(index, term), rowID);
        if postings == [] {
          index := index - {term};
        } else {
          index := index[term := postings];
        }
        if term in termPositions {
          var newPositions := WithoutRow(termPositions[term], rowID);
          if newPositions == [] {
            termPositions := termPositions - {term};
          } else {
            termPositions := termPositions[term := newPositions];
          }
        }
        todo := todo - {term};
        done := done + {term};
      }
      assert done == termSet;
    }

    method DeleteDocument(rowID: nat)
      requires Valid()
      modifies this
      ensures Valid() && View() == Removed(old(View()), rowID) && termWeights == old(termWeights)
    {
      RemoveDocument(rowID);
    }

    method IndexDocument(rowID: nat, content: string)
      requires Valid()
      modifies this
      ensures Valid() && View() == Indexed(old(View()), rowID, content, TokensFor(content), config.storePos)
      ensures NewWeights(config, old(termWeights), termWeights, TokensFor(content))
      ensures PositiveSource() && Positive(old(termWeights)) ==> Positive(termWeights)
    {
      RemovedIsGood(View(), rowID);
      if PositiveSource() {
        SourceTokens(content);
      }
      hide Inv, Removed, Added, Positive;
      hide InvertedIndex.PositiveSource, InvertedIndex.PositiveTokens, InvertedIndex.TokensFor;
      if rowID in documents {
        RemoveDocument(rowID);
      }
      var tokens := TokensFor(content);
      NoNewWeights(config, old(termWeights), tokens[..0]);
      if |tokens| == 0 {
        return;
      }
      AddDocument(rowID, content, tokens);
    }

    // Indexing a document that is not in the index.
    method AddDocument(rowID: nat, content: string, tokens: seq<Token>)
      requires Valid() && rowID !in documents && tokens != []
      modifies this
      ensures Valid() && View() == Added(old(View()), rowID, content, tokens, config.storePos)
      ensures NewWeights(config, old(termWeights), termWeights, tokens)
      ensures PositiveTokens(tokens) && Positive(old(termWeights)) ==> Positive(termWeights)
    {
      hide Inv, AddedPostings, AddedPositions, TermsOf, Positive;
      hide InvertedIndex.PositiveTokens, InvertedIndex.Weighed, InvertedIndex.WeighedWith;
      AddedKeepsInv(View(), rowID, content, tokens, config.storePos);
      var termSet := ReadTokens(rowID, tokens);
      AddTerms(rowID, termSet);
      documents := documents[rowID := termSet];
      contents := contents[rowID := content];
      docCount := docCount + 1;
      termCount := |index|;
    }

    // The loop over the tokens: term set, weights and positions.
    method ReadTokens(rowID: nat, tokens: seq<Token>) returns (termSet: set<Term>)
      modifies this`termWeights, this`termPositions
      ensures termSet == TermsOf(tokens)
      ensures termPositions == AddedPositions(old(termPositions), tokens, rowID, config.storePos)
      ensures old(Weighed()) ==> WeighedWith(termSet)
      ensures Positive(old(termWeights)) && PositiveTokens(tokens) ==> Positive(termWeights)
      ensures NewWeights(config, old(termWeights), termWeights, tokens)
    {
      hide TermsOf, AddedPositions, NewWeights;
      ghost var positions0 := termPositions;
      NoNewWeights(config, termWeights, tokens[..0]);
      NoTokens(positions0, tokens, rowID, config.storePos);
      termSet := {};
      var i := 0;
      while i < |tokens|
        invariant 0 <= i <= |tokens|
        invariant termSet == TermsOf(tokens[..i])
        invariant termPositions == AddedPositions(positions0, tokens[..i], rowID, config.storePos)
        invariant forall t | t in old(termWeights) || t in termSet :: t in termWeights
        invariant Positive(old(termWeights)) && PositiveTokens(tokens) ==> Positive(termWeights)
        invariant NewWeights(config, old(termWeights), termWeights, tokens[..i])
      {
        var t := tokens[i];
        NewWeightsStep(config, old(termWeights), termWeights, tokens, i);
        TermsOfStep(tokens, i);
        PositionsStep(positions0, tokens, rowID, config.storePos, i);
        termSet := termSet + {t.term};
        if config.MultiLevel() {
          if t.term !in termWeights || t.weight > termWeights[t.term] {
            termWeights := termWeights[t.term := t.weight];
          }
        } else {
          termWeights := termWeights[t.term := if config.weightL1 == 0.0 then 1.0 else config.weightL1];
        }
        if config.storePos {
          termPositions := termPositions[t.term := Get(termPositions, t.term) + [PositionOf(rowID, t)]];
        }
        i := i + 1;
      }
      assert tokens[..i] == tokens;
    }

    // The loop that adds the row to the postings of its terms.
    method AddTerms(rowID: nat, termSet: set<Term>)
      modifies this`index
      ensures index == AddedPostings(old(index), termSet, rowID)
      ensures old(WeighedWith(termSet)) ==> Weighed()
    {
      ghost var index0 := index;
      var todo := termSet;
      ghost var done: set<Term> := {};
      assert AddedPostings(index0, {}, rowID) == index0;
      while todo != {}
        invariant done + todo == termSet && done !! todo
        invariant index == AddedPostings(index0, done, rowID)
        decreases todo
      {
        var term :| term in todo;
        PostingsStep(index0, done, rowID, term);
        hide AddedPostings;
        var postings := Get(index, term);
        if rowID !in postings {
          index := index[term := postings + [rowID]];
        } else {
          index := index[term := postings];
        }
        todo := todo - {term};
        done := done + {term};
      }
      assert done == termSet;
    }

    function QueryTokens(query: string): seq<Token> {
      if config.MultiLevel() then tokenizer.levels(query, false) else Numbered(tokenizer.words(query))
    }

    function QueryTerms(query: string): seq<Term> {
      TermSeq(QueryTokens(query))
    }

    // What is searched for: in multi-level mode the terms of the query's tokens, without synonyms,
    // otherwise its words.
    lemma QueryTermsAre(query: string)
      ensures config.levelled && config.levelCount > 1 ==>
                var tokens := tokenizer.levels(query, false);
                |QueryTerms(query)| == |tokens| && forall i | 0 <= i < |tokens| ::
                    QueryTerms(query)[i] == tokens[i].term
      ensures !(config.levelled && config.levelCount > 1) ==> QueryTerms(query) == tokenizer.words(query)
      ensures forall w: Term :: w in QueryTerms(query) <==> HasWord(config, tokenizer, query, false, w)
    {
      var terms, tokens := QueryTerms(query), QueryTokens(query);
      assert forall i | 0 <= i < |terms| :: terms[i] == tokens[i].term;
      if !config.MultiLevel() {
        assert terms == tokenizer.words(query);
      }
    }

    // What a text is indexed under: in multi-level mode its tokens with synonyms, otherwise its
    // words, numbered, at level 1.
    lemma DocumentWords(content: string)
      ensures config.levelled && config.levelCount > 1 ==> TokensFor(content) == tokenizer.levels(content, true)
      ensures !(config.levelled && config.levelCount > 1) ==>
                var words := tokenizer.words(content);
                && |TokensFor(content)| == |words|
                && forall i | 0 <= i < |words| :: TokensFor(content)[i] == Token(words[i], 1, i, 1.0, words[i])
      ensures forall w: Term :: w in TermsOf(TokensFor(content)) <==> HasWord(config, tokenizer, content, true, w)
      ensures TokensFor(content) == [] <==> forall w: Term :: !HasWord(config, tokenizer, content, true, w)
    {
      var tokens := TokensFor(content);
      forall w: Term
        ensures w in TermsOf(tokens) <==> exists i :: 0 <= i < |tokens| && tokens[i].term == w
      {
        TermAmong(tokens, w);
      }
      assert !config.MultiLevel() ==>
          forall i | 0 <= i < |tokens| :: tokens[i].term == tokenizer.words(content)[i];
      hide TermsOf;
      if tokens != [] {
        assert tokens[0].term in TermsOf(tokens);
      }
    }

    // The loop that intersects postings; no candidates means no results.
    method Candidates(terms: seq<Term>) returns (rows: set<nat>)
      requires Valid() && terms != []
      ensures rows == Matching(View(), terms)
    {
      hide Inv, Matching;
      var candidateRows: Option<set<nat>> := None;
      var i := 0;
      while i < |terms|
        invariant 0 <= i <= |terms|
        invariant if i == 0 then candidateRows.None? else candidateRows == Some(Matching(View(), terms[..i]))
      {
        var term := terms[i];
        if term !in index {
          MatchingNothing(View(), terms, term);
          return {};
        }
        MatchingStep(View(), terms, i);
        var termRows := set rowID | rowID in index[term];
        candidateRows := Some(if candidateRows.None? then termRows else candidateRows.value * termRows);
        if candidateRows.value == {} {
          MatchingShrinks(View(), terms, i + 1);
          return {};
        }
        i := i + 1;
      }
      assert terms[..i] == terms;
      rows := candidateRows.value;
    }

    method CalculateScore(rowID: nat, terms: seq<Term>, queryWeights: map<Term, real>) returns (score: real)
      requires rowID in documents
      ensures score == Score(View(), termWeights, rowID, terms, queryWeights)
    {
      hide TermScore;
      score := 0.0;
      var i := 0;
      while i < |terms|
        invariant 0 <= i <= |terms|
        invariant score == Score(View(), termWeights, rowID, terms[..i], queryWeights)
      {
        assert terms[..i + 1][..i] == terms[..i];
        if terms[i] in documents[rowID] {
          var s := ScoreOfTerm(rowID, terms[i], queryWeights);
          score := score + s;
        }
        i := i + 1;
      }
      assert terms[..i] == terms;
    }

    method ScoreOfTerm(rowID: nat, term: Term, queryWeights: map<Term, real>) returns (score: real)
      requires rowID in documents
      ensures score == TermScore(View(), termWeights, rowID, term, queryWeights)
    {
      var docLen := |documents[rowID]|;
      var totalDocs := docCount;
      if totalDocs == 0 {
        totalDocs := 1;
      }
      var termWeight := if term in termWeights then termWeights[term] else 0.0;
      if termWeight == 0.0 {
        termWeight := 1.0;
      }
      var queryWeight := 1.0;
      if term in queryWeights {
        queryWeight := queryWeights[term];
      }
      var tf := 1.0;
      if docLen > 0 {
        tf := 1.0 / docLen as real;
      }
      var df := |Get(index, term)|;
      var idf := 1.0;
      if df > 0 {
        idf := totalDocs as real / df as real;
      }
      score := tf * idf * termWeight * queryWeight;
    }

    // Scores the candidates and sorts them.
    method Rank(candidates: set<nat>, terms: seq<Term>, queryWeights: map<Term, real>)
      returns (results: seq<SearchResult>)
      requires forall id | id in candidates :: id in documents
      ensures Lists(results, candidates) && Descending(results)
      ensures Scored(results, Scoring(View(), termWeights, terms, queryWeights))
    {
      hide Score, Lists;
      EmptyLists();
      results := [];
      var todo := candidates;
      ghost var done: set<nat> := {};
      while todo != {}
        invariant done + todo == candidates && done !! todo
        invariant Lists(results, done) && Scored(results, Scoring(View(), termWeights, terms, queryWeights))
        decreases todo
      {
        var rowID :| rowID in todo;
        var score := CalculateScore(rowID, terms, queryWeights);
        ListsSnoc(results, done, SearchResult(rowID, score));
        results := results + [SearchResult(rowID, score)];
        todo := todo - {rowID};
        done := done + {rowID};
      }
      assert done == candidates;
      var sorted := SortByScore(results);
      SortedLists(results, sorted, candidates);
      SortedScored(results, sorted, Scoring(View(), termWeights, terms, queryWeights));
      results := sorted;
    }

    // The largest weight of each query term in multi-level mode; no weights otherwise.
    function QueryWeights(query: string): map<Term, real> {
      if config.MultiLevel() then LargestWeights(QueryTokens(query)) else map[]
    }

    method ReadQuery(query: string) returns (terms: seq<Term>, weights: map<Term, real>)
      ensures terms == QueryTerms(query) && weights == QueryWeights(query)
    {
      var tokens := QueryTokens(query);
      terms := TermSeq(tokens);
      weights := map[];
      if config.MultiLevel() {
        var i := 0;
        assert weights == LargestWeights(tokens[..0]);
        while i < |tokens|
          invariant 0 <= i <= |tokens|
          invariant weights == LargestWeights(tokens[..i])
        {
          LargestWeightsStep(tokens, i);
          hide LargestWeights;
          var t := tokens[i];
          if t.term !in weights || t.weight > weights[t.term] {
            weights := weights[t.term := t.weight];
          }
          i := i + 1;
        }
        assert tokens[..i] == tokens;
      }
    }

    lemma QueryWeightsPositive(query: string)
      requires PositiveSource()
      ensures Positive(QueryWeights(query))
    {
      if config.MultiLevel() {
        var tokens := QueryTokens(query);
        LargestWeightsAre(tokens);
        assert PositiveTokens(tokenizer.levels(query, false));
        forall t | t in LargestWeights(tokens)
          ensures LargestWeights(tokens)[t] > 0.0
        {
          var i :| 0 <= i < |tokens| && tokens[i].term == t && tokens[i].weight == LargestWeights(tokens)[t];
        }
      }
    }

    ghost predicate PositiveWeights()
      reads this`termWeights
    {
      PositiveSource() && Positive(termWeights)
    }

    // The documents a query selects: those that contain every word of it, if it has any.
    ghost function Selected(query: string): set<nat>
      reads this
    {
      set id | id in documents
               && (exists w: Term :: HasWord(config, tokenizer, query, false, w))
               && forall w: Term | HasWord(config, tokenizer, query, false, w) :: w in documents[id]
    }

    lemma SelectedIsMatching(query: string)
      ensures Selected(query) == if QueryTerms(query) == [] then {} else Matching(View(), QueryTerms(query))
    {
      hide InvertedIndex.QueryTerms, HasWord;
      QueryTermsAre(query);
      var terms := QueryTerms(query);
      if terms != [] {
        assert terms[0] in terms;
      }
    }

    // What the scores of a query are computed from.
    ghost function ScoringOf(query: string): Scoring
      reads this
    {
      Scoring(View(), termWeights, QueryTerms(query), QueryWeights(query))
    }

    // Search: a page of all selected documents, each once, with its own score, by falling
    // score; scores are positive when the weights are.
    method Search(query: string, limit: int, offset: nat) returns (r: seq<SearchResult>)
      requires Valid()
      ensures PageOfRanking(r, Selected(query), ScoringOf(query), if limit <= 0 then 10 else limit, offset)
      ensures PositiveWeights() ==> PositiveScores(r)
    {
      hide Inv, Score, Lists, PageOfRanking, PageOf, Scored, InvertedIndex.Selected;
      SelectedIsMatching(query);
      ghost var sc := ScoringOf(query);
      var terms, weights := ReadQuery(query);
      NoResults(sc, if limit <= 0 then 10 else limit, offset);
      if |terms| == 0 {
        return [];
      }
      var candidates := Candidates(terms);
      if candidates == {} {
        return [];
      }
      var results := Rank(candidates, terms, weights);
      RankingPage(results, candidates, sc, if limit <= 0 then 10 else limit, offset);
      r := Paged(results, if limit <= 0 then 10 else limit, offset);
      if PositiveWeights() {
        QueryWeightsPositive(query);
        PageScoresPositive(r, candidates, sc, if limit <= 0 then 10 else limit, offset);
      }
    }

    static method Paged(results: seq<SearchResult>, limit: int, offset: nat) returns (r: seq<SearchResult>)
      requires limit > 0
      ensures r == PageOf(results, limit, offset)
    {
      if offset >= |results| {
        return [];
      }
      var end := offset + limit;
      if end > |results| {
        end := |results|;
      }
      r := results[offset..end];
    }

    // ---------------------------------------------------------------- level search

    function LevelTerms(query: string, level: int): seq<Term> {
      if config.levelled then TermSeq(AtLevel(tokenizer.levels(query, false), level))
      else if level == 1 then tokenizer.words(query)
      else []
    }

    // The rows of a term at a level: its stored positions, or its postings if it has none.
    function LevelRows(term: Term, level: int): set<nat>
      reads this
    {
      if term in termPositions then set p | p in termPositions[term] && p.level == level :: p.rowID
      else set rowID | rowID in Get(index, term)
    }

    // The row has every one of the terms at the level.
    ghost predicate AtLevelRow(terms: seq<Term>, level: int, id: nat)
      reads this
    {
      forall t | t in terms :: id in LevelRows(t, level)
    }

    // Level search finds the documents that have every query term of the level at that level;
    // all of them contain all these terms.
    method LevelCandidates(terms: seq<Term>, level: int) returns (rows: set<nat>)
      requires Valid() && terms != []
      ensures forall id :: id in rows <==> AtLevelRow(terms, level, id)
      ensures rows <= Matching(View(), terms)
    {
      hide Inv, Matching, InvertedIndex.LevelRows, InvertedIndex.AtLevelRow;
      AllLevelRowsMatch(terms, level);
      var candidateRows: Option<set<nat>> := None;
      var i := 0;
      while i < |terms|
        invariant 0 <= i <= |terms|
        invariant candidateRows.None? <==> i == 0
        invariant candidateRows.Some? ==> forall id :: id in candidateRows.value <==> AtLevelRow(terms[..i], level, id)
      {
        AtLevelStep(terms, level, i);
        var termRows := LevelRows(terms[i], level);
        if termRows == {} {
          return {};
        }
        candidateRows := Some(if candidateRows.None? then termRows else candidateRows.value * termRows);
        if candidateRows.value == {} {
          return {};
        }
        i := i + 1;
      }
      assert terms[..i] == terms;
      rows := candidateRows.value;
    }

    // One more term.
    lemma AtLevelStep(terms: seq<Term>, level: int, i: nat)
      requires i < |terms|
      ensures forall id: nat ::
                AtLevelRow(terms[..i + 1], level, id)
                <==> AtLevelRow(terms[..i], level, id) && id in LevelRows(terms[i], level)
      ensures forall id: nat :: AtLevelRow(terms, level, id) ==> AtLevelRow(terms[..i + 1], level, id)
      ensures forall id: nat :: i == 0 ==> AtLevelRow(terms[..i], level, id)
    {
      hide InvertedIndex.LevelRows;
      assert terms[..i + 1] == terms[..i] + [terms[i]];
      assert forall t :: t in terms[..i + 1] <==> t in terms[..i] || t == terms[i];
      assert forall t | t in terms[..i + 1] :: t in terms;
    }

    lemma AllLevelRowsMatch(terms: seq<Term>, level: int)
      requires Valid() && terms != []
      ensures forall id: nat | AtLevelRow(terms, level, id) :: id in Matching(View(), terms)
    {
      hide Inv, Matching, InvertedIndex.LevelRows, InvertedIndex.AtLevelRow;
      forall id: nat | AtLevelRow(terms, level, id)
        ensures id in Matching(View(), terms)
      {
        LevelRowsMatch(terms, level, id);
      }
    }

    // What a level search selects: for level 0 what Search selects, for another level the
    // documents that have every query term of that level at that level.
    ghost function SelectedAt(query: string, level: int): set<nat>
      reads this
    {
      var terms := LevelTerms(query, level);
      if level == 0 then Selected(query)
      else if terms == [] then {}
      else set id | id in documents && AtLevelRow(terms, level, id)
    }

    // The terms of a level search are the query's words at that level.
    lemma LevelTermsAre(query: string, level: int)
      ensures forall w: Term :: w in LevelTerms(query, level) <==> HasLevelWord(config, tokenizer, query, level, w)
    {
      if config.levelled {
        var tokens := tokenizer.levels(query, false);
        forall w: Term
          ensures w in TermSeq(AtLevel(tokens, level))
                  <==> exists i :: 0 <= i < |tokens| && tokens[i].level == level && tokens[i].term == w
        {
          AtLevelTerm(tokens, level, w);
        }
      }
    }

    // The documents selected at a level: every word of the query at that level, and there is one,
    // has a stored position at that level in the document, or, if the index keeps no positions of
    // the word at all, occurs in the document.
    lemma SelectedAtIs(query: string, level: int, id: nat)
      requires Valid() && level != 0
      ensures id in SelectedAt(query, level) <==>
              && id in documents
              && (exists w: Term :: HasLevelWord(config, tokenizer, query, level, w))
              && forall w: Term | HasLevelWord(config, tokenizer, query, level, w) ::
                   if w in termPositions then exists p :: p in termPositions[w] && p.rowID == id && p.level == level
                   else w in documents[id]
    {
      hide InvertedIndex.LevelTerms, HasLevelWord, Inv;
      LevelTermsAre(query, level);
      var terms := LevelTerms(query, level);
      if terms != [] {
        assert terms[0] in terms;
      }
      if id in documents {
        forall w: Term
          ensures id in LevelRows(w, level) <==>
                  if w in termPositions then exists p :: p in termPositions[w] && p.rowID == id && p.level == level
                  else w in documents[id]
        {
          InvPostings(View());
          PostingMember(View(), w, id);
        }
      }
    }

    // What the scores are computed from: for level 0 the weights of the query's tokens, in
    // multi-level mode; for another level the weights in the index.
    lemma ScoringIs(query: string, level: int)
      ensures var sc := ScoringAt(query, level);
              && sc.index == View() && sc.termWeights == termWeights
              && (level == 0 ==>
                    && sc.terms == QueryTerms(query)
                    && (config.levelled && config.levelCount > 1 ==>
                          sc.queryWeights == LargestWeights(tokenizer.levels(query, false)))
                    && (!(config.levelled && config.levelCount > 1) ==> sc.queryWeights == map[]))
              && (level != 0 ==>
                    && sc.terms == LevelTerms(query, level)
                    && forall t: Term | t in sc.terms ::
                         t in sc.queryWeights && (t in termWeights ==> sc.queryWeights[t] == termWeights[t]))
    {
    }

    ghost function ScoringAt(query: string, level: int): Scoring
      reads this
    {
      var terms := LevelTerms(query, level);
      if level == 0 then ScoringOf(query) else Scoring(View(), termWeights, terms, LevelWeights(terms))
    }

    // SearchWithLevel: the same for the documents selected at the level.
    method SearchWithLevel(query: string, level: int, limit: int, offset: nat) returns (r: seq<SearchResult>)
      requires Valid()
      ensures PageOfRanking(r, SelectedAt(query, level), ScoringAt(query, level),
                            if limit <= 0 then 10 else limit, offset)
      ensures PositiveWeights() ==> PositiveScores(r)
    {
      hide Inv, Score, Lists, PageOfRanking, PageOf, Scored, HasAll, InvertedIndex.LevelRows, Matching;
      hide InvertedIndex.AtLevelRow, InvertedIndex.Selected;
      if level == 0 {
        r := Search(query, limit, offset);
        return;
      }
      ghost var sc := ScoringAt(query, level);
      var terms := LevelTerms(query, level);
      NoResults(sc, if limit <= 0 then 10 else limit, offset);
      if |terms| == 0 {
        return [];
      }
      var candidates := LevelCandidates(terms, level);
      AreDocuments(terms, candidates);
      assert candidates == SelectedAt(query, level);
      if candidates == {} {
        return [];
      }
      var results := Rank(candidates, terms, LevelWeights(terms));
      RankingPage(results, candidates, sc, if limit <= 0 then 10 else limit, offset);
      r := Paged(results, if limit <= 0 then 10 else limit, offset);
      if PositiveWeights() {
        LevelWeightsPositive(terms, candidates);
        PageScoresPositive(r, candidates, sc, if limit <= 0 then 10 else limit, offset);
      }
    }

    lemma AreDocuments(terms: seq<Term>, rows: set<nat>)
      requires rows <= Matching(View(), terms)
      ensures forall id | id in rows :: id in documents
    {
    }

    function LevelWeights(terms: seq<Term>): map<Term, real>
      reads this
    {
      map t | t in terms :: if t in termWeights then termWeights[t] else 0.0
    }

    // The terms of a document that was found are indexed, and indexed terms have weights.
    lemma LevelWeightsPositive(terms: seq<Term>, rows: set<nat>)
      requires Valid() && Positive(termWeights) && rows != {} && rows <= Matching(View(), terms)
      ensures Positive(LevelWeights(terms))
    {
      hide Inv, Get;
      var id :| id in rows;
      assert id in Matching(View(), terms);
      forall t | t in terms
        ensures t in termWeights
      {
        assert t in documents[id];
        HasPostings(View(), id, t);
      }
    }

    lemma LevelRowsMatch(terms: seq<Term>, level: int, id: nat)
      requires Valid() && terms != [] && AtLevelRow(terms, level, id)
      ensures id in Matching(View(), terms)
    {
      forall t | t in terms
        ensures id in documents && t in documents[id]
      {
        LevelRowIsMatch(t, level, id);
      }
      assert terms[0] in terms;
    }

    lemma LevelRowIsMatch(t: Term, level: int, id: nat)
      requires Valid() && id in LevelRows(t, level)
      ensures id in documents && t in documents[id]
    {
      if t in termPositions {
        var p :| p in termPositions[t] && p.level == level && p.rowID == id;
      } else {
        assert t in index && id in index[t];
      }
    }
  }

  function AtLevel(tokens: seq<Token>, level: int): (r: seq<Token>)
    ensures forall t | t in r :: t in tokens && t.level == level
  {
    if tokens == [] then []
    else
      var last := tokens[|tokens| - 1];
      AtLevel(tokens[..|tokens| - 1], level) + if last.level == level then [last] else []
  }

  // AtLevel takes each token of the level as often as it occurs.
  lemma {:induction false} AtLevelAre(tokens: seq<Token>, level: int, t: Token)
    ensures multiset(AtLevel(tokens, level))[t] == if t.level == level then multiset(tokens)[t] else 0
  {
    if tokens != [] {
      var n := |tokens| - 1;
      AtLevelAre(tokens[..n], level, t);
      assert tokens == tokens[..n] + [tokens[n]];
    }
  }

  lemma AtLevelTerm(tokens: seq<Token>, level: int, w: Term)
    ensures w in TermSeq(AtLevel(tokens, level))
            <==> exists i :: 0 <= i < |tokens| && tokens[i].level == level && tokens[i].term == w
  {
    var r := AtLevel(tokens, level);
    hide AtLevel, TermSeq;
    if i :| 0 <= i < |r| && TermSeq(r)[i] == w {
      AtLevelAre(tokens, level, r[i]);
      assert r[i] in multiset(tokens);
    }
    if i :| 0 <= i < |tokens| && tokens[i].level == level && tokens[i].term == w {
      AtLevelAre(tokens, level, tokens[i]);
      assert tokens[i] in multiset(r);
      var k :| 0 <= k < |r| && r[k] == tokens[i];
      assert TermSeq(r)[k] == w;
    }
  }

  // What indexing tokens makes of the term weights: in multi-level mode the largest of the old
  // weight and those of the term's tokens; otherwise the configured weight, or 1 if it is zero.
  ghost predicate NewWeights(config: Config, before: map<Term, real>, after: map<Term, real>, tokens: seq<Token>) {
    if config.levelled && config.levelCount > 1 then LargestKept(before, after, tokens)
    else FixedWeights(before, after, tokens, if config.weightL1 == 0.0 then 1.0 else config.weightL1)
  }

  ghost predicate LargestKept(before: map<Term, real>, after: map<Term, real>, tokens: seq<Token>) {
    && (forall t | t in before :: t in after && after[t] >= before[t])
    && (forall i | 0 <= i < |tokens| :: tokens[i].term in after && after[tokens[i].term] >= tokens[i].weight)
    && forall t | t in after ::
         || (t in before && after[t] == before[t])
         || exists i :: 0 <= i < |tokens| && tokens[i].term == t && after[t] == tokens[i].weight
  }

  ghost predicate FixedWeights(before: map<Term, real>, after: map<Term, real>, tokens: seq<Token>, weight: real) {
    && (forall i | 0 <= i < |tokens| :: tokens[i].term in after && after[tokens[i].term] == weight)
    && (forall t | t in before :: t in after)
    && forall t | t in after && (forall i | 0 <= i < |tokens| :: tokens[i].term != t) ::
         t in before && after[t] == before[t]
  }

  lemma NoNewWeights(config: Config, weights: map<Term, real>, tokens: seq<Token>)
    requires tokens == []
    ensures NewWeights(config, weights, weights, tokens)
  {
  }

  lemma NewWeightsStep(config: Config, before: map<Term, real>, after: map<Term, real>, tokens: seq<Token>, i: nat)
    requires i < |tokens| && NewWeights(config, before, after, tokens[..i])
    ensures var t := tokens[i];
            if config.MultiLevel() then
              NewWeights(config, before,
                         if t.term !in after || t.weight > after[t.term] then after[t.term := t.weight] else after,
                         tokens[..i + 1])
            else
              NewWeights(config, before, after[t.term := if config.weightL1 == 0.0 then 1.0 else config.weightL1],
                         tokens[..i + 1])
  {
    var a, b := tokens[..i], tokens[..i + 1];
    assert b == a + [tokens[i]];
    if config.MultiLevel() {
      LargestStep(before, after, a, tokens[i]);
    } else {
      FixedStep(before, after, a, tokens[i], if config.weightL1 == 0.0 then 1.0 else config.weightL1);
    }
  }

  lemma LargestStep(before: map<Term, real>, after: map<Term, real>, tokens: seq<Token>, t: Token)
    requires LargestKept(before, after, tokens)
    ensures LargestKept(before,
                        if t.term !in after || t.weight > after[t.term] then after[t.term := t.weight] else after,
                        tokens + [t])
  {
    var now := if t.term !in after || t.weight > after[t.term] then after[t.term := t.weight] else after;
    var all := tokens + [t];
    assert all[|tokens|] == t;
    forall u | u in now
      ensures || (u in before && now[u] == before[u])
              || exists i :: 0 <= i < |all| && all[i].term == u && now[u] == all[i].weight
    {
      if u in after && now[u] == after[u] && !(u in before && after[u] == before[u]) {
        var i :| 0 <= i < |tokens| && tokens[i].term == u && after[u] == tokens[i].weight;
        assert all[i] == tokens[i];
      }
    }
  }

  lemma FixedStep(before: map<Term, real>, after: map<Term, real>, tokens: seq<Token>, t: Token, weight: real)
    requires FixedWeights(before, after, tokens, weight)
    ensures FixedWeights(before, after[t.term := weight], tokens + [t], weight)
  {
    var all := tokens + [t];
    assert all[|tokens|] == t && forall i | 0 <= i < |tokens| :: all[i] == tokens[i];
  }

  // The largest weight among the tokens of each term.
  function LargestWeights(tokens: seq<Token>): map<Term, real> {
    if tokens == [] then map[]
    else
      var before, last := LargestWeights(tokens[..|tokens| - 1]), tokens[|tokens| - 1];
      if last.term !in before || last.weight > before[last.term] then before[last.term := last.weight] else before
  }

  lemma LargestWeightsStep(tokens: seq<Token>, i: nat)
    requires i < |tokens|
    ensures LargestWeights(tokens[..0]) == map[]
    ensures var before, t := LargestWeights(tokens[..i]), tokens[i];
            LargestWeights(tokens[..i + 1]) ==
            if t.term !in before || t.weight > before[t.term] then before[t.term := t.weight] else before
  {
    assert tokens[..i + 1][..i] == tokens[..i];
  }

  lemma {:induction false} LargestWeightsAre(tokens: seq<Token>)
    ensures var w := LargestWeights(tokens);
            && (forall i | 0 <= i < |tokens| :: tokens[i].term in w && tokens[i].weight <= w[tokens[i].term])
            && (forall t | t in w :: exists i | 0 <= i < |tokens| :: tokens[i].term == t && tokens[i].weight == w[t])
  {
    if tokens != [] {
      var n := |tokens| - 1;
      LargestWeightsAre(tokens[..n]);
      var before, w := LargestWeights(tokens[..n]), LargestWeights(tokens);
      assert forall i | 0 <= i < n :: tokens[..n][i] == tokens[i];
      forall t | t in w
        ensures exists i | 0 <= i < |tokens| :: tokens[i].term == t && tokens[i].weight == w[t]
      {
        if t in before && w[t] == before[t] {
          var i :| 0 <= i < n && tokens[..n][i].term == t && tokens[..n][i].weight == before[t];
          assert tokens[i].term == t;
        } else {
          assert tokens[n].term == t;
        }
      }
    }
  }

  lemma NoResults(sc: Scoring, limit: int, offset: nat)
    requires limit > 0
    ensures PageOfRanking([], {}, sc, limit, offset)
  {
    EmptyLists();
    assert Ranking([], {}, sc);
    assert PageOf([], limit, offset) == [];
  }

  lemma EmptyLists()
    ensures Lists([], {}) && Descending([])
  {
  }

  lemma HasPostings(s: Index, id: nat, t: Term)
    requires Inv(s) && id in s.documents && t in s.documents[id]
    ensures t in s.index
  {
    PostingMember(s, t, id);
  }

  lemma RemovedIsGood(s: Index, id: nat)
    requires Inv(s)
    ensures Inv(Removed(s, id))
    ensures id in s.documents ==> forall t | t in s.documents[id] :: t in s.index
    ensures id !in s.documents ==> Removed(s, id) == s
    ensures id !in Removed(s, id).documents
  {
    hide PostingsClean, PositionsAgree, DocumentsCounted, ClearedPostings, ClearedPositions;
    RemovedKeepsInv(s, id);
  }

  lemma NoTokens(positions: map<Term, seq<TermPosition>>, tokens: seq<Token>, id: nat, store: bool)
    ensures TermsOf(tokens[..0]) == {} && AddedPositions(positions, tokens[..0], id, store) == positions
  {
  }
}
