// Highlighting the words of a query in a document (Highlight of fts/fts.go).

module Highlight {
  import opened Collections
  import opened IndexState
  import II = InvertedIndex

  datatype Range = Range(start: nat, end: nat)

  // Case folding is a parameter.
  type Folding = string -> string

  // ---------------------------------------------------------------- occurrences

  predicate OccursAt(text: string, word: string, i: nat) {
    i + |word| <= |text| && text[i..i + |word|] == word
  }

  // strings.Index from a position on; the length plus one stands for -1.
  function IndexFrom(text: string, word: string, from: nat): (i: nat)
    requires from <= |text|
    ensures from <= i <= |text| + 1
    ensures i <= |text| ==> OccursAt(text, word, i)
    ensures forall j | from <= j < i && j <= |text| :: !OccursAt(text, word, j)
    decreases |text| - from
  {
    if OccursAt(text, word, from) then from
    else if from == |text| then from + 1
    else IndexFrom(text, word, from + 1)
  }

  // The occurrences the scan finds: from the left, each after the end of the one before. A range
  // takes the length of the word, although it is the folded word that was searched for.
  function Hits(text: string, word: string, length: nat, from: nat): (hits: seq<Range>)
    requires length > 0
    ensures forall h | h in hits :: from <= h.start <= |text| && h.end == h.start + length
    decreases |text| - from
  {
    if from > |text| then []
    else
      var i := IndexFrom(text, word, from);
      if i > |text| then [] else [Range(i, i + length)] + Hits(text, word, length, i + length)
  }

  // An empty word has no hits.
  function HitsOf(text: string, word: string, length: nat): seq<Range> {
    if length == 0 then [] else Hits(text, word, length, 0)
  }

  // Every hit is an occurrence, and every occurrence starts in a hit.
  lemma {:induction false} HitsAreOccurrences(text: string, word: string, length: nat, from: nat, h: Range)
    requires length > 0 && h in Hits(text, word, length, from)
    ensures OccursAt(text, word, h.start)
    decreases |text| - from
  {
    var i := IndexFrom(text, word, from);
    if h != Range(i, i + length) {
      HitsAreOccurrences(text, word, length, i + length, h);
    }
  }

  lemma {:induction false} OccurrencesMeetHits(text: string, word: string, length: nat, from: nat, k: nat)
    returns (h: Range)
    requires length > 0 && from <= k <= |text| && OccursAt(text, word, k)
    ensures h in Hits(text, word, length, from) && h.start <= k < h.end
    decreases |text| - from
  {
    var i := IndexFrom(text, word, from);
    if k < i + length {
      h := Range(i, i + length);
    } else {
      h := OccurrencesMeetHits(text, word, length, i + length, k);
    }
  }

  lemma HitsTail(text: string, word: string, length: nat, from: nat)
    requires length > 0 && Hits(text, word, length, from) != []
    ensures from <= |text| && IndexFrom(text, word, from) <= |text|
    ensures var k, hits := IndexFrom(text, word, from), Hits(text, word, length, from);
            hits[0] == Range(k, k + length) && hits[1..] == Hits(text, word, length, k + length)
  {
  }

  // The hits follow one another from the left and do not overlap. Together with the two facts
  // above this leaves one choice of hits.
  lemma {:induction false} HitsInOrder(text: string, word: string, length: nat, from: nat, i: nat, j: nat)
    requires length > 0 && i < j < |Hits(text, word, length, from)|
    ensures Hits(text, word, length, from)[i].end <= Hits(text, word, length, from)[j].start
    decreases |text| - from
  {
    hide Hits, IndexFrom, OccursAt;
    HitsTail(text, word, length, from);
    var k, hits := IndexFrom(text, word, from), Hits(text, word, length, from);
    assert hits[j] == hits[1..][j - 1];
    if i > 0 {
      assert hits[i] == hits[1..][i - 1];
      HitsInOrder(text, word, length, k + length, i - 1, j - 1);
    }
  }

  // The scan ends without slicing behind the end of the text: no hit ends there, and an empty
  // word, from which it would never get on, does not occur.
  ghost predicate ScanEnds(text: string, word: string, length: nat) {
    if length == 0 then IndexFrom(text, word, 0) > |text| else Within(Hits(text, word, length, 0), |text|)
  }

  // From every position the scan gets on, or ends, exactly when the length is not zero or the
  // word does not occur.
  lemma ScanAdvancesExactly(text: string, word: string, length: nat)
    ensures (forall from: nat | from <= |text| :: from < IndexFrom(text, word, from) + length)
            <==> length > 0 || forall k: nat :: !OccursAt(text, word, k)
  {
    if k: nat :| OccursAt(text, word, k) {
      assert IndexFrom(text, word, k) == k;
    } else {
      forall from: nat | from <= |text|
        ensures from < IndexFrom(text, word, from) + length
      {
        assert IndexFrom(text, word, from) == |text| + 1;
      }
    }
  }

  // The ranges found in the folded text fit the text itself, for every word that keeps its
  // length, exactly when folding does not make the text longer.
  lemma HitsFitExactly(content: string, lower: string)
    ensures (forall word: string | word != "" :: Within(Hits(lower, word, |word|, 0), |content|))
            <==> |lower| <= |content|
  {
    forall word: string | word != ""
      ensures Within(Hits(lower, word, |word|, 0), |lower|)
    {
      HitsWithin(lower, word);
    }
    if |lower| > |content| {
      assert OccursAt(lower, lower, 0);
      assert Hits(lower, lower, |lower|, 0)[0] == Range(0, |lower|);
    }
  }

  // The letter U+023A takes two bytes, its lower case U+2C65 three: in the text of U+023A and
  // "b" the word "b" is found at the fourth of three bytes.
  lemma FoldedTextGrows()
    ensures var content := [0xC8 as char, 0xBA as char, 'b'];
            var lower := [0xE2 as char, 0xB1 as char, 0xA5 as char, 'b'];
            Hits(lower, "b", 1, 0) == [Range(3, 4)] && !Within(Hits(lower, "b", 1, 0), |content|)
  {
    var lower := [0xE2 as char, 0xB1 as char, 0xA5 as char, 'b'];
    forall i: nat | i < 3
      ensures !OccursAt(lower, "b", i)
    {
      assert lower[i..i + 1][0] == lower[i];
    }
    assert lower[3..4] == "b";
    assert OccursAt(lower, "b", 3);
    assert IndexFrom(lower, "b", 0) == 3;
    HitsStep(lower, "b", 1, 0);
    HitsStep(lower, "b", 1, 4);
    hide Hits, IndexFrom, OccursAt;
    assert Hits(lower, "b", 1, 0) == [Range(3, 4)];
    assert Hits(lower, "b", 1, 0)[0].end == 4;
  }

  // ---------------------------------------------------------------- sorting and merging

  ghost predicate Covers(ranges: seq<Range>, k: nat) {
    exists i :: 0 <= i < |ranges| && ranges[i].start <= k < ranges[i].end
  }

  ghost predicate ByStart(ranges: seq<Range>) {
    forall i, j | 0 <= i < j < |ranges| :: ranges[i].start <= ranges[j].start
  }

  ghost predicate Within(ranges: seq<Range>, length: nat) {
    forall i | 0 <= i < |ranges| :: ranges[i].start < ranges[i].end <= length
  }

  // Sorted, disjoint, and not even touching.
  ghost predicate Apart(ranges: seq<Range>) {
    forall i, j | 0 <= i < j < |ranges| :: ranges[i].end < ranges[j].start
  }

  // sort.Slice by start.
  method SortByStart(ranges: seq<Range>) returns (sorted: seq<Range>)
    ensures ByStart(sorted) && multiset(sorted) == multiset(ranges)
  {
    var start := (r: Range) => r.start as real;
    sorted := SortByKey(ranges, start);
    assert forall i, j | 0 <= i < j < |sorted| :: start(sorted[i]) <= start(sorted[j]);
  }

  lemma SortedCovers(a: seq<Range>, b: seq<Range>, length: nat, k: nat)
    requires multiset(a) == multiset(b)
    ensures Covers(a, k) <==> Covers(b, k)
    ensures Within(b, length) ==> Within(a, length)
  {
    forall i | 0 <= i < |a|
      ensures a[i] in b
    {
      assert a[i] in multiset(a);
    }
    forall i | 0 <= i < |b|
      ensures b[i] in a
    {
      assert b[i] in multiset(b);
    }
  }

  // The merge loop.
  method Merge(ranges: seq<Range>, ghost length: nat) returns (merged: seq<Range>)
    requires ByStart(ranges) && Within(ranges, length)
    ensures Apart(merged) && Within(merged, length)
    ensures forall k: nat :: Covers(merged, k) <==> Covers(ranges, k)
  {
    hide Covers;
    merged := [];
    NothingCovers(ranges[..0]);
    var i := 0;
    while i < |ranges|
      invariant 0 <= i <= |ranges|
      invariant Apart(merged) && Within(merged, length)
      invariant if i == 0 then merged == [] else merged != [] && merged[|merged| - 1].start <= ranges[i - 1].start
      invariant forall k: nat :: Covers(merged, k) <==> Covers(ranges[..i], k)
    {
      var r := ranges[i];
      assert i > 0 ==> ranges[i - 1].start <= r.start;
      ghost var before := merged;
      merged := MergeOne(merged, r);
      forall k: nat
        ensures Covers(merged, k) <==> Covers(ranges[..i + 1], k)
      {
        CoversSnoc(ranges, i, k);
      }
      i := i + 1;
    }
    assert ranges[..i] == ranges;
  }

  // One turn of the merge loop.
  method MergeOne(before: seq<Range>, r: Range) returns (merged: seq<Range>)
    requires Apart(before) && r.start < r.end
    requires before != [] ==> before[|before| - 1].start <= r.start
    ensures forall length: nat | Within(before, length) && r.end <= length :: Within(merged, length)
    ensures Apart(merged) && merged != [] && merged[|merged| - 1].start <= r.start
    ensures forall k: nat :: Covers(merged, k) <==> Covers(before, k) || r.start <= k < r.end
  {
    hide Covers;
    if |before| == 0 {
      CoversSnocAll(before, r);
      assert before + [r] == [r];
      return [r];
    }
    var n := |before| - 1;
    var last := before[n];
    assert before == before[..n] + [last];
    CoversSnocAll(before[..n], last);
    if r.start <= last.end {
      merged := before;
      if r.end > last.end {
        merged := before[n := Range(last.start, r.end)];
        assert merged == before[..n] + [merged[n]];
        CoversSnocAll(before[..n], merged[n]);
      }
    } else {
      merged := before + [r];
      CoversSnocAll(before, r);
    }
  }

  lemma CoversSnocAll(before: seq<Range>, r: Range)
    ensures forall k: nat :: Covers(before + [r], k) <==> Covers(before, k) || r.start <= k < r.end
  {
    var all := before + [r];
    forall k: nat
      ensures Covers(all, k) <==> Covers(before, k) || r.start <= k < r.end
    {
      CoversSnoc(all, |before|, k);
      assert all[..|before|] == before && all[..|before| + 1] == all;
    }
  }

  lemma NothingCovers(ranges: seq<Range>)
    requires ranges == []
    ensures forall k: nat :: !Covers(ranges, k)
  {
  }

  lemma CoversSnoc(ranges: seq<Range>, i: nat, k: nat)
    requires i < |ranges|
    ensures Covers(ranges[..i + 1], k) <==> Covers(ranges[..i], k) || ranges[i].start <= k < ranges[i].end
  {
    var a, b := ranges[..i], ranges[..i + 1];
    assert b == a + [ranges[i]];
    if Covers(a, k) {
      var j :| 0 <= j < |a| && a[j].start <= k < a[j].end;
      assert b[j] == a[j];
    }
    if ranges[i].start <= k < ranges[i].end {
      assert b[i] == ranges[i];
    }
  }

  // ---------------------------------------------------------------- the marked text

  datatype Piece = Plain(text: string) | Marked(text: string)

  function Cut(content: string, ranges: seq<Range>, from: nat): seq<Piece>
    requires Fits(ranges, from, |content|)
  {
    if ranges == [] then [Plain(content[from..])]
    else
      var r := ranges[0];
      [Plain(content[from..r.start]), Marked(content[r.start..r.end])] + Cut(content, ranges[1..], r.end)
  }

  // Ranges in order from a position to the end.
  predicate Fits(ranges: seq<Range>, from: nat, length: nat) {
    if ranges == [] then from <= length
    else from <= ranges[0].start < ranges[0].end <= length && Fits(ranges[1..], ranges[0].end, length)
  }

  lemma {:induction false} ApartFits(ranges: seq<Range>, from: nat, length: nat)
    requires Apart(ranges) && Within(ranges, length) && from <= length
    requires ranges != [] ==> from <= ranges[0].start
    ensures Fits(ranges, from, length)
  {
    if ranges != [] {
      assert ranges[1..] != [] ==> ranges[1..][0] == ranges[1];
      ApartFits(ranges[1..], ranges[0].end, length);
    }
  }

  function Render(pieces: seq<Piece>, prefix: string, suffix: string): string {
    if pieces == [] then ""
    else
      match pieces[0]
      case Plain(t) => t + Render(pieces[1..], prefix, suffix)
      case Marked(t) => prefix + t + suffix + Render(pieces[1..], prefix, suffix)
  }

  // Plain pieces as they are, marked ones between the prefix and the suffix, in order.
  lemma RenderMeans(text: string, pieces: seq<Piece>, prefix: string, suffix: string)
    ensures Render([], prefix, suffix) == ""
    ensures Render([Plain(text)] + pieces, prefix, suffix) == text + Render(pieces, prefix, suffix)
    ensures Render([Marked(text)] + pieces, prefix, suffix) == prefix + text + suffix + Render(pieces, prefix, suffix)
  {
    assert ([Plain(text)] + pieces)[1..] == pieces && ([Marked(text)] + pieces)[1..] == pieces;
  }

  // For each character of the text, whether it stands in a marked piece.
  function Flags(pieces: seq<Piece>): seq<bool> {
    if pieces == [] then [] else seq(|pieces[0].text|, _ => pieces[0].Marked?) + Flags(pieces[1..])
  }

  // Two pieces at the front.
  lemma CutStep(content: string, ranges: seq<Range>, from: nat, prefix: string, suffix: string)
    requires ranges != [] && Fits(ranges, from, |content|)
    ensures var r := ranges[0];
            var rest := Cut(content, ranges[1..], r.end);
            && r.end <= |content|
            && Render(Cut(content, ranges, from), prefix, suffix) ==
               content[from..r.start] + prefix + content[r.start..r.end] + suffix + Render(rest, prefix, suffix)
            && Flags(Cut(content, ranges, from)) == seq(r.start - from, _ => false) + seq(r.end - r.start, _ => true) +
                 Flags(rest)
  {
    hide Fits;
    FitsEnd(ranges, from, |content|);
    var r := ranges[0];
    var a, b := Plain(content[from..r.start]), Marked(content[r.start..r.end]);
    var rest := Cut(content, ranges[1..], r.end);
    var pieces := [a, b] + rest;
    assert pieces[1..] == [b] + rest && ([b] + rest)[1..] == rest;
    assert Render(pieces, prefix, suffix) == a.text + Render([b] + rest, prefix, suffix);
    assert Flags(pieces) == seq(|a.text|, _ => false) + Flags([b] + rest);
  }

  lemma {:induction false} FitsEnd(ranges: seq<Range>, from: nat, length: nat)
    requires Fits(ranges, from, length)
    ensures from <= length
    ensures ranges != [] ==>
            from <= ranges[0].start < ranges[0].end <= length && Fits(ranges[1..], ranges[0].end, length)
  {
    if ranges != [] {
      FitsEnd(ranges[1..], ranges[0].end, length);
    }
  }

  // Erasing prefix and suffix gives the text back.
  lemma {:induction false} ErasedIsContent(content: string, ranges: seq<Range>, from: nat)
    requires Fits(ranges, from, |content|)
    ensures from <= |content| && Render(Cut(content, ranges, from), "", "") == content[from..]
  {
    FitsEnd(ranges, from, |content|);
    if ranges == [] {
      assert [Plain(content[from..])][1..] == [];
    } else {
      var r := ranges[0];
      CutStep(content, ranges, from, "", "");
      ErasedIsContent(content, ranges[1..], r.end);
      Rejoin(content, from, r.start, r.end);
    }
  }

  lemma Rejoin(content: string, a: nat, b: nat, c: nat)
    requires a <= b <= c <= |content|
    ensures content[a..b] + "" + content[b..c] + "" + content[c..] == content[a..]
  {
  }

  lemma RangeCovers(ranges: seq<Range>, k: nat)
    requires ranges != []
    ensures Covers(ranges, k) <==> ranges[0].start <= k < ranges[0].end || Covers(ranges[1..], k)
  {
    var tail := ranges[1..];
    if Covers(ranges, k) {
      var i :| 0 <= i < |ranges| && ranges[i].start <= k < ranges[i].end;
      if i > 0 {
        assert tail[i - 1] == ranges[i];
      }
    }
    if Covers(tail, k) {
      var i :| 0 <= i < |tail| && tail[i].start <= k < tail[i].end;
      assert ranges[i + 1] == tail[i];
    }
  }

  lemma {:induction false} NotBefore(ranges: seq<Range>, from: nat, length: nat, k: nat)
    requires Fits(ranges, from, length) && k < from
    ensures !Covers(ranges, k)
  {
    if ranges != [] {
      FitsEnd(ranges, from, length);
      NotBefore(ranges[1..], ranges[0].end, length, k);
      RangeCovers(ranges, k);
    }
  }

  // A character is marked exactly when a range covers its position.
  lemma {:induction false} FlagsAreCover(content: string, ranges: seq<Range>, from: nat, k: nat)
    requires Fits(ranges, from, |content|) && from <= k < |content|
    ensures var flags := Flags(Cut(content, ranges, from));
            |flags| == |content| - from && (flags[k - from] <==> Covers(ranges, k))
    decreases |ranges|
  {
    if ranges == [] {
      assert [Plain(content[from..])][1..] == [];
    } else {
      var r := ranges[0];
      CutStep(content, ranges, from, "", "");
      RangeCovers(ranges, k);
      FitsEnd(ranges, from, |content|);
      if k < r.end {
        NotBefore(ranges[1..], r.end, |content|, k);
        FlagsLength(content, ranges[1..], r.end);
      } else {
        FlagsAreCover(content, ranges[1..], r.end, k);
      }
    }
  }

  lemma {:induction false} FlagsLength(content: string, ranges: seq<Range>, from: nat)
    requires Fits(ranges, from, |content|)
    ensures from <= |content| && |Flags(Cut(content, ranges, from))| == |content| - from
  {
    FitsEnd(ranges, from, |content|);
    if ranges == [] {
      assert [Plain(content[from..])][1..] == [];
    } else {
      CutStep(content, ranges, from, "", "");
      FlagsLength(content, ranges[1..], ranges[0].end);
    }
  }

  // The loop that writes the text.
  method Build(content: string, merged: seq<Range>, prefix: string, suffix: string) returns (result: string)
    requires Fits(merged, 0, |content|)
    ensures result == Render(Cut(content, merged, 0), prefix, suffix)
  {
    hide Render, Cut;
    result := "";
    var lastEnd: nat := 0;
    var i := 0;
    assert merged[0..] == merged;
    assert "" + Render(Cut(content, merged, 0), prefix, suffix) == Render(Cut(content, merged, 0), prefix, suffix);
    while i < |merged|
      invariant 0 <= i <= |merged| && Fits(merged[i..], lastEnd, |content|)
      invariant result + Render(Cut(content, merged[i..], lastEnd), prefix, suffix) ==
                Render(Cut(content, merged, 0), prefix, suffix)
    {
      var r := merged[i];
      FitsEnd(merged[i..], lastEnd, |content|);
      CutStep(content, merged[i..], lastEnd, prefix, suffix);
      assert merged[i..][1..] == merged[i + 1..];
      FivePieces(result, content[lastEnd..r.start], prefix, content[r.start..r.end], suffix,
                 Render(Cut(content, merged[i + 1..], r.end), prefix, suffix));
      result := result + content[lastEnd..r.start] + prefix + content[r.start..r.end] + suffix;
      lastEnd := r.end;
      i := i + 1;
    }
    FitsEnd(merged[i..], lastEnd, |content|);
    LastPiece(content, merged[i..], lastEnd, prefix, suffix);
    result := result + content[lastEnd..];
  }

  lemma FivePieces(a: string, b: string, c: string, d: string, e: string, f: string)
    ensures a + (b + c + d + e + f) == a + b + c + d + e + f
  {
  }

  lemma LastPiece(content: string, ranges: seq<Range>, from: nat, prefix: string, suffix: string)
    requires ranges == [] && from <= |content|
    ensures Render(Cut(content, ranges, from), prefix, suffix) == content[from..]
  {
    assert [Plain(content[from..])][1..] == [];
  }

  // ---------------------------------------------------------------- the whole operation

  // The word has a stored position in the row.
  ghost predicate PositionIn(positions: map<Term, seq<TermPosition>>, word: Term, rowID: nat) {
    exists p :: p in Get(positions, word) && p.rowID == rowID
  }

  // Position k of the text lies in a hit of a query word that the row has a position for.
  ghost predicate Highlighted(positions: map<Term, seq<TermPosition>>, words: seq<Term>, rowID: nat, lower: string,
          fold: Folding, k: nat)
  {
    exists w :: w in words && PositionIn(positions, w, rowID) && Covers(HitsOf(lower, fold(w), |w|), k)
  }

  // What the code needs to end normally: the scan for each word that the row has a position for
  // ends, and its ranges fit the text. Tokenizers give folded words, which keep their length, but
  // a custom dictionary may hold an empty one (ScanAdvancesExactly), and a text may grow when it
  // is folded (HitsFitExactly).
  ghost predicate Foldable(positions: map<Term, seq<TermPosition>>, words: seq<Term>, rowID: nat, content: string,
          fold: Folding) {
    forall w | w in words && PositionIn(positions, w, rowID) ::
      ScanEnds(fold(content), fold(w), |w|) && Within(HitsOf(fold(content), fold(w), |w|), |content|)
  }

  // It is enough that the words are not empty and keep their length and the text does not grow.
  lemma KeepingLengths(positions: map<Term, seq<TermPosition>>, words: seq<Term>, rowID: nat, content: string,
          fold: Folding)
    requires forall w | w in words && PositionIn(positions, w, rowID) :: w != "" && |fold(w)| == |w|
    requires |fold(content)| <= |content|
    ensures Foldable(positions, words, rowID, content, fold)
  {
    forall w | w in words && PositionIn(positions, w, rowID)
      ensures ScanEnds(fold(content), fold(w), |w|) && Within(HitsOf(fold(content), fold(w), |w|), |content|)
    {
      HitsWithin(fold(content), fold(w));
    }
  }

  lemma HitsStep(text: string, word: string, length: nat, from: nat)
    requires length > 0 && from <= |text|
    ensures var i := IndexFrom(text, word, from);
            Hits(text, word, length, from) ==
            if i > |text| then [] else [Range(i, i + length)] + Hits(text, word, length, i + length)
    ensures from == |text| + 1 ==> Hits(text, word, length, from) == []
  {
  }

  lemma Joined<T>(a: seq<T>, x: T, b: seq<T>)
    ensures a + ([x] + b) == (a + [x]) + b
  {
  }

  lemma HitWithin(all: seq<Range>, before: seq<Range>, hit: Range, later: seq<Range>, length: nat)
    requires Within(all, length) && all == before + ([hit] + later)
    ensures hit.end <= length
  {
    assert all[|before|] == hit;
  }

  // The occurrence loop for one stored position.
  method Scan(lowerContent: string, lowerTerm: string, length: nat) returns (hits: seq<Range>)
    requires ScanEnds(lowerContent, lowerTerm, length)
    ensures hits == HitsOf(lowerContent, lowerTerm, length)
  {
    hide Hits, OccursAt, Within;
    hits := [];
    var searchStart := 0;
    ghost var all := HitsOf(lowerContent, lowerTerm, length);
    assert [] + all == all;
    while true
      invariant 0 <= searchStart <= |lowerContent|
      invariant if length == 0 then hits == [] && searchStart == 0
                else hits + Hits(lowerContent, lowerTerm, length, searchStart) == all
      decreases |lowerContent| - searchStart
    {
      var idx := IndexFrom(lowerContent, lowerTerm, searchStart);
      if length > 0 {
        HitsStep(lowerContent, lowerTerm, length, searchStart);
      }
      if idx > |lowerContent| {
        assert hits + [] == hits;
        break;
      }
      var hit := Range(idx, idx + length);
      if length > 0 {
        var later := Hits(lowerContent, lowerTerm, length, idx + length);
        Joined(hits, hit, later);
        HitWithin(all, hits, hit, later, |lowerContent|);
      }
      hits := hits + [hit];
      searchStart := idx + length;
    }
  }

  lemma CoversConcat(a: seq<Range>, b: seq<Range>, length: nat, k: nat)
    ensures Covers(a + b, k) <==> Covers(a, k) || Covers(b, k)
    ensures Within(a, length) && Within(b, length) ==> Within(a + b, length)
  {
    var s := a + b;
    assert forall i | 0 <= i < |a| :: s[i] == a[i];
    assert forall i | 0 <= i < |b| :: s[|a| + i] == b[i];
    if Covers(s, k) {
      var i :| 0 <= i < |s| && s[i].start <= k < s[i].end;
      assert i >= |a| ==> b[i - |a|] == s[i];
    }
    if Covers(b, k) {
      var i :| 0 <= i < |b| && b[i].start <= k < b[i].end;
      assert s[|a| + i] == b[i];
    }
  }

  lemma HitsWithin(text: string, word: string)
    requires word != ""
    ensures Within(Hits(text, word, |word|, 0), |text|)
  {
    var hits := Hits(text, word, |word|, 0);
    forall i | 0 <= i < |hits|
      ensures hits[i].start < hits[i].end <= |text|
    {
      assert hits[i] in hits;
      HitsAreOccurrences(text, word, |word|, 0, hits[i]);
    }
  }

  // The loop over the stored positions of one word: one scan for each position in the row.
  method CollectWord(positions: seq<TermPosition>, rowID: nat, lowerContent: string, lowerTerm: string,
          length: nat) returns (ranges: seq<Range>)
    requires (exists p :: p in positions && p.rowID == rowID) ==> ScanEnds(lowerContent, lowerTerm, length)
    ensures (forall p | p in positions :: p.rowID != rowID) ==> ranges == []
    ensures forall limit: nat | Within(HitsOf(lowerContent, lowerTerm, length), limit) :: Within(ranges, limit)
    ensures forall k: nat :: Covers(ranges, k) <==>
              (exists p :: p in positions && p.rowID == rowID) && Covers(HitsOf(lowerContent, lowerTerm, length), k)
  {
    hide Covers, HitsOf, Within, ScanEnds;
    ranges := [];
    NothingCovers(ranges);
    ghost var all := HitsOf(lowerContent, lowerTerm, length);
    forall limit: nat
      ensures Within(ranges, limit)
    {
      NothingWithin(limit);
    }
    ghost var found := false;
    var i := 0;
    while i < |positions|
      invariant 0 <= i <= |positions|
      invariant found <==> exists j :: 0 <= j < i && positions[j].rowID == rowID
      invariant found || ranges == []
      invariant forall limit: nat | Within(all, limit) :: Within(ranges, limit)
      invariant forall k: nat :: Covers(ranges, k) <==> found && Covers(all, k)
    {
      if positions[i].rowID == rowID {
        assert positions[i] in positions;
        var hits := Scan(lowerContent, lowerTerm, length);
        forall k: nat
          ensures Covers(ranges + hits, k) <==> Covers(ranges, k) || Covers(hits, k)
        {
          CoversConcat(ranges, hits, 0, k);
        }
        forall limit: nat | Within(all, limit)
          ensures Within(ranges + hits, limit)
        {
          CoversConcat(ranges, hits, limit, 0);
        }
        ranges := ranges + hits;
        found := true;
      }
      i := i + 1;
    }
    assert found <==> exists p :: p in positions && p.rowID == rowID;
  }

  // The loop over the query words.
  method Collect(termPositions: map<Term, seq<TermPosition>>, rowID: nat, words: seq<Term>, content: string,
          fold: Folding)
    returns (ranges: seq<Range>)
    requires Foldable(termPositions, words, rowID, content, fold)
    ensures Within(ranges, |content|)
    ensures forall k: nat :: Covers(ranges, k) <==> Highlighted(termPositions, words, rowID, fold(content), fold, k)
  {
    hide Covers, HitsOf, Within, ScanEnds;
    ranges := [];
    NothingCovers(ranges);
    NothingWithin(|content|);
    var i := 0;
    while i < |words|
      invariant 0 <= i <= |words| && Within(ranges, |content|)
      invariant forall k: nat ::
                  Covers(ranges, k) <==> Highlighted(termPositions, words[..i], rowID, fold(content), fold, k)
    {
      var term := words[i];
      assert term in words;
      var more := [];
      NothingCovers(more);
      NothingWithin(|content|);
      if term in termPositions {
        assert Get(termPositions, term) == termPositions[term];
        more := CollectWord(termPositions[term], rowID, fold(content), fold(term), |term|);
        PositionsOf(termPositions, term, rowID);
      }
      forall k: nat
        ensures Covers(ranges + more, k) <==> Highlighted(termPositions, words[..i + 1], rowID, fold(content), fold, k)
      {
        CoversConcat(ranges, more, |content|, k);
        HighlightedSnoc(termPositions, words, i, rowID, fold(content), fold, k);
      }
      CoversConcat(ranges, more, |content|, 0);
      ranges := ranges + more;
      i := i + 1;
    }
    assert words[..i] == words;
  }

  lemma PositionsOf(positions: map<Term, seq<TermPosition>>, word: Term, rowID: nat)
    requires word in positions
    ensures PositionIn(positions, word, rowID) <==> exists p :: p in positions[word] && p.rowID == rowID
    ensures !PositionIn(positions, word, rowID) ==> forall p | p in positions[word] :: p.rowID != rowID
  {
  }

  lemma NothingWithin(length: nat)
    ensures Within([], length)
  {
  }

  lemma HighlightedSnoc(positions: map<Term, seq<TermPosition>>, words: seq<Term>, i: nat, rowID: nat, lower: string,
          fold: Folding, k: nat)
    requires i < |words|
    ensures Highlighted(positions, words[..i + 1], rowID, lower, fold, k) <==>
            || Highlighted(positions, words[..i], rowID, lower, fold, k)
            || (PositionIn(positions, words[i], rowID) && Covers(HitsOf(lower, fold(words[i]), |words[i]|), k))
  {
    hide Covers, HitsOf, PositionIn;
    var before, after := words[..i], words[..i + 1];
    assert after == before + [words[i]];
    assert forall w :: w in after <==> w in before || w == words[i];
    if Highlighted(positions, before, rowID, lower, fold, k) {
      var w :| w in before && PositionIn(positions, w, rowID) && Covers(HitsOf(lower, fold(w), |w|), k);
      assert w in after;
    }
    assert words[i] in after;
  }

  // The pieces make up the text and are marked where `flags` says so.
  ghost predicate MarksExactly(pieces: seq<Piece>, content: string, flags: seq<bool>) {
    Render(pieces, "", "") == content && Flags(pieces) == flags
  }

  // For each position of the content, whether it is to be highlighted.
  ghost function Wanted(positions: map<Term, seq<TermPosition>>, words: seq<Term>, rowID: nat, content: string,
          fold: Folding): seq<bool>
  {
    seq(|content|, k requires 0 <= k < |content| => Highlighted(positions, words, rowID, fold(content), fold, k))
  }

  lemma MergedMarks(content: string, merged: seq<Range>, wanted: seq<bool>)
    requires Apart(merged) && Within(merged, |content|) && |wanted| == |content|
    requires forall k: nat | k < |content| :: wanted[k] <==> Covers(merged, k)
    ensures Fits(merged, 0, |content|)
    ensures MarksExactly(Cut(content, merged, 0), content, wanted)
  {
    hide Covers, Cut, Flags;
    ApartFits(merged, 0, |content|);
    ErasedIsContent(content, merged, 0);
    assert content[0..] == content;
    FlagsLength(content, merged, 0);
    forall k | 0 <= k < |content|
      ensures Flags(Cut(content, merged, 0))[k] == wanted[k]
    {
      FlagsAreCover(content, merged, 0, k);
    }
  }

  // The output is the content with prefix and suffix around some pieces of it; a character is
  // in such a piece exactly when it lies in a hit of a query word.
  method Highlight(index: II.InvertedIndex, rowID: nat, query: string, prefix: string, suffix: string, fold: Folding)
    returns (result: string, ghost pieces: seq<Piece>)
    requires rowID in index.contents ==>
               Foldable(index.termPositions, index.QueryTerms(query), rowID, index.contents[rowID], fold)
    ensures rowID !in index.contents ==> result == ""
    ensures rowID in index.contents ==>
              && result == Render(pieces, prefix, suffix)
              && MarksExactly(pieces, index.contents[rowID],
                              Wanted(index.termPositions, index.QueryTerms(query), rowID, index.contents[rowID], fold))
  {
    hide Covers, Highlighted, MarksExactly, Within, ByStart, Cut, Render, II.InvertedIndex.QueryTerms;
    var words := index.QueryTerms(query);
    pieces := [];
    if rowID !in index.contents {
      return "", pieces;
    }
    var content := index.contents[rowID];
    var ranges := Collect(index.termPositions, rowID, words, content, fold);
    ghost var wanted := Wanted(index.termPositions, words, rowID, content, fold);
    if |ranges| == 0 {
      NothingCovers(ranges);
      NothingApart();
      NothingWithin(|content|);
      MergedMarks(content, [], wanted);
      LastPiece(content, [], 0, prefix, suffix);
      assert content[0..] == content;
      return content, Cut(content, [], 0);
    }
    var sorted := SortByStart(ranges);
    forall k: nat
      ensures Covers(sorted, k) <==> Covers(ranges, k)
    {
      SortedCovers(sorted, ranges, |content|, k);
    }
    SortedCovers(sorted, ranges, |content|, 0);
    var merged := Merge(sorted, |content|);
    MergedMarks(content, merged, wanted);
    result := Build(content, merged, prefix, suffix);
    pieces := Cut(content, merged, 0);
  }

  lemma NothingApart()
    ensures Apart([])
  {
  }
}
