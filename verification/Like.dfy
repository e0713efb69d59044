// LIKE: the backtracking matcher of executor/executor.go against what a pattern means.

module Like {

  // ---------------------------------------------------------------- what a pattern means

  function Joined(pieces: seq<string>): string {
    if pieces == [] then "" else pieces[0] + Joined(pieces[1..])
  }

  // What one pattern character may stand for.
  predicate StandsFor(c: char, piece: string) {
    if c == '%' then true
    else if c == '_' then |piece| == 1
    else piece == [c]
  }

  ghost predicate Fitting(str: string, pattern: string, pieces: seq<string>) {
    && |pieces| == |pattern|
    && Joined(pieces) == str
    && forall i | 0 <= i < |pattern| :: StandsFor(pattern[i], pieces[i])
  }

  // The string can be cut into one piece for each pattern character.
  ghost predicate Matches(str: string, pattern: string) {
    exists pieces: seq<string> :: Fitting(str, pattern, pieces)
  }

  // Where the rest of the string begins with '%', a '%' of the pattern takes just that character.
  ghost predicate FittingEagerly(str: string, pattern: string, pieces: seq<string>) {
    && Fitting(str, pattern, pieces)
    && forall i | 0 <= i < |pattern| && pattern[i] == '%' && TakesPercent(pieces, i) :: pieces[i] == "%"
  }

  ghost predicate TakesPercent(pieces: seq<string>, i: nat) {
    i <= |pieces| && Joined(pieces[i..]) != "" && Joined(pieces[i..])[0] == '%'
  }

  // ---------------------------------------------------------------- what the matcher computes

  predicate OnlyPercents(pattern: string) {
    forall c | c in pattern :: c == '%'
  }

  // The matcher on the rest of the string and of the pattern. A character of the string that
  // equals the pattern's is consumed first, even when that character is the wildcard.
  predicate Accepts(str: string, pattern: string)
    decreases |pattern|, |str|
  {
    if str == "" then OnlyPercents(pattern)
    else if pattern == "" then false
    else if pattern[0] == '_' || pattern[0] == str[0] then Accepts(str[1..], pattern[1..])
    else if pattern[0] == '%' then AcceptsFrom(str, pattern[1..], 0)
    else false
  }

  // Some suffix from position i on is accepted.
  predicate AcceptsFrom(str: string, pattern: string, i: nat)
    requires i <= |str|
    decreases |pattern|, |str| + 1, |str| - i
  {
    Accepts(str[i..], pattern) || (i < |str| && AcceptsFrom(str, pattern, i + 1))
  }

  lemma {:induction false} FromWitness(str: string, pattern: string, i: nat) returns (k: nat)
    requires i <= |str| && AcceptsFrom(str, pattern, i)
    ensures i <= k <= |str| && Accepts(str[k..], pattern)
    decreases |str| - i
  {
    if Accepts(str[i..], pattern) {
      k := i;
    } else {
      k := FromWitness(str, pattern, i + 1);
    }
  }

  lemma {:induction false} FromHolds(str: string, pattern: string, i: nat, k: nat)
    requires i <= k <= |str| && Accepts(str[k..], pattern)
    ensures AcceptsFrom(str, pattern, i)
    decreases k - i
  {
    if i < k {
      FromHolds(str, pattern, i + 1, k);
    }
  }

  method MatchLikeRunes(str: string, pattern: string, si0: nat, pi0: nat) returns (r: bool)
    requires si0 <= |str| && pi0 <= |pattern|
    ensures r == Accepts(str[si0..], pattern[pi0..])
    decreases |pattern| - pi0
  {
    var si, pi := si0, pi0;
    while si < |str|
      invariant si0 <= si <= |str| && pi0 <= pi <= |pattern|
      invariant Accepts(str[si..], pattern[pi..]) == Accepts(str[si0..], pattern[pi0..])
    {
      Suffix(str, si);
      if pi < |pattern| {
        Suffix(pattern, pi);
      }
      if pi < |pattern| && (pattern[pi] == '_' || pattern[pi] == str[si]) {
        si := si + 1;
        pi := pi + 1;
      } else if pi < |pattern| && pattern[pi] == '%' {
        r := TryEach(str, pattern, si, pi);
        return;
      } else {
        return false;
      }
    }
    ghost var rest := pattern[pi..];
    while pi < |pattern| && pattern[pi] == '%'
      invariant pi <= |pattern|
      invariant OnlyPercents(rest) <==> OnlyPercents(pattern[pi..])
    {
      PercentsStep(pattern, pi);
      pi := pi + 1;
    }
    if pi < |pattern| {
      Suffix(pattern, pi);
      assert pattern[pi] in pattern[pi..];
    }
    r := pi == |pattern|;
  }

  // The wildcard case: try every number of characters.
  method TryEach(str: string, pattern: string, si: nat, pi: nat) returns (r: bool)
    requires si < |str| && pi < |pattern|
    ensures r == AcceptsFrom(str[si..], pattern[pi + 1..], 0)
    decreases |pattern| - pi, 0
  {
    ghost var rest, tail := str[si..], pattern[pi + 1..];
    var i := si;
    while i <= |str|
      invariant si <= i <= |str| + 1
      invariant if i <= |str| then AcceptsFrom(rest, tail, 0) == AcceptsFrom(rest, tail, i - si)
                else !AcceptsFrom(rest, tail, 0)
    {
      assert rest[i - si..] == str[i..];
      var hit := MatchLikeRunes(str, pattern, i, pi + 1);
      if hit {
        return true;
      }
      i := i + 1;
    }
    return false;
  }

  method MatchLike(str: string, pattern: string) returns (r: bool)
    ensures r == Accepts(str, pattern)
    ensures r ==> Matches(str, pattern)
    ensures '%' !in str ==> r == Matches(str, pattern)
    ensures r <==> exists pieces: seq<string> :: FittingEagerly(str, pattern, pieces)
  {
    AcceptsEagerly(str, pattern);
    assert str[0..] == str && pattern[0..] == pattern;
    r := MatchLikeRunes(str, pattern, 0, 0);
    if r {
      AcceptedMatches(str, pattern);
    }
    if '%' !in str {
      AcceptsExactly(str, pattern);
    }
  }

  lemma PercentsStep(pattern: string, pi: nat)
    requires pi < |pattern| && pattern[pi] == '%'
    ensures OnlyPercents(pattern[pi..]) <==> OnlyPercents(pattern[pi + 1..])
  {
    var a, b := pattern[pi..], pattern[pi + 1..];
    assert a == ['%'] + b;
    assert forall c :: c in a <==> c == '%' || c in b;
  }

  lemma Suffix(s: string, k: nat)
    requires k < |s|
    ensures s[k..] != "" && s[k..][0] == s[k] && s[k..][1..] == s[k + 1..]
  {
  }

  // ---------------------------------------------------------------- soundness

  lemma FitCons(str: string, pattern: string, piece: string, rest: string, pieces: seq<string>)
    requires pattern != "" && str == piece + rest && StandsFor(pattern[0], piece)
    requires Fitting(rest, pattern[1..], pieces)
    ensures Fitting(str, pattern, [piece] + pieces) && Matches(str, pattern)
  {
    assert ([piece] + pieces)[1..] == pieces;
    forall i | 0 <= i < |pattern|
      ensures StandsFor(pattern[i], ([piece] + pieces)[i])
    {
      if i > 0 {
        assert pattern[i] == pattern[1..][i - 1];
      }
    }
  }

  lemma MatchCons(str: string, pattern: string, piece: string, rest: string)
    requires pattern != "" && str == piece + rest && StandsFor(pattern[0], piece) && Matches(rest, pattern[1..])
    ensures Matches(str, pattern)
  {
    var pieces :| Fitting(rest, pattern[1..], pieces);
    FitCons(str, pattern, piece, rest, pieces);
  }

  lemma MatchSplits(str: string, pattern: string) returns (k: nat)
    requires pattern != "" && Matches(str, pattern)
    ensures k <= |str| && StandsFor(pattern[0], str[..k]) && Matches(str[k..], pattern[1..])
  {
    var pieces :| Fitting(str, pattern, pieces);
    k := |pieces[0]|;
    assert str[..k] == pieces[0] && str[k..] == Joined(pieces[1..]);
    assert forall i | 0 <= i < |pattern| - 1 :: pattern[1..][i] == pattern[i + 1] && pieces[1..][i] == pieces[i + 1];
    assert Fitting(str[k..], pattern[1..], pieces[1..]);
  }

  lemma EmptyMatch()
    ensures Matches("", "")
  {
    assert Joined([]) == "";
    assert Fitting("", "", []);
  }

  lemma {:induction false} PercentsMatchEmpty(pattern: string)
    requires OnlyPercents(pattern)
    ensures Matches("", pattern)
  {
    if pattern == "" {
      EmptyMatch();
    } else {
      assert pattern[0] in pattern;
      assert forall c | c in pattern[1..] :: c in pattern;
      PercentsMatchEmpty(pattern[1..]);
      MatchCons("", pattern, "", "");
    }
  }

  // The matcher never accepts wrongly, on any string and pattern.
  lemma {:induction false} AcceptedMatches(str: string, pattern: string)
    requires Accepts(str, pattern)
    ensures Matches(str, pattern)
    decreases |pattern|
  {
    if str == "" {
      PercentsMatchEmpty(pattern);
    } else if pattern[0] == '_' || pattern[0] == str[0] {
      AcceptedMatches(str[1..], pattern[1..]);
      MatchCons(str, pattern, [str[0]], str[1..]);
    } else {
      var i := FromWitness(str, pattern[1..], 0);
      AcceptedMatches(str[i..], pattern[1..]);
      assert str == str[..i] + str[i..];
      MatchCons(str, pattern, str[..i], str[i..]);
    }
  }

  // ---------------------------------------------------------------- completeness

  lemma {:induction false} EmptyStringPattern(pattern: string)
    requires Matches("", pattern)
    ensures OnlyPercents(pattern)
  {
    if pattern != "" {
      var k := MatchSplits("", pattern);
      EmptyStringPattern(pattern[1..]);
      assert pattern == [pattern[0]] + pattern[1..];
    }
  }

  lemma EmptyPatternMatch(str: string)
    requires Matches(str, "")
    ensures str == ""
  {
    var pieces :| Fitting(str, "", pieces);
  }

  // On a string without '%' the matcher accepts every match.
  lemma {:induction false} MatchIsAccepted(str: string, pattern: string)
    requires '%' !in str && Matches(str, pattern)
    ensures Accepts(str, pattern)
    decreases |pattern|
  {
    if pattern == "" {
      EmptyPatternMatch(str);
    } else if str == "" {
      EmptyStringPattern(pattern);
    } else {
      var k := MatchSplits(str, pattern);
      assert forall c | c in str[k..] :: c in str;
      MatchIsAccepted(str[k..], pattern[1..]);
      if pattern[0] == '%' {
        assert str[0] in str;
        FromHolds(str, pattern[1..], 0, k);
      } else {
        assert k == 1;
      }
    }
  }

  lemma AcceptsExactly(str: string, pattern: string)
    requires '%' !in str
    ensures Accepts(str, pattern) <==> Matches(str, pattern)
  {
    if Accepts(str, pattern) {
      AcceptedMatches(str, pattern);
    }
    if Matches(str, pattern) {
      MatchIsAccepted(str, pattern);
    }
  }

  // ---------------------------------------------------------------- exactly what is accepted

  ghost predicate MatchesEagerly(str: string, pattern: string) {
    exists pieces: seq<string> :: FittingEagerly(str, pattern, pieces)
  }

  lemma EagerCons(str: string, pattern: string, piece: string, rest: string)
    requires pattern != "" && str == piece + rest && StandsFor(pattern[0], piece)
    requires pattern[0] == '%' && str != "" && str[0] == '%' ==> piece == "%"
    requires MatchesEagerly(rest, pattern[1..])
    ensures MatchesEagerly(str, pattern)
  {
    var pieces: seq<string> :| FittingEagerly(rest, pattern[1..], pieces);
    FitCons(str, pattern, piece, rest, pieces);
    var all := [piece] + pieces;
    assert all[0..] == all;
    forall i | 0 <= i < |pattern| && pattern[i] == '%' && TakesPercent(all, i)
      ensures all[i] == "%"
    {
      if i > 0 {
        assert all[i..] == pieces[i - 1..];
        assert pattern[1..][i - 1] == '%' && TakesPercent(pieces, i - 1);
      }
    }
    assert FittingEagerly(str, pattern, all);
  }

  lemma EagerSplits(str: string, pattern: string) returns (k: nat)
    requires pattern != "" && MatchesEagerly(str, pattern)
    ensures k <= |str| && StandsFor(pattern[0], str[..k]) && MatchesEagerly(str[k..], pattern[1..])
    ensures pattern[0] == '%' && str != "" && str[0] == '%' ==> str[..k] == "%"
  {
    var pieces: seq<string> :| FittingEagerly(str, pattern, pieces);
    k := |pieces[0]|;
    var rest := pieces[1..];
    assert pieces[0..] == pieces;
    assert pattern[0] == '%' && str != "" && str[0] == '%' ==> TakesPercent(pieces, 0);
    assert str[..k] == pieces[0] && str[k..] == Joined(rest);
    assert forall i | 0 <= i < |pattern| - 1 :: pattern[1..][i] == pattern[i + 1] && rest[i] == pieces[i + 1];
    assert Fitting(str[k..], pattern[1..], rest);
    forall i | 0 <= i < |pattern| - 1 && pattern[1..][i] == '%' && TakesPercent(rest, i)
      ensures rest[i] == "%"
    {
      assert rest[i..] == pieces[i + 1..];
      assert pattern[i + 1] == '%' && TakesPercent(pieces, i + 1);
    }
    assert FittingEagerly(str[k..], pattern[1..], rest);
  }

  lemma {:induction false} EagerOnEmpty(pattern: string)
    ensures MatchesEagerly("", pattern) <==> OnlyPercents(pattern)
  {
    if pattern == "" {
      assert Joined([]) == "";
      assert FittingEagerly("", "", []);
    } else {
      EagerOnEmpty(pattern[1..]);
      assert pattern == [pattern[0]] + pattern[1..];
      if OnlyPercents(pattern) {
        assert pattern[0] in pattern;
        assert forall c | c in pattern[1..] :: c in pattern;
        EagerCons("", pattern, "", "");
      }
      if MatchesEagerly("", pattern) {
        var k := EagerSplits("", pattern);
      }
    }
  }

  lemma NoEmptyPattern(str: string)
    ensures MatchesEagerly(str, "") ==> str == ""
  {
  }

  // On every string and pattern: the matcher accepts exactly when the string can be cut so that
  // each '%' of the pattern that meets a '%' in the string takes that character and no more.
  lemma {:induction false} AcceptsEagerly(str: string, pattern: string)
    ensures Accepts(str, pattern) <==> exists pieces: seq<string> :: FittingEagerly(str, pattern, pieces)
    decreases |pattern|
  {
    if str == "" {
      EagerOnEmpty(pattern);
    } else if pattern == "" {
      NoEmptyPattern(str);
    } else {
      var tail := pattern[1..];
      if pattern[0] == '_' || pattern[0] == str[0] {
        AcceptsEagerly(str[1..], tail);
        assert str == [str[0]] + str[1..];
        if MatchesEagerly(str[1..], tail) {
          EagerCons(str, pattern, [str[0]], str[1..]);
        }
        if MatchesEagerly(str, pattern) {
          var k := EagerSplits(str, pattern);
          assert k == 1;
        }
      } else if pattern[0] == '%' {
        forall k | 0 <= k <= |str|
          ensures Accepts(str[k..], tail) <==> MatchesEagerly(str[k..], tail)
        {
          AcceptsEagerly(str[k..], tail);
        }
        if AcceptsFrom(str, tail, 0) {
          var k := FromWitness(str, tail, 0);
          assert str == str[..k] + str[k..];
          EagerCons(str, pattern, str[..k], str[k..]);
        }
        if MatchesEagerly(str, pattern) {
          var k := EagerSplits(str, pattern);
          FromHolds(str, tail, 0, k);
        }
      } else {
        if MatchesEagerly(str, pattern) {
          var k := EagerSplits(str, pattern);
        }
      }
    }
  }

  // ---------------------------------------------------------------- strings with '%'

  lemma {:induction false} LiteralMatches(str: string)
    ensures Matches(str, str)
  {
    if str == "" {
      EmptyMatch();
    } else {
      LiteralMatches(str[1..]);
      MatchCons(str, str, [str[0]], str[1..]);
    }
  }

  lemma {:induction false} LiteralPrefix(a: string, str: string, pattern: string)
    ensures Accepts(a + str, a + pattern) == Accepts(str, pattern)
    ensures Matches(str, pattern) ==> Matches(a + str, a + pattern)
  {
    if a == "" {
      assert a + str == str && a + pattern == pattern;
    } else {
      assert (a + str)[1..] == a[1..] + str && (a + pattern)[1..] == a[1..] + pattern;
      LiteralPrefix(a[1..], str, pattern);
      if Matches(str, pattern) {
        MatchCons(a + str, a + pattern, [a[0]], a[1..] + str);
      }
    }
  }

  lemma {:induction false} NoWildcardLength(str: string, pattern: string)
    requires '%' !in pattern && Accepts(str, pattern)
    ensures |str| == |pattern|
    decreases |pattern|
  {
    assert pattern != "" ==> pattern[0] in pattern;
    if str != "" {
      assert forall c | c in pattern[1..] :: c in pattern;
      NoWildcardLength(str[1..], pattern[1..]);
    }
  }

  // The match the matcher misses on a + "%" + b: the wildcard meets the '%' of the string.
  lemma MissedMatch(a: string, b: string)
    requires '%' !in b
    ensures var str, pattern := a + ("%" + b), a + ("%_" + b);
            Matches(str, pattern) && !Accepts(str, pattern)
  {
    var str, pattern := "%" + b, "%_" + b;
    LiteralMatches(b);
    assert pattern[1..] == "_" + b && ("_" + b)[1..] == b && str[1..] == b;
    MatchCons(str, "_" + b, "%", b);
    assert str == "" + str;
    MatchCons(str, pattern, "", str);
    LiteralPrefix(a, str, pattern);
    if Accepts(str, pattern) {
      assert '%' !in "_" + b;
      NoWildcardLength(b, "_" + b);
    }
  }

  lemma {:induction false} LastPercent(str: string) returns (k: nat)
    requires '%' in str
    ensures k < |str| && str[k] == '%' && '%' !in str[k + 1..]
  {
    var n := |str| - 1;
    if str[n] == '%' {
      k := n;
    } else {
      assert str == str[..n] + [str[n]];
      k := LastPercent(str[..n]);
      assert str[k + 1..] == str[..n][k + 1..] + [str[n]];
    }
  }

  // A string is matched correctly by every pattern exactly when it contains no '%'.
  lemma CorrectExactlyWithoutPercent(str: string)
    ensures (forall pattern :: Accepts(str, pattern) == Matches(str, pattern)) <==> '%' !in str
  {
    if '%' in str {
      var k := LastPercent(str);
      var a, b := str[..k], str[k + 1..];
      assert str == a + ("%" + b);
      MissedMatch(a, b);
    } else {
      forall pattern
        ensures Accepts(str, pattern) == Matches(str, pattern)
      {
        AcceptsExactly(str, pattern);
      }
    }
  }
}
