// Keywords as names: a word of the lexer's keyword list that stands where a name may stand is read
// like a name with the same spelling.

module ExprNames {
  import opened Collections
  import opened ExprAst
  import opened ExprGrammar

  // The keyword token of an upper-case word of the lexer's list.
  function KeywordOf(word: string): Keyword {
    if word == "OR" then KwOr
    else if word == "AND" then KwAnd
    else if word == "NOT" then KwNot
    else if word == "IS" then KwIs
    else if word == "NULL" then KwNull
    else if word == "IN" then KwIn
    else if word == "BETWEEN" then KwBetween
    else if word == "LIKE" then KwLike
    else if word == "TRUE" then KwTrue
    else if word == "FALSE" then KwFalse
    else if word == "CASE" then KwCase
    else if word == "WHEN" then KwWhen
    else if word == "THEN" then KwThen
    else if word == "ELSE" then KwElse
    else if word == "END" then KwEnd
    else if word == "DISTINCT" then KwDistinct
    else if word == "SELECT" then KwSelect
    else if word == "EXISTS" then KwExists
    else if word == "MATCH" then KwMatch
    else KwOther(word)
  }

  lemma KeywordSpelling(word: string)
    ensures KeywordText(KeywordOf(word)) == word
  {
  }

  // At the start of an operand a keyword is a name unless it begins a literal, a CASE, an EXISTS
  // or a MATCH.
  lemma KeywordIsName(word: string, rest: seq<Token>)
    requires word !in {"NULL", "TRUE", "FALSE", "CASE", "EXISTS", "MATCH"}
    ensures PPrimary([TKeyword(KeywordOf(word))] + rest) == PPrimary([TIdent(word)] + rest)
  {
    hide PIdent, PPrimary, KeywordText, KeywordOf;
    KeywordSpelling(word);
    NotReserved(word);
    KeywordOperand(KeywordOf(word), rest);
    NameOperand(word, rest);
  }

  lemma NotReserved(word: string)
    requires word !in {"NULL", "TRUE", "FALSE", "CASE", "EXISTS", "MATCH"}
    ensures !Reserved(KeywordOf(word))
  {
  }

  lemma KeywordOperand(k: Keyword, rest: seq<Token>)
    requires !Reserved(k)
    ensures PPrimary([TKeyword(k)] + rest) == PIdent(KeywordText(k), rest)
  {
    hide PIdent, KeywordText, PCase, PParen;
    assert ([TKeyword(k)] + rest)[1..] == rest;
  }

  lemma NameOperand(word: string, rest: seq<Token>)
    ensures PPrimary([TIdent(word)] + rest) == PIdent(word, rest)
  {
    hide PIdent, KeywordText, PCase, PParen;
    assert ([TIdent(word)] + rest)[1..] == rest;
  }

  // Behind a dot every keyword is a name.
  lemma KeywordIsColumn(table: string, word: string, rest: seq<Token>)
    ensures PIdent(table, [TDot, TKeyword(KeywordOf(word))] + rest) == Parsed(Column(table, word), rest)
    ensures PIdent(table, [TDot, TIdent(word)] + rest) == Parsed(Column(table, word), rest)
  {
    KeywordSpelling(word);
    assert ([TDot, TKeyword(KeywordOf(word))] + rest)[2..] == rest && ([TDot, TIdent(word)] + rest)[2..] == rest;
    hide KeywordText;
  }

  // A name alone is an unqualified column.
  lemma NameAlone(name: string, rest: seq<Token>)
    requires rest == [] || (rest[0] != TLParen && rest[0] != TDot)
    ensures PPrimary([TIdent(name)] + rest) == Parsed(Column("", name), rest)
  {
    hide PCall, PCase, PParen;
    assert ([TIdent(name)] + rest)[1..] == rest;
  }

  // A call gets the name in upper case.
  lemma NameCalled(name: string, rest: seq<Token>)
    ensures PPrimary([TIdent(name), TLParen, TRParen] + rest) == Parsed(Func(Upper(name), []), rest)
  {
    var args := [TRParen] + rest;
    assert [TIdent(name), TLParen, TRParen] + rest == [TIdent(name)] + ([TLParen] + args);
    assert ([TIdent(name)] + ([TLParen] + args))[1..] == [TLParen] + args;
    EmptyCall(Upper(name), rest);
    assert ([TLParen] + args)[1..] == args;
    hide PCall, PCase, PParen, Upper;
  }

  lemma EmptyCall(f: string, rest: seq<Token>)
    ensures PCall(f, [TRParen] + rest) == Parsed(Func(f, []), rest)
  {
    hide PArgs, Expect;
    assert ([TRParen] + rest)[1..] == rest;
  }

  // ---------------------------------------------------------------- whole expressions

  function PlainToken(t: Token): Token {
    if t.TKeyword? && t.kw.KwOther? then TIdent(t.kw.name) else t
  }

  // The tokens with the keywords that play no part in expressions turned into names.
  function Plain(ts: seq<Token>): (r: seq<Token>)
    ensures |r| == |ts| && forall i | 0 <= i < |ts| :: r[i] == PlainToken(ts[i])
  {
    seq(|ts|, i requires 0 <= i < |ts| => PlainToken(ts[i]))
  }

  // The same tree, and the rest with its keywords turned into names.
  function Renamed<T>(r: Parse<T>): Parse<T> {
    match r
    case NoParse => NoParse
    case Parsed(e, rest) => Parsed(e, Plain(rest))
  }

  lemma PlainTail(ts: seq<Token>, k: nat)
    requires k <= |ts|
    ensures Plain(ts)[k..] == Plain(ts[k..])
  {
  }

  lemma PlainKw(ts: seq<Token>, k: Keyword)
    requires !k.KwOther?
    ensures IsKw(Plain(ts), k) <==> IsKw(ts, k)
    ensures IsKw(ts, k) ==> Plain(ts)[1..] == Plain(ts[1..])
  {
    hide Plain;
    if ts != [] {
      PlainTail(ts, 1);
    }
  }

  lemma PlainTok(ts: seq<Token>, t: Token)
    requires !t.TKeyword? && !t.TIdent?
    ensures IsTok(Plain(ts), t) <==> IsTok(ts, t)
    ensures IsTok(ts, t) ==> Plain(ts)[1..] == Plain(ts[1..])
  {
    hide Plain;
    if ts != [] {
      PlainTail(ts, 1);
    }
  }

  lemma PlainExpect(t: Token, e: Expr, ts: seq<Token>)
    requires t == TRParen || t == TKeyword(KwEnd)
    ensures Expect(t, e, Plain(ts)) == Renamed(Expect(t, e, ts))
  {
    if t.TKeyword? {
      PlainKw(ts, KwEnd);
    } else {
      PlainTok(ts, t);
    }
    hide Plain;
  }

  lemma {:induction false} OrPlain(ts: seq<Token>)
    ensures POr(Plain(ts)) == Renamed(POr(ts))
    decreases |ts|, 17
  {
    hide PAnd, OrLoop, Plain;
    AndPlain(ts);
    match PAnd(ts) {
      case NoParse =>
      case Parsed(left, rest) => OrLoopPlain(left, rest);
    }
  }

  lemma {:induction false} OrLoopPlain(left: Expr, ts: seq<Token>)
    ensures OrLoop(left, Plain(ts)) == Renamed(OrLoop(left, ts))
    decreases |ts|, 16
  {
    hide PAnd, Plain;
    PlainKw(ts, KwOr);
    if IsKw(ts, KwOr) {
      AndPlain(ts[1..]);
      match PAnd(ts[1..]) {
        case NoParse =>
        case Parsed(right, rest) => OrLoopPlain(Binary(left, Or, right), rest);
      }
    }
  }

  lemma {:induction false} AndPlain(ts: seq<Token>)
    ensures PAnd(Plain(ts)) == Renamed(PAnd(ts))
    decreases |ts|, 15
  {
    hide PNot, AndLoop, Plain;
    NotPlain(ts);
    match PNot(ts) {
      case NoParse =>
      case Parsed(left, rest) => AndLoopPlain(left, rest);
    }
  }

  lemma {:induction false} AndLoopPlain(left: Expr, ts: seq<Token>)
    ensures AndLoop(left, Plain(ts)) == Renamed(AndLoop(left, ts))
    decreases |ts|, 14
  {
    hide PNot, Plain;
    PlainKw(ts, KwAnd);
    if IsKw(ts, KwAnd) {
      NotPlain(ts[1..]);
      match PNot(ts[1..]) {
        case NoParse =>
        case Parsed(right, rest) => AndLoopPlain(Binary(left, And, right), rest);
      }
    }
  }

  lemma {:induction false} NotPlain(ts: seq<Token>)
    ensures PNot(Plain(ts)) == Renamed(PNot(ts))
    decreases |ts|, 13
  {
    hide PComparison, Plain;
    PlainKw(ts, KwNot);
    if IsKw(ts, KwNot) {
      ComparisonPlain(ts[1..]);
    } else {
      ComparisonPlain(ts);
    }
  }

  lemma {:induction false} ComparisonPlain(ts: seq<Token>)
    ensures PComparison(Plain(ts)) == Renamed(PComparison(ts))
    decreases |ts|, 12
  {
    hide PAdditive, ComparisonTail, Plain;
    AdditivePlain(ts);
    match PAdditive(ts) {
      case NoParse =>
      case Parsed(left, rest) => ComparisonTailPlain(left, rest);
    }
  }

  lemma PlainOperator(ts: seq<Token>)
    requires ts != []
    ensures Plain(ts)[0].TOperator? <==> ts[0].TOperator?
    ensures ts[0].TOperator? ==> Plain(ts)[0] == ts[0] && Plain(ts)[1..] == Plain(ts[1..])
  {
    hide Plain;
    PlainTail(ts, 1);
  }

  lemma {:induction false} ComparisonTailPlain(left: Expr, ts: seq<Token>)
    ensures ComparisonTail(left, Plain(ts)) == Renamed(ComparisonTail(left, ts))
    decreases |ts|, 11
  {
    hide PAdditive, PIn, PBetween, Plain;
    if ts != [] {
      PlainOperator(ts);
      PlainKw(ts, KwIs);
      PlainKw(ts, KwIn);
      PlainKw(ts, KwBetween);
      PlainKw(ts, KwLike);
      var tail := ts[1..];
      if IsKw(ts, KwIs) {
        IsTailPlain(ts);
      } else if IsKw(ts, KwIn) {
        InPlain(left, tail);
      } else if IsKw(ts, KwBetween) {
        BetweenPlain(left, tail);
      } else {
        AdditivePlain(tail);
      }
    }
  }

  // IS NULL and IS NOT NULL.
  lemma IsTailPlain(ts: seq<Token>)
    requires IsKw(ts, KwIs)
    ensures IsKw(Plain(ts)[1..], KwNot) <==> IsKw(ts[1..], KwNot)
    ensures IsKw(ts[1..], KwNot) ==> (IsKw(Plain(ts)[2..], KwNull) <==> IsKw(ts[2..], KwNull))
    ensures IsKw(ts[1..], KwNot) && IsKw(ts[2..], KwNull) ==> Plain(ts)[3..] == Plain(ts[3..])
    ensures IsKw(Plain(ts)[1..], KwNull) <==> IsKw(ts[1..], KwNull)
    ensures IsKw(ts[1..], KwNull) ==> Plain(ts)[2..] == Plain(ts[2..])
  {
    hide Plain;
    PlainTail(ts, 1);
    PlainKw(ts[1..], KwNot);
    PlainKw(ts[1..], KwNull);
    if |ts| > 1 {
      PlainTail(ts, 2);
      PlainKw(ts[2..], KwNull);
    }
    if |ts| > 2 {
      PlainTail(ts, 3);
    }
  }

  lemma {:induction false} InPlain(left: Expr, ts: seq<Token>)
    ensures PIn(left, Plain(ts)) == Renamed(PIn(left, ts))
    decreases |ts|, 10
  {
    hide PList, Plain, Expect;
    PlainTok(ts, TLParen);
    if IsTok(ts, TLParen) {
      PlainKw(ts[1..], KwSelect);
      ListPlain(ts[1..]);
      match PList(ts[1..]) {
        case NoParse =>
        case Parsed(list, rest) => PlainExpect(TRParen, In(left, list), rest);
      }
    }
  }

  lemma {:induction false} ListPlain(ts: seq<Token>)
    ensures PList(Plain(ts)) == Renamed(PList(ts))
    decreases |ts|, 18
  {
    hide POr, Plain;
    OrPlain(ts);
    match POr(ts) {
      case NoParse =>
      case Parsed(e, rest) =>
        PlainTok(rest, TComma);
        if IsTok(rest, TComma) {
          ListPlain(rest[1..]);
        }
    }
  }

  lemma {:induction false} BetweenPlain(left: Expr, ts: seq<Token>)
    ensures PBetween(left, Plain(ts)) == Renamed(PBetween(left, ts))
    decreases |ts|, 10
  {
    hide PAdditive, Plain;
    AdditivePlain(ts);
    match PAdditive(ts) {
      case NoParse =>
      case Parsed(low, rest) =>
        PlainKw(rest, KwAnd);
        if IsKw(rest, KwAnd) {
          AdditivePlain(rest[1..]);
        }
    }
  }

  lemma {:induction false} AdditivePlain(ts: seq<Token>)
    ensures PAdditive(Plain(ts)) == Renamed(PAdditive(ts))
    decreases |ts|, 9
  {
    hide PMultiplicative, AddLoop, Plain;
    MultiplicativePlain(ts);
    match PMultiplicative(ts) {
      case NoParse =>
      case Parsed(left, rest) => AddLoopPlain(left, rest);
    }
  }

  lemma {:induction false} AddLoopPlain(left: Expr, ts: seq<Token>)
    ensures AddLoop(left, Plain(ts)) == Renamed(AddLoop(left, ts))
    decreases |ts|, 8
  {
    hide PMultiplicative, Plain;
    if ts != [] {
      PlainOperator(ts);
      if ts[0].TOperator? && IsAddOp(ts[0].op) {
        MultiplicativePlain(ts[1..]);
        match PMultiplicative(ts[1..]) {
          case NoParse =>
          case Parsed(right, rest) => AddLoopPlain(Binary(left, Arith(ts[0].op), right), rest);
        }
      }
    }
  }

  lemma {:induction false} MultiplicativePlain(ts: seq<Token>)
    ensures PMultiplicative(Plain(ts)) == Renamed(PMultiplicative(ts))
    decreases |ts|, 7
  {
    hide PUnary, MulLoop, Plain;
    UnaryPlain(ts);
    match PUnary(ts) {
      case NoParse =>
      case Parsed(left, rest) => MulLoopPlain(left, rest);
    }
  }

  lemma {:induction false} MulLoopPlain(left: Expr, ts: seq<Token>)
    ensures MulLoop(left, Plain(ts)) == Renamed(MulLoop(left, ts))
    decreases |ts|, 6
  {
    hide PUnary, Plain;
    if ts != [] {
      PlainOperator(ts);
      if ts[0].TOperator? && IsMulOp(ts[0].op) {
        UnaryPlain(ts[1..]);
        match PUnary(ts[1..]) {
          case NoParse =>
          case Parsed(right, rest) => MulLoopPlain(Binary(left, Arith(ts[0].op), right), rest);
        }
      }
    }
  }

  lemma {:induction false} UnaryPlain(ts: seq<Token>)
    ensures PUnary(Plain(ts)) == Renamed(PUnary(ts))
    decreases |ts|, 5
  {
    hide PPrimary, Plain;
    PlainTok(ts, TOperator(Plus));
    PlainTok(ts, TOperator(Minus));
    if IsTok(ts, TOperator(Plus)) || IsTok(ts, TOperator(Minus)) {
      UnaryPlain(ts[1..]);
    } else {
      PrimaryPlain(ts);
    }
  }

  lemma {:induction false} PrimaryPlain(ts: seq<Token>)
    ensures PPrimary(Plain(ts)) == Renamed(PPrimary(ts))
    decreases |ts|, 4
  {
    hide PIdent, PCase, PParen, Plain, KeywordText;
    if ts != [] {
      PlainTail(ts, 1);
      var tail := ts[1..];
      PlainKw(tail, KwSelect);
      match ts[0] {
        case TKeyword(k) =>
          OtherText(k);
          CasePlain(tail);
          IdentPlain(KeywordText(k), tail);
        case TIdent(name) => IdentPlain(name, tail);
        case TLParen => ParenPlain(tail);
        case _ =>
      }
    }
  }

  lemma OtherText(k: Keyword)
    ensures k.KwOther? ==> KeywordText(k) == k.name
  {
  }

  lemma {:induction false} ParenPlain(ts: seq<Token>)
    ensures PParen(Plain(ts)) == Renamed(PParen(ts))
    decreases |ts|, 18
  {
    hide POr, Plain, Expect;
    OrPlain(ts);
    match POr(ts) {
      case NoParse =>
      case Parsed(e, rest) => PlainExpect(TRParen, e, rest);
    }
  }

  lemma {:induction false} IdentPlain(name: string, ts: seq<Token>)
    ensures PIdent(name, Plain(ts)) == Renamed(PIdent(name, ts))
    decreases |ts|, 3
  {
    hide PCall, Plain, KeywordText, Upper;
    PlainTok(ts, TLParen);
    PlainTok(ts, TDot);
    if IsTok(ts, TLParen) {
      CallPlain(Upper(name), ts[1..]);
    } else if IsTok(ts, TDot) && |ts| > 1 {
      PlainTail(ts, 2);
      if ts[1].TKeyword? {
        OtherText(ts[1].kw);
      }
    }
  }

  lemma {:induction false} CallPlain(f: string, ts: seq<Token>)
    ensures PCall(f, Plain(ts)) == Renamed(PCall(f, ts))
    decreases |ts|, 20
  {
    hide PArgs, Plain, Expect;
    PlainTok(ts, TStar);
    PlainTok(ts, TRParen);
    if IsTok(ts, TStar) {
      PlainExpect(TRParen, Func(f, [Arg(false, Star)]), ts[1..]);
    } else if !IsTok(ts, TRParen) {
      ArgsPlain(ts);
      match PArgs(ts) {
        case NoParse =>
        case Parsed(args, rest) => PlainExpect(TRParen, Func(f, args), rest);
      }
    }
  }

  lemma {:induction false} ArgPlain(ts: seq<Token>)
    ensures PArg(Plain(ts)) == Renamed(PArg(ts))
    decreases |ts|, 18
  {
    hide POr, Plain;
    PlainKw(ts, KwDistinct);
    if IsKw(ts, KwDistinct) {
      OrPlain(ts[1..]);
    } else {
      OrPlain(ts);
    }
  }

  lemma {:induction false} ArgsPlain(ts: seq<Token>)
    ensures PArgs(Plain(ts)) == Renamed(PArgs(ts))
    decreases |ts|, 19
  {
    hide PArg, Plain;
    ArgPlain(ts);
    match PArg(ts) {
      case NoParse =>
      case Parsed(a, rest) =>
        PlainTok(rest, TComma);
        if IsTok(rest, TComma) {
          ArgsPlain(rest[1..]);
        }
    }
  }

  lemma {:induction false} CasePlain(ts: seq<Token>)
    ensures PCase(Plain(ts)) == Renamed(PCase(ts))
    decreases |ts|, 20
  {
    hide POr, CaseTail, Plain;
    PlainKw(ts, KwWhen);
    if IsKw(ts, KwWhen) {
      CaseTailPlain(None, ts);
    } else {
      OrPlain(ts);
      match POr(ts) {
        case NoParse =>
        case Parsed(subject, rest) => CaseTailPlain(Some(subject), rest);
      }
    }
  }

  lemma {:induction false} CaseTailPlain(subject: Option<Expr>, ts: seq<Token>)
    ensures CaseTail(subject, Plain(ts)) == Renamed(CaseTail(subject, ts))
    decreases |ts|, 19
  {
    hide POr, PWhens, Plain, Expect;
    WhensPlain(ts);
    match PWhens(ts) {
      case NoParse =>
      case Parsed(whens, rest) =>
        PlainKw(rest, KwElse);
        if IsKw(rest, KwElse) {
          OrPlain(rest[1..]);
          match POr(rest[1..]) {
            case NoParse =>
            case Parsed(e, rest') => PlainExpect(TKeyword(KwEnd), Case(subject, whens, Some(e)), rest');
          }
        } else {
          PlainExpect(TKeyword(KwEnd), Case(subject, whens, None), rest);
        }
    }
  }

  lemma {:induction false} WhenPlain(ts: seq<Token>)
    ensures PWhen(Plain(ts)) == Renamed(PWhen(ts))
    decreases |ts|, 18
  {
    hide POr, Plain;
    OrPlain(ts);
    match POr(ts) {
      case NoParse =>
      case Parsed(cond, rest) =>
        PlainKw(rest, KwThen);
        if IsKw(rest, KwThen) {
          OrPlain(rest[1..]);
        }
    }
  }

  lemma {:induction false} WhensPlain(ts: seq<Token>)
    ensures PWhens(Plain(ts)) == Renamed(PWhens(ts))
    decreases |ts|, 18
  {
    hide PWhen, Plain;
    PlainKw(ts, KwWhen);
    if IsKw(ts, KwWhen) {
      WhenPlain(ts[1..]);
      match PWhen(ts[1..]) {
        case NoParse =>
        case Parsed(w, rest) => WhensPlain(rest);
      }
    }
  }

  // The same token, or a name and a keyword of the same spelling.
  predicate SameSpelling(t: Token, u: Token) {
    t == u || (t.TIdent? && u == TKeyword(KwOther(t.name))) || (u.TIdent? && t == TKeyword(KwOther(u.name)))
  }

  // Token sequences that differ only in whether names are written as such or as keywords of the
  // same spelling parse to the same tree, and stop at the same token.
  lemma KeywordsParseAsNames(ts: seq<Token>, us: seq<Token>)
    requires |ts| == |us| && forall i | 0 <= i < |ts| :: SameSpelling(ts[i], us[i])
    ensures POr(ts).Parsed? <==> POr(us).Parsed?
    ensures POr(ts).Parsed? ==> POr(ts).value == POr(us).value && |POr(ts).rest| == |POr(us).rest|
  {
    hide POr;
    OrPlain(ts);
    OrPlain(us);
    forall i | 0 <= i < |ts|
      ensures PlainToken(ts[i]) == PlainToken(us[i])
    {
      assert SameSpelling(ts[i], us[i]);
    }
    assert Plain(ts) == Plain(us);
  }
}
