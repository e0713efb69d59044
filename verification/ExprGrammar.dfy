// What the recursive-descent expression parser of parser/parser.go computes, as functions
// from the tokens left to a tree and the tokens after it. The module ExprParser proves the
// stateful parser against these functions.

module ExprGrammar {
  import opened Collections
  import opened ExprAst

  datatype Parse<+T> = Parsed(value: T, rest: seq<Token>) | NoParse

  predicate IsKw(ts: seq<Token>, k: Keyword) {
    ts != [] && ts[0] == TKeyword(k)
  }

  predicate IsTok(ts: seq<Token>, t: Token) {
    ts != [] && ts[0] == t
  }

  function Expect(t: Token, e: Expr, ts: seq<Token>): Parse<Expr> {
    if IsTok(ts, t) then Parsed(e, ts[1..]) else NoParse
  }

  function POr(ts: seq<Token>): (r: Parse<Expr>)
    ensures r.Parsed? ==> |r.rest| < |ts| && (Lexed(ts) ==> Lexed(r.rest) && WF(r.value))
    decreases |ts|, 17
  {
    match PAnd(ts)
    case NoParse => NoParse
    case Parsed(left, rest) => OrLoop(left, rest)
  }

  function OrLoop(left: Expr, ts: seq<Token>): (r: Parse<Expr>)
    ensures r.Parsed? ==> |r.rest| <= |ts| && (Lexed(ts) && WF(left) ==> Lexed(r.rest) && WF(r.value))
    decreases |ts|, 16
  {
    if IsKw(ts, KwOr) then
      match PAnd(ts[1..])
      case NoParse => NoParse
      case Parsed(right, rest) => OrLoop(Binary(left, Or, right), rest)
    else Parsed(left, ts)
  }

  function PAnd(ts: seq<Token>): (r: Parse<Expr>)
    ensures r.Parsed? ==> |r.rest| < |ts| && (Lexed(ts) ==> Lexed(r.rest) && WF(r.value))
    decreases |ts|, 15
  {
    match PNot(ts)
    case NoParse => NoParse
    case Parsed(left, rest) => AndLoop(left, rest)
  }

  function AndLoop(left: Expr, ts: seq<Token>): (r: Parse<Expr>)
    ensures r.Parsed? ==> |r.rest| <= |ts| && (Lexed(ts) && WF(left) ==> Lexed(r.rest) && WF(r.value))
    decreases |ts|, 14
  {
    if IsKw(ts, KwAnd) then
      match PNot(ts[1..])
      case NoParse => NoParse
      case Parsed(right, rest) => AndLoop(Binary(left, And, right), rest)
    else Parsed(left, ts)
  }

  function PNot(ts: seq<Token>): (r: Parse<Expr>)
    ensures r.Parsed? ==> |r.rest| < |ts| && (Lexed(ts) ==> Lexed(r.rest) && WF(r.value))
    decreases |ts|, 13
  {
    if IsKw(ts, KwNot) then
      match PComparison(ts[1..])
      case NoParse => NoParse
      case Parsed(right, rest) => Parsed(Unary(Not, right), rest)
    else PComparison(ts)
  }

  function PComparison(ts: seq<Token>): (r: Parse<Expr>)
    ensures r.Parsed? ==> |r.rest| < |ts| && (Lexed(ts) ==> Lexed(r.rest) && WF(r.value))
    decreases |ts|, 12
  {
    match PAdditive(ts)
    case NoParse => NoParse
    case Parsed(left, rest) => ComparisonTail(left, rest)
  }

  function ComparisonTail(left: Expr, ts: seq<Token>): (r: Parse<Expr>)
    ensures r.Parsed? ==> |r.rest| <= |ts| && (Lexed(ts) && WF(left) ==> Lexed(r.rest) && WF(r.value))
    decreases |ts|, 11
  {
    if ts != [] && ts[0].TOperator? && IsCompareOp(ts[0].op) then
      match PAdditive(ts[1..])
      case NoParse => NoParse
      case Parsed(right, rest) => Parsed(Binary(left, Compare(ts[0].op), right), rest)
    else if IsKw(ts, KwIs) then
      if IsKw(ts[1..], KwNot) then
        if IsKw(ts[2..], KwNull) then Parsed(Binary(left, IsNot, Lit(NullLit)), ts[3..]) else NoParse
      else if IsKw(ts[1..], KwNull) then Parsed(Binary(left, Is, Lit(NullLit)), ts[2..])
      else NoParse
    else if IsKw(ts, KwIn) then PIn(left, ts[1..])
    else if IsKw(ts, KwBetween) then PBetween(left, ts[1..])
    else if IsKw(ts, KwLike) then
      match PAdditive(ts[1..])
      case NoParse => NoParse
      case Parsed(right, rest) => Parsed(Binary(left, Like, right), rest)
    else Parsed(left, ts)
  }

  // A subquery after the parenthesis is outside this model.
  function PIn(left: Expr, ts: seq<Token>): (r: Parse<Expr>)
    ensures r.Parsed? ==> |r.rest| < |ts| && (Lexed(ts) && WF(left) ==> Lexed(r.rest) && WF(r.value))
    decreases |ts|, 10
  {
    if !IsTok(ts, TLParen) || IsKw(ts[1..], KwSelect) then NoParse
    else
      match PList(ts[1..])
      case NoParse => NoParse
      case Parsed(list, rest) => Expect(TRParen, In(left, list), rest)
  }

  function PList(ts: seq<Token>): (r: Parse<seq<Expr>>)
    ensures r.Parsed? ==> |r.rest| < |ts| && r.value != [] && (Lexed(ts) ==> Lexed(r.rest) && WFList(r.value))
    decreases |ts|, 18
  {
    match POr(ts)
    case NoParse => NoParse
    case Parsed(e, rest) =>
      if IsTok(rest, TComma) then
        match PList(rest[1..])
        case NoParse => NoParse
        case Parsed(es, rest') =>
          assert ([e] + es)[1..] == es;
          Parsed([e] + es, rest')
      else Parsed([e], rest)
  }

  function PBetween(left: Expr, ts: seq<Token>): (r: Parse<Expr>)
    ensures r.Parsed? ==> |r.rest| < |ts| && (Lexed(ts) && WF(left) ==> Lexed(r.rest) && WF(r.value))
    decreases |ts|, 10
  {
    match PAdditive(ts)
    case NoParse => NoParse
    case Parsed(low, rest) =>
      if !IsKw(rest, KwAnd) then NoParse
      else
        match PAdditive(rest[1..])
        case NoParse => NoParse
        case Parsed(high, rest') => Parsed(Between(left, low, high), rest')
  }

  function PAdditive(ts: seq<Token>): (r: Parse<Expr>)
    ensures r.Parsed? ==> |r.rest| < |ts| && (Lexed(ts) ==> Lexed(r.rest) && WF(r.value))
    decreases |ts|, 9
  {
    match PMultiplicative(ts)
    case NoParse => NoParse
    case Parsed(left, rest) => AddLoop(left, rest)
  }

  function AddLoop(left: Expr, ts: seq<Token>): (r: Parse<Expr>)
    ensures r.Parsed? ==> |r.rest| <= |ts| && (Lexed(ts) && WF(left) ==> Lexed(r.rest) && WF(r.value))
    decreases |ts|, 8
  {
    if ts != [] && ts[0].TOperator? && IsAddOp(ts[0].op) then
      match PMultiplicative(ts[1..])
      case NoParse => NoParse
      case Parsed(right, rest) => AddLoop(Binary(left, Arith(ts[0].op), right), rest)
    else Parsed(left, ts)
  }

  function PMultiplicative(ts: seq<Token>): (r: Parse<Expr>)
    ensures r.Parsed? ==> |r.rest| < |ts| && (Lexed(ts) ==> Lexed(r.rest) && WF(r.value))
    decreases |ts|, 7
  {
    match PUnary(ts)
    case NoParse => NoParse
    case Parsed(left, rest) => MulLoop(left, rest)
  }

  function MulLoop(left: Expr, ts: seq<Token>): (r: Parse<Expr>)
    ensures r.Parsed? ==> |r.rest| <= |ts| && (Lexed(ts) && WF(left) ==> Lexed(r.rest) && WF(r.value))
    decreases |ts|, 6
  {
    if ts != [] && ts[0].TOperator? && IsMulOp(ts[0].op) then
      match PUnary(ts[1..])
      case NoParse => NoParse
      case Parsed(right, rest) => MulLoop(Binary(left, Arith(ts[0].op), right), rest)
    else Parsed(left, ts)
  }

  function PUnary(ts: seq<Token>): (r: Parse<Expr>)
    ensures r.Parsed? ==> |r.rest| < |ts| && (Lexed(ts) ==> Lexed(r.rest) && WF(r.value))
    decreases |ts|, 5
  {
    if IsTok(ts, TOperator(Plus)) || IsTok(ts, TOperator(Minus)) then
      match PUnary(ts[1..])
      case NoParse => NoParse
      case Parsed(right, rest) => Parsed(Unary(if ts[0].op == Plus then Pos else Neg, right), rest)
    else PPrimary(ts)
  }

  // EXISTS, MATCH ... AGAINST and subqueries are outside this model.
  function PPrimary(ts: seq<Token>): (r: Parse<Expr>)
    ensures r.Parsed? ==> |r.rest| < |ts| && (Lexed(ts) ==> Lexed(r.rest) && WF(r.value))
    decreases |ts|, 4
  {
    if ts == [] then NoParse
    else
      match ts[0]
      case TNumber(n) => if n.Some? then Parsed(Lit(NumLit(n.value)), ts[1..]) else NoParse
      case TString(s) => Parsed(Lit(StrLit(s)), ts[1..])
      case TKeyword(k) =>
        if k == KwNull then Parsed(Lit(NullLit), ts[1..])
        else if k == KwTrue then Parsed(Lit(BoolLit(true)), ts[1..])
        else if k == KwFalse then Parsed(Lit(BoolLit(false)), ts[1..])
        else if k == KwCase then PCase(ts[1..])
        else if k == KwExists || k == KwMatch then NoParse
        else PIdent(KeywordText(k), ts[1..])
      case TIdent(name) => PIdent(name, ts[1..])
      case TLParen => if IsKw(ts[1..], KwSelect) then NoParse else PParen(ts[1..])
      case TStar => Parsed(Star, ts[1..])
      case _ => NoParse
  }

  function PParen(ts: seq<Token>): (r: Parse<Expr>)
    ensures r.Parsed? ==> |r.rest| < |ts| && (Lexed(ts) ==> Lexed(r.rest) && WF(r.value))
    decreases |ts|, 18
  {
    match POr(ts)
    case NoParse => NoParse
    case Parsed(e, rest) => Expect(TRParen, e, rest)
  }

  // `ts` are the tokens after the name.
  function PIdent(name: string, ts: seq<Token>): (r: Parse<Expr>)
    ensures r.Parsed? ==> |r.rest| <= |ts| && (Lexed(ts) ==> Lexed(r.rest) && WF(r.value))
    decreases |ts|, 3
  {
    if IsTok(ts, TLParen) then
      UpperTwice(name);
      PCall(Upper(name), ts[1..])
    else if IsTok(ts, TDot) then
      if |ts| > 1 && ts[1].TIdent? then Parsed(Column(name, ts[1].name), ts[2..])
      else if |ts| > 1 && ts[1].TKeyword? then Parsed(Column(name, KeywordText(ts[1].kw)), ts[2..])
      else NoParse
    else Parsed(Column("", name), ts)
  }

  // The arguments and the closing parenthesis of a call of `f`.
  function PCall(f: string, ts: seq<Token>): (r: Parse<Expr>)
    ensures r.Parsed? ==> |r.rest| < |ts| && (Lexed(ts) && Upper(f) == f ==> Lexed(r.rest) && WF(r.value))
    decreases |ts|, 20
  {
    if IsTok(ts, TStar) then Expect(TRParen, Func(f, [Arg(false, Star)]), ts[1..])
    else if IsTok(ts, TRParen) then Parsed(Func(f, []), ts[1..])
    else
      match PArgs(ts)
      case NoParse => NoParse
      case Parsed(args, rest) => Expect(TRParen, Func(f, args), rest)
  }

  function PArg(ts: seq<Token>): (r: Parse<Arg>)
    ensures r.Parsed? ==> |r.rest| < |ts| && (Lexed(ts) ==> Lexed(r.rest) && WFArg(r.value))
    decreases |ts|, 18
  {
    var distinct := IsKw(ts, KwDistinct);
    match POr(if distinct then ts[1..] else ts)
    case NoParse => NoParse
    case Parsed(e, rest) => Parsed(Arg(distinct, e), rest)
  }

  function PArgs(ts: seq<Token>): (r: Parse<seq<Arg>>)
    ensures r.Parsed? ==> |r.rest| < |ts| && (Lexed(ts) ==> Lexed(r.rest) && WFArgs(r.value))
    decreases |ts|, 19
  {
    match PArg(ts)
    case NoParse => NoParse
    case Parsed(a, rest) =>
      if IsTok(rest, TComma) then
        match PArgs(rest[1..])
        case NoParse => NoParse
        case Parsed(args, rest') =>
          assert ([a] + args)[1..] == args;
          Parsed([a] + args, rest')
      else Parsed([a], rest)
  }

  // `ts` are the tokens after CASE.
  function PCase(ts: seq<Token>): (r: Parse<Expr>)
    ensures r.Parsed? ==> |r.rest| < |ts| && (Lexed(ts) ==> Lexed(r.rest) && WF(r.value))
    decreases |ts|, 20
  {
    if IsKw(ts, KwWhen) then CaseTail(None, ts)
    else
      match POr(ts)
      case NoParse => NoParse
      case Parsed(subject, rest) => CaseTail(Some(subject), rest)
  }

  function CaseTail(subject: Option<Expr>, ts: seq<Token>): (r: Parse<Expr>)
    ensures r.Parsed? ==>
              |r.rest| < |ts|
              && (Lexed(ts) && WFOption(subject) && (subject.None? ==> IsKw(ts, KwWhen)) ==>
                   Lexed(r.rest) && WF(r.value))
    decreases |ts|, 19
  {
    match PWhens(ts)
    case NoParse => NoParse
    case Parsed(whens, rest) =>
      if IsKw(rest, KwElse) then
        match POr(rest[1..])
        case NoParse => NoParse
        case Parsed(e, rest') => Expect(TKeyword(KwEnd), Case(subject, whens, Some(e)), rest')
      else Expect(TKeyword(KwEnd), Case(subject, whens, None), rest)
  }

  function PWhen(ts: seq<Token>): (r: Parse<When>)
    ensures r.Parsed? ==> |r.rest| < |ts| && (Lexed(ts) ==> Lexed(r.rest) && WFWhen(r.value))
    decreases |ts|, 18
  {
    match POr(ts)
    case NoParse => NoParse
    case Parsed(cond, rest) =>
      if !IsKw(rest, KwThen) then NoParse
      else
        match POr(rest[1..])
        case NoParse => NoParse
        case Parsed(then_, rest') => Parsed(When(cond, then_), rest')
  }

  function PWhens(ts: seq<Token>): (r: Parse<seq<When>>)
    ensures r.Parsed? ==>
            |r.rest| <= |ts| && (r.value == [] <==> !IsKw(ts, KwWhen))
                && (Lexed(ts) ==> Lexed(r.rest) && WFWhens(r.value))
    decreases |ts|, 18
  {
    if IsKw(ts, KwWhen) then
      match PWhen(ts[1..])
      case NoParse => NoParse
      case Parsed(w, rest) =>
        match PWhens(rest)
        case NoParse => NoParse
        case Parsed(whens, rest') =>
          assert ([w] + whens)[1..] == whens;
          Parsed([w] + whens, rest')
    else Parsed([], ts)
  }
}
