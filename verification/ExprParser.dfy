// The expression part of parser/parser.go: a cursor that the methods advance over the token
// list. Every method is proved to compute the corresponding grammar function.

module ExprParser {
  import opened Collections
  import opened ExprAst
  import opened ExprGrammar

  // The outcome when `xs` was collected before the list that is still to be parsed.
  function After<T>(xs: seq<T>, p: Parse<seq<T>>): Parse<seq<T>> {
    match p
    case NoParse => NoParse
    case Parsed(ys, rest) => Parsed(xs + ys, rest)
  }

  lemma AfterNothing<T>(p: Parse<seq<T>>)
    ensures After([], p) == p
  {
    assert p.Parsed? ==> [] + p.value == p.value;
  }

  lemma AfterOne<T>(xs: seq<T>, x: T, p: Parse<seq<T>>)
    ensures After(xs, After([x], p)) == After(xs + [x], p)
  {
    assert p.Parsed? ==> xs + ([x] + p.value) == (xs + [x]) + p.value;
  }

  class Parser {
    const tokens: seq<Token>
    var pos: nat

    constructor (tokens: seq<Token>)
      ensures this.tokens == tokens && pos == 0
    {
      this.tokens := tokens;
      pos := 0;
    }

    predicate Ready()
      reads this
    {
      pos <= |tokens|
    }

    function Left(): seq<Token>
      requires Ready()
      reads this
    {
      tokens[pos..]
    }

    // The result of a method against what the grammar says. After an error the cursor is
    // anywhere.
    ghost predicate Matches<T>(r: Option<T>, spec: Parse<T>)
      reads this
    {
      && Ready()
      && (spec.NoParse? ==> r.None?)
      && (spec.Parsed? ==> r == Some(spec.value) && Left() == spec.rest)
    }

    function Current(): Token
      reads this
    {
      if pos >= |tokens| then TOther else tokens[pos]
    }

    predicate MatchKeyword(k: Keyword)
      reads this
    {
      Current() == TKeyword(k)
    }

    method Advance()
      requires pos < |tokens|
      modifies this`pos
      ensures Ready() && pos == old(pos) + 1
      ensures Left() == old(Left())[1..]
    {
      pos := pos + 1;
    }

    method Expect(t: Token) returns (ok: bool)
      requires Ready() && t != TOther
      modifies this`pos
      ensures Ready() && (ok <==> IsTok(old(Left()), t))
      ensures if ok then pos == old(pos) + 1 && Left() == old(Left())[1..] else pos == old(pos)
    {
      if Current() != t {
        return false;
      }
      Advance();
      ok := true;
    }

    method ParseExpression() returns (r: Option<Expr>)
      requires Ready()
      modifies this`pos
      ensures Matches(r, POr(old(Left())))
      decreases |tokens| - pos, 18
    {
      r := ParseOrExpr();
    }

    method ParseOrExpr() returns (r: Option<Expr>)
      requires Ready()
      modifies this`pos
      ensures Matches(r, POr(old(Left())))
      decreases |tokens| - pos, 17
    {
      r := ParseAndExpr();
      if r.None? {
        return;
      }
      hide PAnd;
      while MatchKeyword(KwOr)
        invariant Ready() && pos > old(pos) && r.Some?
        invariant POr(old(Left())) == OrLoop(r.value, Left())
        decreases |tokens| - pos
      {
        Advance();
        var right := ParseAndExpr();
        if right.None? {
          return None;
        }
        r := Some(Binary(r.value, Or, right.value));
      }
    }

    method ParseAndExpr() returns (r: Option<Expr>)
      requires Ready()
      modifies this`pos
      ensures Matches(r, PAnd(old(Left())))
      decreases |tokens| - pos, 15
    {
      r := ParseNotExpr();
      if r.None? {
        return;
      }
      hide PNot;
      while MatchKeyword(KwAnd)
        invariant Ready() && pos > old(pos) && r.Some?
        invariant PAnd(old(Left())) == AndLoop(r.value, Left())
        decreases |tokens| - pos
      {
        Advance();
        var right := ParseNotExpr();
        if right.None? {
          return None;
        }
        r := Some(Binary(r.value, And, right.value));
      }
    }

    method ParseNotExpr() returns (r: Option<Expr>)
      requires Ready()
      modifies this`pos
      ensures Matches(r, PNot(old(Left())))
      decreases |tokens| - pos, 13
    {
      hide PComparison;
      if MatchKeyword(KwNot) {
        Advance();
        var right := ParseComparisonExpr();
        if right.None? {
          return None;
        }
        return Some(Unary(Not, right.value));
      }
      r := ParseComparisonExpr();
    }

    method ParseComparisonExpr() returns (r: Option<Expr>)
      requires Ready()
      modifies this`pos
      ensures Matches(r, PComparison(old(Left())))
      decreases |tokens| - pos, 12
    {
      hide PAdditive, PIn, PBetween;
      var left := ParseAdditiveExpr();
      if left.None? {
        return None;
      }
      ghost var ts := Left();
      var op: BinOp;
      if Current().TOperator? && IsCompareOp(Current().op) {
        op := Compare(Current().op);
        Advance();
      } else if MatchKeyword(KwIs) {
        Advance();
        if MatchKeyword(KwNot) {
          Advance();
          if MatchKeyword(KwNull) {
            Advance();
            return Some(Binary(left.value, IsNot, Lit(NullLit)));
          }
          return None;
        }
        if MatchKeyword(KwNull) {
          Advance();
          return Some(Binary(left.value, Is, Lit(NullLit)));
        }
        return None;
      } else if MatchKeyword(KwIn) {
        Advance();
        r := ParseInExpr(left.value);
        return;
      } else if MatchKeyword(KwBetween) {
        Advance();
        r := ParseBetweenExpr(left.value);
        return;
      } else if MatchKeyword(KwLike) {
        Advance();
        op := Like;
      } else {
        return left;
      }
      var right := ParseAdditiveExpr();
      if right.None? {
        return None;
      }
      r := Some(Binary(left.value, op, right.value));
    }

    method ParseInExpr(left: Expr) returns (r: Option<Expr>)
      requires Ready()
      modifies this`pos
      ensures Matches(r, PIn(left, old(Left())))
      decreases |tokens| - pos, 10
    {
      hide POr;
      var ok := Expect(TLParen);
      if !ok || MatchKeyword(KwSelect) {
        return None;
      }
      ghost var start := Left();
      var list: seq<Expr> := [];
      AfterNothing(PList(start));
      while true
        invariant Ready() && pos > old(pos)
        invariant PList(start) == After(list, PList(Left()))
        decreases |tokens| - pos
      {
        ghost var here := Left();
        var e := ParseExpression();
        if e.None? {
          return None;
        }
        var comma := Current() == TComma;
        ghost var ahead := Left();
        if comma {
          Advance();
        }
        ListStep(list, e.value, here, ahead);
        list := list + [e.value];
        if !comma {
          break;
        }
      }
      ok := Expect(TRParen);
      if !ok {
        return None;
      }
      r := Some(In(left, list));
    }

    method ParseBetweenExpr(left: Expr) returns (r: Option<Expr>)
      requires Ready()
      modifies this`pos
      ensures Matches(r, PBetween(left, old(Left())))
      decreases |tokens| - pos, 10
    {
      hide PAdditive;
      var low := ParseAdditiveExpr();
      if low.None? {
        return None;
      }
      var ok := Expect(TKeyword(KwAnd));
      if !ok {
        return None;
      }
      var high := ParseAdditiveExpr();
      if high.None? {
        return None;
      }
      r := Some(Between(left, low.value, high.value));
    }

    method ParseAdditiveExpr() returns (r: Option<Expr>)
      requires Ready()
      modifies this`pos
      ensures Matches(r, PAdditive(old(Left())))
      decreases |tokens| - pos, 9
    {
      r := ParseMultiplicativeExpr();
      if r.None? {
        return;
      }
      hide PMultiplicative;
      while Current().TOperator? && IsAddOp(Current().op)
        invariant Ready() && pos > old(pos) && r.Some?
        invariant PAdditive(old(Left())) == AddLoop(r.value, Left())
        decreases |tokens| - pos
      {
        var op := Current().op;
        Advance();
        var right := ParseMultiplicativeExpr();
        if right.None? {
          return None;
        }
        r := Some(Binary(r.value, Arith(op), right.value));
      }
    }

    method ParseMultiplicativeExpr() returns (r: Option<Expr>)
      requires Ready()
      modifies this`pos
      ensures Matches(r, PMultiplicative(old(Left())))
      decreases |tokens| - pos, 7
    {
      r := ParseUnaryExpr();
      if r.None? {
        return;
      }
      hide PUnary;
      while Current().TOperator? && IsMulOp(Current().op)
        invariant Ready() && pos > old(pos) && r.Some?
        invariant PMultiplicative(old(Left())) == MulLoop(r.value, Left())
        decreases |tokens| - pos
      {
        var op := Current().op;
        Advance();
        var right := ParseUnaryExpr();
        if right.None? {
          return None;
        }
        r := Some(Binary(r.value, Arith(op), right.value));
      }
    }

    method ParseUnaryExpr() returns (r: Option<Expr>)
      requires Ready()
      modifies this`pos
      ensures Matches(r, PUnary(old(Left())))
      decreases |tokens| - pos, 5
    {
      hide PPrimary;
      if Current() == TOperator(Plus) || Current() == TOperator(Minus) {
        var op := if Current().op == Plus then Pos else Neg;
        Advance();
        var right := ParseUnaryExpr();
        if right.None? {
          return None;
        }
        return Some(Unary(op, right.value));
      }
      r := ParsePrimaryExpr();
    }

    method ParsePrimaryExpr() returns (r: Option<Expr>)
      requires Ready()
      modifies this`pos
      ensures Matches(r, PPrimary(old(Left())))
      decreases |tokens| - pos, 4
    {
      hide PIdent, PCase, PParen;
      if pos == |tokens| {
        return None;
      }
      match Current()
      case TNumber(n) =>
        Advance();
        r := if n.Some? then Some(Lit(NumLit(n.value))) else None;
      case TString(s) =>
        Advance();
        r := Some(Lit(StrLit(s)));
      case TKeyword(k) =>
        if k == KwNull {
          Advance();
          return Some(Lit(NullLit));
        }
        if k == KwTrue {
          Advance();
          return Some(Lit(BoolLit(true)));
        }
        if k == KwFalse {
          Advance();
          return Some(Lit(BoolLit(false)));
        }
        if k == KwCase {
          r := ParseCaseExpr();
          return;
        }
        if k == KwExists || k == KwMatch {
          return None;
        }
        r := ParseIdentOrFunction(KeywordText(k));
      case TIdent(name) =>
        r := ParseIdentOrFunction(name);
      case TLParen =>
        r := ParseParenExpr();
      case TStar =>
        Advance();
        r := Some(Star);
      case _ =>
        r := None;
    }

    // `name` is the text of the current token.
    method ParseIdentOrFunction(name: string) returns (r: Option<Expr>)
      requires pos < |tokens|
      modifies this`pos
      ensures Matches(r, PIdent(name, old(Left())[1..]))
      decreases |tokens| - pos, 3
    {
      hide PCall;
      Advance();
      if Current() == TLParen {
        Advance();
        r := ParseArguments(Upper(name));
        return;
      }
      if Current() == TDot {
        Advance();
        match Current()
        case TIdent(col) =>
          Advance();
          return Some(Column(name, col));
        case TKeyword(k) =>
          Advance();
          return Some(Column(name, KeywordText(k)));
        case _ =>
          return None;
      }
      r := Some(Column("", name));
    }

    // The argument list and the closing parenthesis of a call.
    method ParseArguments(f: string) returns (r: Option<Expr>)
      requires Ready()
      modifies this`pos
      ensures Matches(r, PCall(f, old(Left())))
      decreases |tokens| - pos, 20
    {
      hide POr, PArg;
      ghost var start := Left();
      var args: seq<Arg> := [];
      if Current() == TStar {
        Advance();
        args := [Arg(false, Star)];
      } else if Current() != TRParen {
        AfterNothing(PArgs(start));
        while true
          invariant Ready() && pos >= old(pos)
          invariant PArgs(start) == After(args, PArgs(Left()))
          decreases |tokens| - pos
        {
          ghost var here := Left();
          var arg := ParseArgument();
          if arg.None? {
            return None;
          }
          var comma := Current() == TComma;
          ghost var ahead := Left();
          if comma {
            Advance();
          }
          ArgsStep(args, arg.value, here, ahead);
          args := args + [arg.value];
          if !comma {
            break;
          }
        }
      }
      var ok := Expect(TRParen);
      if !ok {
        return None;
      }
      r := Some(Func(f, args));
    }

    method ParseArgument() returns (r: Option<Arg>)
      requires Ready()
      modifies this`pos
      ensures Matches(r, PArg(old(Left())))
      decreases |tokens| - pos, 19
    {
      hide POr;
      var distinct := MatchKeyword(KwDistinct);
      if distinct {
        Advance();
      }
      var e := ParseExpression();
      if e.None? {
        return None;
      }
      r := Some(Arg(distinct, e.value));
    }

    method ParseParenExpr() returns (r: Option<Expr>)
      requires Ready() && IsTok(Left(), TLParen)
      modifies this`pos
      ensures Matches(r, if IsKw(old(Left())[1..], KwSelect) then NoParse else PParen(old(Left())[1..]))
      decreases |tokens| - pos, 3
    {
      hide POr;
      Advance();
      if MatchKeyword(KwSelect) {
        return None;
      }
      r := ParseExpression();
      if r.None? {
        return;
      }
      var ok := Expect(TRParen);
      if !ok {
        r := None;
      }
    }

    method ParseCaseExpr() returns (r: Option<Expr>)
      requires Ready() && IsKw(Left(), KwCase)
      modifies this`pos
      ensures Matches(r, PCase(old(Left())[1..]))
      decreases |tokens| - pos, 3
    {
      hide POr, CaseTail;
      Advance();
      var subject := None;
      if !MatchKeyword(KwWhen) {
        var caseExpr := ParseExpression();
        if caseExpr.None? {
          return None;
        }
        subject := caseExpr;
      }
      r := ParseCaseTail(subject);
    }

    // The WHEN clauses, the ELSE clause and END.
    method ParseCaseTail(subject: Option<Expr>) returns (r: Option<Expr>)
      requires Ready()
      modifies this`pos
      ensures Matches(r, CaseTail(subject, old(Left())))
      decreases |tokens| - pos, 19
    {
      hide POr, PWhen;
      ghost var start := Left();
      var whens: seq<When> := [];
      AfterNothing(PWhens(start));
      while MatchKeyword(KwWhen)
        invariant Ready() && pos >= old(pos)
        invariant PWhens(start) == After(whens, PWhens(Left()))
        decreases |tokens| - pos
      {
        ghost var here := Left();
        Advance();
        var w := ParseWhen();
        if w.None? {
          return None;
        }
        AfterOne(whens, w.value, PWhens(Left()));
        whens := whens + [w.value];
      }
      assert whens + [] == whens;
      var otherwise := None;
      if MatchKeyword(KwElse) {
        Advance();
        otherwise := ParseExpression();
        if otherwise.None? {
          return None;
        }
      }
      var ok := Expect(TKeyword(KwEnd));
      if !ok {
        return None;
      }
      r := Some(Case(subject, whens, otherwise));
    }

    method ParseWhen() returns (r: Option<When>)
      requires Ready()
      modifies this`pos
      ensures Matches(r, PWhen(old(Left())))
      decreases |tokens| - pos, 19
    {
      hide POr;
      var cond := ParseExpression();
      if cond.None? {
        return None;
      }
      var ok := Expect(TKeyword(KwThen));
      if !ok {
        return None;
      }
      var then_ := ParseExpression();
      if then_.None? {
        return None;
      }
      r := Some(When(cond.value, then_.value));
    }
  }

  // One round of the list loop: `e` was read at `here` and `ahead` is what follows it.
  lemma ListStep(list: seq<Expr>, e: Expr, here: seq<Token>, ahead: seq<Token>)
    requires POr(here) == Parsed(e, ahead)
    ensures After(list, PList(here)) ==
            if IsTok(ahead, TComma) then After(list + [e], PList(ahead[1..])) else Parsed(list + [e], ahead)
  {
    hide POr;
    if IsTok(ahead, TComma) {
      AfterOne(list, e, PList(ahead[1..]));
    }
  }

  lemma ArgsStep(args: seq<Arg>, a: Arg, here: seq<Token>, ahead: seq<Token>)
    requires PArg(here) == Parsed(a, ahead)
    ensures After(args, PArgs(here)) ==
            if IsTok(ahead, TComma) then After(args + [a], PArgs(ahead[1..])) else Parsed(args + [a], ahead)
  {
    hide PArg;
    if IsTok(ahead, TComma) {
      AfterOne(args, a, PArgs(ahead[1..]));
    }
  }
}
