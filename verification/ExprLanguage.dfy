// The language of expressions: which tokens spell which tree. A form relates a tree, tokens that
// begin with a spelling of it, and the tokens that follow. The splits between operands are only
// said to exist; the parser finds them without ever going back.

module ExprLanguage {
  import opened Collections
  import opened ExprAst
  import opened ExprGrammar

  // ---------------------------------------------------------------- the forms

  // or := or OR and | and
  ghost predicate OrForm(e: Expr, ts: seq<Token>, rest: seq<Token>)
    decreases e, |ts|, 8
  {
    || (e.Binary? && e.bop == Or
        && exists mid :: OrForm(e.left, ts, [TKeyword(KwOr)] + mid) && AndForm(e.right, mid, rest))
    || AndForm(e, ts, rest)
  }

  // and := and AND not | not
  ghost predicate AndForm(e: Expr, ts: seq<Token>, rest: seq<Token>)
    decreases e, |ts|, 7
  {
    || (e.Binary? && e.bop == And
        && exists mid :: AndForm(e.left, ts, [TKeyword(KwAnd)] + mid) && NotForm(e.right, mid, rest))
    || NotForm(e, ts, rest)
  }

  // not := NOT comparison | comparison. NOT in front is never a name here.
  ghost predicate NotForm(e: Expr, ts: seq<Token>, rest: seq<Token>)
    decreases e, |ts|, 6
  {
    if IsKw(ts, KwNot) then e.Unary? && e.uop == Not && ComparisonForm(e.operand, ts[1..], rest)
    else ComparisonForm(e, ts, rest)
  }

  // comparison := sum op sum | sum LIKE sum | sum IS [NOT] NULL | sum IN (...) | sum BETWEEN sum AND sum | sum
  ghost predicate ComparisonForm(e: Expr, ts: seq<Token>, rest: seq<Token>)
    decreases e, |ts|, 5
  {
    ComparedForm(e, ts, rest) || SumForm(e, ts, rest)
  }

  ghost predicate ComparedForm(e: Expr, ts: seq<Token>, rest: seq<Token>)
    decreases e, |ts|, 4
  {
    match e
    case Binary(l, Compare(op), r) =>
      op in {Eq, Lt, Gt, Le, Ge, Ne, BangEq}
      && exists mid :: SumForm(l, ts, [TOperator(op)] + mid) && SumForm(r, mid, rest)
    case Binary(l, Like, r) => exists mid :: SumForm(l, ts, [TKeyword(KwLike)] + mid) && SumForm(r, mid, rest)
    case Binary(l, Is, r) => r == Lit(NullLit) && SumForm(l, ts, [TKeyword(KwIs), TKeyword(KwNull)] + rest)
    case Binary(l, IsNot, r) =>
      r == Lit(NullLit) && SumForm(l, ts, [TKeyword(KwIs), TKeyword(KwNot), TKeyword(KwNull)] + rest)
    case In(l, list) =>
      list != [] && exists mid ::
        SumForm(l, ts, [TKeyword(KwIn), TLParen] + mid) && !IsKw(mid, KwSelect) && ListForm(list, mid, [TRParen] + rest)
    case Between(v, low, high) =>
      exists mid, mid' :: SumForm(v, ts, [TKeyword(KwBetween)] + mid)
                          && SumForm(low, mid, [TKeyword(KwAnd)] + mid') && SumForm(high, mid', rest)
    case _ => false
  }

  // sum := sum + product | product
  ghost predicate SumForm(e: Expr, ts: seq<Token>, rest: seq<Token>)
    decreases e, |ts|, 3
  {
    || (e.Binary? && e.bop.Arith? && e.bop.aop in {Plus, Minus, Concat}
        && exists mid :: SumForm(e.left, ts, [TOperator(e.bop.aop)] + mid) && ProductForm(e.right, mid, rest))
    || ProductForm(e, ts, rest)
  }

  // product := product / signed | signed
  ghost predicate ProductForm(e: Expr, ts: seq<Token>, rest: seq<Token>)
    decreases e, |ts|, 2
  {
    || (e.Binary? && e.bop.Arith? && e.bop.aop in {Times, Div, Mod}
        && exists mid :: ProductForm(e.left, ts, [TOperator(e.bop.aop)] + mid) && SignedForm(e.right, mid, rest))
    || SignedForm(e, ts, rest)
  }

  // signed := + signed | - signed | primary
  ghost predicate SignedForm(e: Expr, ts: seq<Token>, rest: seq<Token>)
    decreases e, |ts|, 1
  {
    if IsTok(ts, TOperator(Plus)) then e.Unary? && e.uop == Pos && SignedForm(e.operand, ts[1..], rest)
    else if IsTok(ts, TOperator(Minus)) then e.Unary? && e.uop == Neg && SignedForm(e.operand, ts[1..], rest)
    else PrimaryForm(e, ts, rest)
  }

  // The name a token may stand for at the start of an operand.
  function NameAt(t: Token): Option<string> {
    match t
    case TIdent(name) => Some(name)
    case TKeyword(k) => if Reserved(k) then None else Some(KeywordText(k))
    case _ => None
  }

  // Behind a dot every keyword is a name.
  predicate ColumnAt(t: Token, name: string) {
    t == TIdent(name) || (t.TKeyword? && KeywordText(t.kw) == name)
  }

  // primary := literal | star | name | name.name | name(arguments) | CASE ... END | (or)
  ghost predicate PrimaryForm(e: Expr, ts: seq<Token>, rest: seq<Token>)
    decreases e, |ts|, 0
  {
    if IsTok(ts, TLParen) then !IsKw(ts[1..], KwSelect) && OrForm(e, ts[1..], [TRParen] + rest)
    else
      match e
      case Lit(NullLit) => ts == [TKeyword(KwNull)] + rest
      case Lit(BoolLit(b)) => ts == [TKeyword(if b then KwTrue else KwFalse)] + rest
      case Lit(NumLit(n)) => ts == [TNumber(Some(n))] + rest
      case Lit(StrLit(s)) => ts == [TString(s)] + rest
      case Star => ts == [TStar] + rest
      case Column(table, name) =>
        || (table == "" && ts != [] && NameAt(ts[0]) == Some(name) && rest == ts[1..])
        || (|ts| > 2 && NameAt(ts[0]) == Some(table) && ts[1] == TDot && ColumnAt(ts[2], name) && rest == ts[3..])
      case Func(f, args) =>
        ts != [] && NameAt(ts[0]).Some? && f == Upper(NameAt(ts[0]).value) && IsTok(ts[1..], TLParen)
        && CallForm(args, ts[2..], rest)
      case Case(_, _, _) => IsKw(ts, KwCase) && CaseForm(e, ts[1..], rest)
      case _ => false
  }

  // The arguments of a call and its closing parenthesis. A star may only stand alone.
  ghost predicate CallForm(args: seq<Arg>, ts: seq<Token>, rest: seq<Token>)
    decreases args, 1
  {
    if IsTok(ts, TStar) then args == [Arg(false, Star)] && ts[1..] == [TRParen] + rest
    else if IsTok(ts, TRParen) then args == [] && ts[1..] == rest
    else args != [] && ArgsForm(args, ts, [TRParen] + rest)
  }

  // DISTINCT in front of an argument is never a name.
  ghost predicate ArgForm(a: Arg, ts: seq<Token>, rest: seq<Token>)
    decreases a, 0
  {
    if IsKw(ts, KwDistinct) then a.distinct && OrForm(a.e, ts[1..], rest) else !a.distinct && OrForm(a.e, ts, rest)
  }

  ghost predicate ArgsForm(args: seq<Arg>, ts: seq<Token>, rest: seq<Token>)
    requires args != []
    decreases args, 0
  {
    if |args| == 1 then ArgForm(args[0], ts, rest)
    else exists mid :: ArgForm(args[0], ts, [TComma] + mid) && ArgsForm(args[1..], mid, rest)
  }

  ghost predicate ListForm(es: seq<Expr>, ts: seq<Token>, rest: seq<Token>)
    requires es != []
    decreases es, 0
  {
    if |es| == 1 then OrForm(es[0], ts, rest)
    else exists mid :: OrForm(es[0], ts, [TComma] + mid) && ListForm(es[1..], mid, rest)
  }

  // What stands between CASE and the end: a subject, unless WHEN comes first, the branches, ELSE.
  ghost predicate CaseForm(e: Expr, ts: seq<Token>, rest: seq<Token>)
    requires e.Case?
    decreases e, |ts|, 0
  {
    exists mid, mid' ::
      SubjectForm(e.subject, ts, mid) && WhensForm(e.whens, mid, mid') && ElseForm(e.otherwise, mid', rest)
  }

  ghost predicate SubjectForm(s: Option<Expr>, ts: seq<Token>, rest: seq<Token>)
    decreases s, 0
  {
    if IsKw(ts, KwWhen) then s == None && rest == ts else s.Some? && OrForm(s.value, ts, rest)
  }

  ghost predicate WhenForm(w: When, ts: seq<Token>, rest: seq<Token>)
    decreases w, 0
  {
    IsKw(ts, KwWhen) && exists mid :: OrForm(w.cond, ts[1..], [TKeyword(KwThen)] + mid) && OrForm(w.then_, mid, rest)
  }

  ghost predicate WhensForm(whens: seq<When>, ts: seq<Token>, rest: seq<Token>)
    decreases whens, 0
  {
    if whens == [] then !IsKw(ts, KwWhen) && rest == ts
    else exists mid :: WhenForm(whens[0], ts, mid) && WhensForm(whens[1..], mid, rest)
  }

  ghost predicate ElseForm(o: Option<Expr>, ts: seq<Token>, rest: seq<Token>)
    decreases o, 0
  {
    if IsKw(ts, KwElse) then o.Some? && OrForm(o.value, ts[1..], [TKeyword(KwEnd)] + rest)
    else o == None && ts == [TKeyword(KwEnd)] + rest
  }

  // ---------------------------------------------------------------- what the parser reads is a form

  lemma {:induction false} OrSound(ts: seq<Token>)
    ensures POr(ts).Parsed? ==> OrForm(POr(ts).value, ts, POr(ts).rest)
    decreases |ts|, 17
  {
    hide PAnd, OrLoop, AndForm;
    AndSound(ts);
    match PAnd(ts) {
      case NoParse =>
      case Parsed(left, mid) => OrLoopSound(left, ts, mid);
    }
  }

  lemma {:induction false} OrLoopSound(left: Expr, ts: seq<Token>, mid: seq<Token>)
    requires OrForm(left, ts, mid)
    ensures OrLoop(left, mid).Parsed? ==> OrForm(OrLoop(left, mid).value, ts, OrLoop(left, mid).rest)
    decreases |mid|, 16
  {
    hide PAnd, AndForm;
    if IsKw(mid, KwOr) {
      AndSound(mid[1..]);
      match PAnd(mid[1..]) {
        case NoParse =>
        case Parsed(right, rest) =>
          assert mid == [TKeyword(KwOr)] + mid[1..];
          assert OrForm(Binary(left, Or, right), ts, rest);
          OrLoopSound(Binary(left, Or, right), ts, rest);
      }
    }
  }

  lemma {:induction false} AndSound(ts: seq<Token>)
    ensures PAnd(ts).Parsed? ==> AndForm(PAnd(ts).value, ts, PAnd(ts).rest)
    decreases |ts|, 15
  {
    hide PNot, AndLoop, NotForm;
    NotSound(ts);
    match PNot(ts) {
      case NoParse =>
      case Parsed(left, mid) => AndLoopSound(left, ts, mid);
    }
  }

  lemma {:induction false} AndLoopSound(left: Expr, ts: seq<Token>, mid: seq<Token>)
    requires AndForm(left, ts, mid)
    ensures AndLoop(left, mid).Parsed? ==> AndForm(AndLoop(left, mid).value, ts, AndLoop(left, mid).rest)
    decreases |mid|, 14
  {
    hide PNot, NotForm;
    if IsKw(mid, KwAnd) {
      NotSound(mid[1..]);
      match PNot(mid[1..]) {
        case NoParse =>
        case Parsed(right, rest) =>
          assert mid == [TKeyword(KwAnd)] + mid[1..];
          assert AndForm(Binary(left, And, right), ts, rest);
          AndLoopSound(Binary(left, And, right), ts, rest);
      }
    }
  }

  lemma {:induction false} NotSound(ts: seq<Token>)
    ensures PNot(ts).Parsed? ==> NotForm(PNot(ts).value, ts, PNot(ts).rest)
    decreases |ts|, 13
  {
    hide PComparison, ComparisonForm;
    ComparisonSound(if IsKw(ts, KwNot) then ts[1..] else ts);
  }

  lemma {:induction false} ComparisonSound(ts: seq<Token>)
    ensures PComparison(ts).Parsed? ==> ComparisonForm(PComparison(ts).value, ts, PComparison(ts).rest)
    decreases |ts|, 12
  {
    hide PAdditive, ComparisonTail, SumForm, ComparedForm;
    SumSound(ts);
    match PAdditive(ts) {
      case NoParse =>
      case Parsed(left, mid) => TailSound(left, ts, mid);
    }
  }

  lemma {:induction false} TailSound(left: Expr, ts: seq<Token>, mid: seq<Token>)
    requires SumForm(left, ts, mid)
    ensures ComparisonTail(left, mid).Parsed? ==>
              ComparisonForm(ComparisonTail(left, mid).value, ts, ComparisonTail(left, mid).rest)
    decreases |mid|, 11
  {
    hide PAdditive, PIn, PBetween, SumForm;
    if mid != [] {
      assert mid == [mid[0]] + mid[1..];
      if IsKw(mid, KwIs) {
        IsSound(left, ts, mid);
      } else if IsKw(mid, KwIn) {
        InSound(left, ts, mid);
      } else if IsKw(mid, KwBetween) {
        BetweenSound(left, ts, mid);
      } else {
        SumSound(mid[1..]);
      }
    }
  }

  lemma IsSound(left: Expr, ts: seq<Token>, mid: seq<Token>)
    requires SumForm(left, ts, mid) && IsKw(mid, KwIs)
    ensures ComparisonTail(left, mid).Parsed? ==>
              ComparisonForm(ComparisonTail(left, mid).value, ts, ComparisonTail(left, mid).rest)
  {
    hide PAdditive, PIn, PBetween, SumForm;
    if IsKw(mid[1..], KwNull) {
      assert mid == [TKeyword(KwIs), TKeyword(KwNull)] + mid[2..];
    } else if IsKw(mid[1..], KwNot) && IsKw(mid[2..], KwNull) {
      assert mid == [TKeyword(KwIs), TKeyword(KwNot), TKeyword(KwNull)] + mid[3..];
    }
  }

  lemma {:induction false} InSound(left: Expr, ts: seq<Token>, mid: seq<Token>)
    requires SumForm(left, ts, mid) && IsKw(mid, KwIn)
    ensures var r := PIn(left, mid[1..]); r.Parsed? ==> ComparedForm(r.value, ts, r.rest)
    decreases |mid|, 10
  {
    hide PList, SumForm, ListForm;
    if IsTok(mid[1..], TLParen) {
      var body := mid[1..][1..];
      assert mid == [TKeyword(KwIn), TLParen] + body;
      ListSound(body);
      match PList(body) {
        case NoParse =>
        case Parsed(list, close) =>
          if IsTok(close, TRParen) {
            assert close == [TRParen] + close[1..];
          }
      }
    }
  }

  lemma {:induction false} BetweenSound(left: Expr, ts: seq<Token>, mid: seq<Token>)
    requires SumForm(left, ts, mid) && IsKw(mid, KwBetween)
    ensures var r := PBetween(left, mid[1..]); r.Parsed? ==> ComparedForm(r.value, ts, r.rest)
    decreases |mid|, 10
  {
    hide PAdditive, SumForm;
    assert mid == [TKeyword(KwBetween)] + mid[1..];
    SumSound(mid[1..]);
    match PAdditive(mid[1..]) {
      case NoParse =>
      case Parsed(low, more) =>
        if IsKw(more, KwAnd) {
          assert more == [TKeyword(KwAnd)] + more[1..];
          SumSound(more[1..]);
        }
    }
  }

  lemma {:induction false} ListSound(ts: seq<Token>)
    ensures var r := PList(ts); r.Parsed? ==> ListForm(r.value, ts, r.rest)
    decreases |ts|, 18
  {
    hide POr, OrForm;
    OrSound(ts);
    match POr(ts) {
      case NoParse =>
      case Parsed(e, more) =>
        if IsTok(more, TComma) {
          assert more == [TComma] + more[1..];
          ListSound(more[1..]);
          match PList(more[1..]) {
            case NoParse =>
            case Parsed(es, rest) => assert ([e] + es)[1..] == es;
          }
        }
    }
  }

  lemma {:induction false} SumSound(ts: seq<Token>)
    ensures PAdditive(ts).Parsed? ==> SumForm(PAdditive(ts).value, ts, PAdditive(ts).rest)
    decreases |ts|, 9
  {
    hide PMultiplicative, AddLoop, ProductForm;
    ProductSound(ts);
    match PMultiplicative(ts) {
      case NoParse =>
      case Parsed(left, mid) => AddLoopSound(left, ts, mid);
    }
  }

  lemma {:induction false} AddLoopSound(left: Expr, ts: seq<Token>, mid: seq<Token>)
    requires SumForm(left, ts, mid)
    ensures AddLoop(left, mid).Parsed? ==> SumForm(AddLoop(left, mid).value, ts, AddLoop(left, mid).rest)
    decreases |mid|, 8
  {
    hide PMultiplicative, ProductForm;
    if mid != [] && mid[0].TOperator? && IsAddOp(mid[0].op) {
      ProductSound(mid[1..]);
      match PMultiplicative(mid[1..]) {
        case NoParse =>
        case Parsed(right, rest) =>
          var e := Binary(left, Arith(mid[0].op), right);
          assert mid == [TOperator(mid[0].op)] + mid[1..];
          assert SumForm(e, ts, rest);
          AddLoopSound(e, ts, rest);
      }
    }
  }

  lemma {:induction false} ProductSound(ts: seq<Token>)
    ensures PMultiplicative(ts).Parsed? ==> ProductForm(PMultiplicative(ts).value, ts, PMultiplicative(ts).rest)
    decreases |ts|, 7
  {
    hide PUnary, MulLoop, SignedForm;
    SignedSound(ts);
    match PUnary(ts) {
      case NoParse =>
      case Parsed(left, mid) => MulLoopSound(left, ts, mid);
    }
  }

  lemma {:induction false} MulLoopSound(left: Expr, ts: seq<Token>, mid: seq<Token>)
    requires ProductForm(left, ts, mid)
    ensures MulLoop(left, mid).Parsed? ==> ProductForm(MulLoop(left, mid).value, ts, MulLoop(left, mid).rest)
    decreases |mid|, 6
  {
    hide PUnary, SignedForm;
    if mid != [] && mid[0].TOperator? && IsMulOp(mid[0].op) {
      SignedSound(mid[1..]);
      match PUnary(mid[1..]) {
        case NoParse =>
        case Parsed(right, rest) =>
          var e := Binary(left, Arith(mid[0].op), right);
          assert mid == [TOperator(mid[0].op)] + mid[1..];
          assert ProductForm(e, ts, rest);
          MulLoopSound(e, ts, rest);
      }
    }
  }

  lemma {:induction false} SignedSound(ts: seq<Token>)
    ensures PUnary(ts).Parsed? ==> SignedForm(PUnary(ts).value, ts, PUnary(ts).rest)
    decreases |ts|, 5
  {
    hide PPrimary, PrimaryForm;
    if IsTok(ts, TOperator(Plus)) || IsTok(ts, TOperator(Minus)) {
      SignedSound(ts[1..]);
    } else {
      PrimarySound(ts);
    }
  }

  lemma {:induction false} PrimarySound(ts: seq<Token>)
    ensures PPrimary(ts).Parsed? ==> PrimaryForm(PPrimary(ts).value, ts, PPrimary(ts).rest)
    decreases |ts|, 4
  {
    hide PCall, PCase, POr, OrForm, CallForm, CaseForm, KeywordText, Upper;
    if ts != [] {
      assert ts == [ts[0]] + ts[1..];
      if NameAt(ts[0]).Some? {
        NameSound(ts);
      } else if ts[0] == TLParen {
        OrSound(ts[1..]);
        var r := POr(ts[1..]);
        if r.Parsed? && IsTok(r.rest, TRParen) {
          assert r.rest == [TRParen] + r.rest[1..];
        }
      } else if ts[0] == TKeyword(KwCase) {
        CaseSound(ts[1..]);
      }
    }
  }

  lemma {:induction false} NameSound(ts: seq<Token>)
    requires ts != [] && NameAt(ts[0]).Some?
    ensures var r := PIdent(NameAt(ts[0]).value, ts[1..]); r.Parsed? ==> PrimaryForm(r.value, ts, r.rest)
    decreases |ts|, 3
  {
    hide PCall, CallForm, KeywordText, Upper, OrForm, CaseForm;
    if IsTok(ts[1..], TLParen) {
      assert ts[1..][1..] == ts[2..];
      CallSound(Upper(NameAt(ts[0]).value), ts[2..]);
    } else if IsTok(ts[1..], TDot) && |ts| > 2 {
      assert ts[1..][1] == ts[2] && ts[1..][2..] == ts[3..];
    }
  }

  lemma {:induction false} CallSound(f: string, ts: seq<Token>)
    ensures var r := PCall(f, ts);
            r.Parsed? ==> r.value.Func? && r.value.fname == f && CallForm(r.value.args, ts, r.rest)
    decreases |ts|, 20
  {
    hide PArgs, ArgsForm;
    if IsTok(ts, TStar) {
      if IsTok(ts[1..], TRParen) {
        assert ts[1..] == [TRParen] + ts[1..][1..];
      }
    } else if !IsTok(ts, TRParen) {
      ArgsSound(ts);
      match PArgs(ts) {
        case NoParse =>
        case Parsed(args, close) =>
          if IsTok(close, TRParen) {
            assert close == [TRParen] + close[1..];
          }
      }
    }
  }

  lemma {:induction false} ArgSound(ts: seq<Token>)
    ensures var r := PArg(ts); r.Parsed? ==> ArgForm(r.value, ts, r.rest)
    decreases |ts|, 18
  {
    hide POr, OrForm;
    OrSound(if IsKw(ts, KwDistinct) then ts[1..] else ts);
  }

  lemma {:induction false} ArgsSound(ts: seq<Token>)
    ensures var r := PArgs(ts); r.Parsed? ==> r.value != [] && ArgsForm(r.value, ts, r.rest)
    decreases |ts|, 19
  {
    hide PArg, ArgForm;
    ArgSound(ts);
    match PArg(ts) {
      case NoParse =>
      case Parsed(a, more) =>
        if IsTok(more, TComma) {
          assert more == [TComma] + more[1..];
          ArgsSound(more[1..]);
          match PArgs(more[1..]) {
            case NoParse =>
            case Parsed(args, rest) => assert ([a] + args)[1..] == args;
          }
        }
    }
  }

  lemma {:induction false} CaseSound(ts: seq<Token>)
    ensures var r := PCase(ts); r.Parsed? ==> r.value.Case? && CaseForm(r.value, ts, r.rest)
    decreases |ts|, 20
  {
    hide POr, CaseTail, OrForm, WhensForm, ElseForm;
    if IsKw(ts, KwWhen) {
      CaseTailSound(None, ts, ts);
    } else {
      OrSound(ts);
      match POr(ts) {
        case NoParse =>
        case Parsed(subject, mid) => CaseTailSound(Some(subject), ts, mid);
      }
    }
  }

  lemma {:induction false} CaseTailSound(s: Option<Expr>, ts: seq<Token>, mid: seq<Token>)
    requires SubjectForm(s, ts, mid)
    ensures var r := CaseTail(s, mid); r.Parsed? ==> r.value.Case? && CaseForm(r.value, ts, r.rest)
    decreases |mid|, 19
  {
    hide POr, PWhens, OrForm, WhensForm, SubjectForm;
    WhensSound(mid);
    match PWhens(mid) {
      case NoParse =>
      case Parsed(whens, more) =>
        if IsKw(more, KwElse) {
          OrSound(more[1..]);
          match POr(more[1..]) {
            case NoParse =>
            case Parsed(e, end) =>
              if IsKw(end, KwEnd) {
                assert end == [TKeyword(KwEnd)] + end[1..];
                assert ElseForm(Some(e), more, end[1..]);
              }
          }
        } else if IsKw(more, KwEnd) {
          assert more == [TKeyword(KwEnd)] + more[1..];
          assert ElseForm(None, more, more[1..]);
        }
    }
  }

  lemma {:induction false} WhensSound(ts: seq<Token>)
    ensures var r := PWhens(ts); r.Parsed? ==> WhensForm(r.value, ts, r.rest)
    decreases |ts|, 18
  {
    hide POr, PWhen, OrForm, WhenForm;
    if IsKw(ts, KwWhen) {
      WhenSound(ts);
      match PWhen(ts[1..]) {
        case NoParse =>
        case Parsed(w, mid) =>
          WhensSound(mid);
          match PWhens(mid) {
            case NoParse =>
            case Parsed(whens, rest) => assert ([w] + whens)[1..] == whens;
          }
      }
    }
  }

  lemma {:induction false} WhenSound(ts: seq<Token>)
    requires IsKw(ts, KwWhen)
    ensures var r := PWhen(ts[1..]); r.Parsed? ==> WhenForm(r.value, ts, r.rest)
    decreases |ts|, 17
  {
    hide POr, OrForm;
    OrSound(ts[1..]);
    match POr(ts[1..]) {
      case NoParse =>
      case Parsed(cond, mid) =>
        if IsKw(mid, KwThen) {
          assert mid == [TKeyword(KwThen)] + mid[1..];
          OrSound(mid[1..]);
        }
    }
  }

  // ---------------------------------------------------------------- every form is read

  // Tokens that would make the parser go on after a complete operand of precedence `level`.
  predicate Continues(level: int, t: Token) {
    || t == TLParen || t == TDot
    || (level <= 5 && t.TOperator? && IsMulOp(t.op))
    || (level <= 4 && t.TOperator? && IsAddOp(t.op))
    || (level <= 3 && t.TOperator? && IsCompareOp(t.op))
    || (level <= 3 && t.TKeyword? && (t.kw == KwIs || t.kw == KwIn || t.kw == KwBetween || t.kw == KwLike))
    || (level <= 1 && t == TKeyword(KwAnd))
    || (level <= 0 && t == TKeyword(KwOr))
  }

  predicate Stops(level: int, rest: seq<Token>) {
    rest == [] || !Continues(level, rest[0])
  }

  lemma {:induction false} OrRead(e: Expr, ts: seq<Token>, rest: seq<Token>)
    requires OrForm(e, ts, rest) && Stops(0, rest)
    ensures POr(ts) == Parsed(e, rest)
    decreases e, |ts|, 20
  {
    hide POr, OrForm;
    OrChain(e, ts, rest);
  }

  // An OR chain leaves the loop of parseOrExpr with the whole chain as its left operand.
  lemma {:induction false} OrChain(e: Expr, ts: seq<Token>, rest: seq<Token>)
    requires OrForm(e, ts, rest) && Stops(1, rest)
    ensures POr(ts) == OrLoop(e, rest)
    decreases e, |ts|, 19
  {
    hide PAnd, AndForm;
    if AndForm(e, ts, rest) {
      AndRead(e, ts, rest);
    } else {
      var mid :| OrForm(e.left, ts, [TKeyword(KwOr)] + mid) && AndForm(e.right, mid, rest);
      OrChain(e.left, ts, [TKeyword(KwOr)] + mid);
      AndRead(e.right, mid, rest);
      assert ([TKeyword(KwOr)] + mid)[1..] == mid;
    }
  }

  lemma {:induction false} AndRead(e: Expr, ts: seq<Token>, rest: seq<Token>)
    requires AndForm(e, ts, rest) && Stops(1, rest)
    ensures PAnd(ts) == Parsed(e, rest)
    decreases e, |ts|, 18
  {
    hide PAnd, AndForm;
    AndChain(e, ts, rest);
  }

  lemma {:induction false} AndChain(e: Expr, ts: seq<Token>, rest: seq<Token>)
    requires AndForm(e, ts, rest) && Stops(2, rest)
    ensures PAnd(ts) == AndLoop(e, rest)
    decreases e, |ts|, 17
  {
    hide PNot, NotForm;
    if NotForm(e, ts, rest) {
      NotRead(e, ts, rest);
    } else {
      var mid :| AndForm(e.left, ts, [TKeyword(KwAnd)] + mid) && NotForm(e.right, mid, rest);
      AndChain(e.left, ts, [TKeyword(KwAnd)] + mid);
      NotRead(e.right, mid, rest);
      assert ([TKeyword(KwAnd)] + mid)[1..] == mid;
    }
  }

  lemma {:induction false} NotRead(e: Expr, ts: seq<Token>, rest: seq<Token>)
    requires NotForm(e, ts, rest) && Stops(2, rest)
    ensures PNot(ts) == Parsed(e, rest)
    decreases e, |ts|, 16
  {
    hide PComparison, ComparisonForm;
    if IsKw(ts, KwNot) {
      ComparisonRead(e.operand, ts[1..], rest);
    } else {
      ComparisonRead(e, ts, rest);
    }
  }

  lemma {:induction false} ComparisonRead(e: Expr, ts: seq<Token>, rest: seq<Token>)
    requires ComparisonForm(e, ts, rest) && Stops(3, rest)
    ensures PComparison(ts) == Parsed(e, rest)
    decreases e, |ts|, 15
  {
    hide PAdditive, SumForm, ComparedForm;
    if SumForm(e, ts, rest) {
      SumRead(e, ts, rest);
    } else {
      ComparedRead(e, ts, rest);
    }
  }

  lemma {:induction false} ComparedRead(e: Expr, ts: seq<Token>, rest: seq<Token>)
    requires ComparedForm(e, ts, rest) && Stops(3, rest)
    ensures PComparison(ts) == Parsed(e, rest)
    decreases e, |ts|, 14
  {
    hide PComparison, PAdditive, ComparisonTail, SumForm, ListForm;
    match e {
      case Binary(l, Compare(op), r) =>
        var mid :| SumForm(l, ts, [TOperator(op)] + mid) && SumForm(r, mid, rest);
        SumRead(l, ts, [TOperator(op)] + mid);
        SumRead(r, mid, rest);
        ComparisonOf(ts, l, [TOperator(op)] + mid);
        OperatorTail(l, op, r, mid, rest);
      case Binary(l, Like, r) =>
        var mid :| SumForm(l, ts, [TKeyword(KwLike)] + mid) && SumForm(r, mid, rest);
        SumRead(l, ts, [TKeyword(KwLike)] + mid);
        SumRead(r, mid, rest);
        ComparisonOf(ts, l, [TKeyword(KwLike)] + mid);
        LikeTail(l, r, mid, rest);
      case Binary(l, Is, r) =>
        SumRead(l, ts, [TKeyword(KwIs), TKeyword(KwNull)] + rest);
        ComparisonOf(ts, l, [TKeyword(KwIs), TKeyword(KwNull)] + rest);
        IsNullTail(l, rest);
      case Binary(l, IsNot, r) =>
        SumRead(l, ts, [TKeyword(KwIs), TKeyword(KwNot), TKeyword(KwNull)] + rest);
        ComparisonOf(ts, l, [TKeyword(KwIs), TKeyword(KwNot), TKeyword(KwNull)] + rest);
        IsNullTail(l, rest);
      case In(l, list) =>
        var mid :| SumForm(l, ts, [TKeyword(KwIn), TLParen] + mid) && !IsKw(mid, KwSelect)
                   && ListForm(list, mid, [TRParen] + rest);
        SumRead(l, ts, [TKeyword(KwIn), TLParen] + mid);
        ListRead(list, mid, [TRParen] + rest);
        ComparisonOf(ts, l, [TKeyword(KwIn), TLParen] + mid);
        InTail(l, list, mid, rest);
      case Between(v, low, high) =>
        var mid, mid' :| SumForm(v, ts, [TKeyword(KwBetween)] + mid)
                         && SumForm(low, mid, [TKeyword(KwAnd)] + mid') && SumForm(high, mid', rest);
        SumRead(v, ts, [TKeyword(KwBetween)] + mid);
        SumRead(low, mid, [TKeyword(KwAnd)] + mid');
        SumRead(high, mid', rest);
        ComparisonOf(ts, v, [TKeyword(KwBetween)] + mid);
        BetweenTail(v, low, high, mid, mid', rest);
    }
  }

  lemma ComparisonOf(ts: seq<Token>, left: Expr, rest: seq<Token>)
    requires PAdditive(ts) == Parsed(left, rest)
    ensures PComparison(ts) == ComparisonTail(left, rest)
  {
    hide PAdditive, ComparisonTail;
  }

  lemma OperatorTail(l: Expr, op: Operator, r: Expr, more: seq<Token>, rest: seq<Token>)
    requires IsCompareOp(op) && PAdditive(more) == Parsed(r, rest)
    ensures ComparisonTail(l, [TOperator(op)] + more) == Parsed(Binary(l, Compare(op), r), rest)
  {
    hide PAdditive;
    assert ([TOperator(op)] + more)[1..] == more;
  }

  lemma LikeTail(l: Expr, r: Expr, more: seq<Token>, rest: seq<Token>)
    requires PAdditive(more) == Parsed(r, rest)
    ensures ComparisonTail(l, [TKeyword(KwLike)] + more) == Parsed(Binary(l, Like, r), rest)
  {
    hide PAdditive;
    assert ([TKeyword(KwLike)] + more)[1..] == more;
  }

  lemma IsNullTail(l: Expr, rest: seq<Token>)
    ensures ComparisonTail(l, [TKeyword(KwIs), TKeyword(KwNull)] + rest) == Parsed(Binary(l, Is, Lit(NullLit)), rest)
    ensures ComparisonTail(l, [TKeyword(KwIs), TKeyword(KwNot), TKeyword(KwNull)] + rest) ==
            Parsed(Binary(l, IsNot, Lit(NullLit)), rest)
  {
    var a, b := [TKeyword(KwIs), TKeyword(KwNull)] + rest, [TKeyword(KwIs), TKeyword(KwNot), TKeyword(KwNull)] + rest;
    assert a[2..] == rest && b[3..] == rest;
    assert a[1..][0] == a[1] && b[1..][0] == b[1] && b[2..][0] == b[2];
  }

  lemma InTail(l: Expr, list: seq<Expr>, body: seq<Token>, rest: seq<Token>)
    requires PList(body) == Parsed(list, [TRParen] + rest) && !IsKw(body, KwSelect)
    ensures ComparisonTail(l, [TKeyword(KwIn), TLParen] + body) == Parsed(In(l, list), rest)
  {
    hide PList, PAdditive;
    var tail := [TKeyword(KwIn), TLParen] + body;
    assert tail[1..] == [TLParen] + body && ([TLParen] + body)[1..] == body;
    assert ([TRParen] + rest)[1..] == rest;
    assert PIn(l, [TLParen] + body) == Parsed(In(l, list), rest);
  }

  lemma BetweenTail(v: Expr, lo: Expr, hi: Expr, b: seq<Token>, c: seq<Token>, rest: seq<Token>)
    requires PAdditive(b) == Parsed(lo, [TKeyword(KwAnd)] + c) && PAdditive(c) == Parsed(hi, rest)
    ensures ComparisonTail(v, [TKeyword(KwBetween)] + b) == Parsed(Between(v, lo, hi), rest)
  {
    hide PAdditive;
    assert ([TKeyword(KwBetween)] + b)[1..] == b && ([TKeyword(KwAnd)] + c)[1..] == c;
    assert PBetween(v, b) == Parsed(Between(v, lo, hi), rest);
  }

  lemma {:induction false} ListRead(es: seq<Expr>, ts: seq<Token>, rest: seq<Token>)
    requires es != [] && ListForm(es, ts, rest) && IsTok(rest, TRParen)
    ensures PList(ts) == Parsed(es, rest)
    decreases es, |ts|, 0
  {
    hide POr, OrForm;
    if |es| == 1 {
      OrRead(es[0], ts, rest);
      assert es == [es[0]];
    } else {
      var mid :| OrForm(es[0], ts, [TComma] + mid) && ListForm(es[1..], mid, rest);
      OrRead(es[0], ts, [TComma] + mid);
      ListRead(es[1..], mid, rest);
      assert ([TComma] + mid)[1..] == mid && es == [es[0]] + es[1..];
    }
  }

  lemma {:induction false} SumRead(e: Expr, ts: seq<Token>, rest: seq<Token>)
    requires SumForm(e, ts, rest) && Stops(4, rest)
    ensures PAdditive(ts) == Parsed(e, rest)
    decreases e, |ts|, 13
  {
    hide PAdditive, SumForm;
    SumChain(e, ts, rest);
  }

  lemma {:induction false} SumChain(e: Expr, ts: seq<Token>, rest: seq<Token>)
    requires SumForm(e, ts, rest) && Stops(5, rest)
    ensures PAdditive(ts) == AddLoop(e, rest)
    decreases e, |ts|, 12
  {
    hide PMultiplicative, ProductForm;
    if ProductForm(e, ts, rest) {
      ProductRead(e, ts, rest);
    } else {
      var t := TOperator(e.bop.aop);
      var mid :| SumForm(e.left, ts, [t] + mid) && ProductForm(e.right, mid, rest);
      SumChain(e.left, ts, [t] + mid);
      ProductRead(e.right, mid, rest);
      assert ([t] + mid)[1..] == mid;
    }
  }

  lemma {:induction false} ProductRead(e: Expr, ts: seq<Token>, rest: seq<Token>)
    requires ProductForm(e, ts, rest) && Stops(5, rest)
    ensures PMultiplicative(ts) == Parsed(e, rest)
    decreases e, |ts|, 11
  {
    hide PMultiplicative, ProductForm;
    ProductChain(e, ts, rest);
  }

  lemma {:induction false} ProductChain(e: Expr, ts: seq<Token>, rest: seq<Token>)
    requires ProductForm(e, ts, rest) && Stops(6, rest)
    ensures PMultiplicative(ts) == MulLoop(e, rest)
    decreases e, |ts|, 10
  {
    hide PUnary, SignedForm;
    if SignedForm(e, ts, rest) {
      SignedRead(e, ts, rest);
    } else {
      var t := TOperator(e.bop.aop);
      var mid :| ProductForm(e.left, ts, [t] + mid) && SignedForm(e.right, mid, rest);
      ProductChain(e.left, ts, [t] + mid);
      SignedRead(e.right, mid, rest);
      assert ([t] + mid)[1..] == mid;
    }
  }

  lemma {:induction false} SignedRead(e: Expr, ts: seq<Token>, rest: seq<Token>)
    requires SignedForm(e, ts, rest) && Stops(6, rest)
    ensures PUnary(ts) == Parsed(e, rest)
    decreases e, |ts|, 9
  {
    hide PPrimary, PrimaryForm;
    if IsTok(ts, TOperator(Plus)) || IsTok(ts, TOperator(Minus)) {
      SignedRead(e.operand, ts[1..], rest);
    } else {
      PrimaryRead(e, ts, rest);
    }
  }

  lemma {:induction false} PrimaryRead(e: Expr, ts: seq<Token>, rest: seq<Token>)
    requires PrimaryForm(e, ts, rest) && Stops(7, rest)
    ensures PPrimary(ts) == Parsed(e, rest)
    decreases e, |ts|, 8
  {
    hide PCall, PCase, POr, OrForm, CallForm, CaseForm, KeywordText, Upper;
    if IsTok(ts, TLParen) {
      OrRead(e, ts[1..], [TRParen] + rest);
      assert ([TRParen] + rest)[1..] == rest;
    } else {
      match e {
        case Lit(_) => assert ts[1..] == rest;
        case Star => assert ts[1..] == rest;
        case Column(_, _) => ColumnRead(e, ts, rest);
        case Func(_, args) =>
          CallRead(e.fname, args, ts[2..], rest);
          assert ts[1..][1..] == ts[2..];
        case Case(_, _, _) => CaseRead(e, ts[1..], rest);
      }
    }
  }

  lemma ColumnRead(e: Expr, ts: seq<Token>, rest: seq<Token>)
    requires e.Column? && PrimaryForm(e, ts, rest) && Stops(7, rest) && !IsTok(ts, TLParen)
    ensures PPrimary(ts) == Parsed(e, rest)
  {
    hide PCall, PCase, PParen, OrForm, CallForm, CaseForm, KeywordText, Upper;
    if IsTok(ts[1..], TDot) {
      assert ts[1..][1] == ts[2] && ts[1..][2..] == ts[3..];
    }
  }

  lemma {:induction false} CallRead(f: string, args: seq<Arg>, ts: seq<Token>, rest: seq<Token>)
    requires CallForm(args, ts, rest)
    ensures PCall(f, ts) == Parsed(Func(f, args), rest)
    decreases args, |ts|, 1
  {
    hide PArgs, ArgsForm;
    assert ([TRParen] + rest)[1..] == rest;
    if !IsTok(ts, TStar) && !IsTok(ts, TRParen) {
      ArgsRead(args, ts, [TRParen] + rest);
    }
  }

  lemma {:induction false} ArgRead(a: Arg, ts: seq<Token>, rest: seq<Token>)
    requires ArgForm(a, ts, rest) && Stops(0, rest)
    ensures PArg(ts) == Parsed(a, rest)
    decreases a, |ts|, 0
  {
    hide POr, OrForm;
    OrRead(a.e, if IsKw(ts, KwDistinct) then ts[1..] else ts, rest);
  }

  lemma {:induction false} ArgsRead(args: seq<Arg>, ts: seq<Token>, rest: seq<Token>)
    requires args != [] && ArgsForm(args, ts, rest) && IsTok(rest, TRParen)
    ensures PArgs(ts) == Parsed(args, rest)
    decreases args, |ts|, 0
  {
    hide PArg, ArgForm;
    if |args| == 1 {
      ArgRead(args[0], ts, rest);
      assert args == [args[0]];
    } else {
      var mid :| ArgForm(args[0], ts, [TComma] + mid) && ArgsForm(args[1..], mid, rest);
      ArgRead(args[0], ts, [TComma] + mid);
      ArgsRead(args[1..], mid, rest);
      assert ([TComma] + mid)[1..] == mid && args == [args[0]] + args[1..];
    }
  }

  lemma {:induction false} CaseRead(e: Expr, ts: seq<Token>, rest: seq<Token>)
    requires e.Case? && CaseForm(e, ts, rest)
    ensures PCase(ts) == Parsed(e, rest)
    decreases e, |ts|, 7
  {
    hide POr, PWhens, OrForm, WhensForm;
    var mid, mid' :|
      SubjectForm(e.subject, ts, mid) && WhensForm(e.whens, mid, mid') && ElseForm(e.otherwise, mid', rest);
    WhensRead(e.whens, mid, mid');
    assert ([TKeyword(KwEnd)] + rest)[1..] == rest;
    if e.otherwise.Some? {
      OrRead(e.otherwise.value, mid'[1..], [TKeyword(KwEnd)] + rest);
    }
    if e.subject.Some? {
      WhensBegin(e.whens, mid, mid');
      OrRead(e.subject.value, ts, mid);
    }
  }

  // What follows the subject is WHEN, ELSE or END.
  lemma WhensBegin(whens: seq<When>, ts: seq<Token>, rest: seq<Token>)
    requires WhensForm(whens, ts, rest) && (IsKw(rest, KwElse) || IsKw(rest, KwEnd))
    ensures IsKw(ts, KwWhen) || IsKw(ts, KwElse) || IsKw(ts, KwEnd)
  {
    hide OrForm;
  }

  lemma {:induction false} WhensRead(whens: seq<When>, ts: seq<Token>, rest: seq<Token>)
    requires WhensForm(whens, ts, rest) && (IsKw(rest, KwElse) || IsKw(rest, KwEnd))
    ensures PWhens(ts) == Parsed(whens, rest)
    decreases whens, |ts|, 0
  {
    hide PWhen, OrForm;
    if whens != [] {
      var mid :| WhenForm(whens[0], ts, mid) && WhensForm(whens[1..], mid, rest);
      WhensBegin(whens[1..], mid, rest);
      WhenRead(whens[0], ts, mid);
      WhensRead(whens[1..], mid, rest);
      assert whens == [whens[0]] + whens[1..];
    }
  }

  lemma {:induction false} WhenRead(w: When, ts: seq<Token>, rest: seq<Token>)
    requires WhenForm(w, ts, rest) && Stops(0, rest)
    ensures PWhen(ts[1..]) == Parsed(w, rest)
    decreases w, |ts|, 0
  {
    hide POr, OrForm;
    var mid :| OrForm(w.cond, ts[1..], [TKeyword(KwThen)] + mid) && OrForm(w.then_, mid, rest);
    OrRead(w.cond, ts[1..], [TKeyword(KwThen)] + mid);
    OrRead(w.then_, mid, rest);
    assert ([TKeyword(KwThen)] + mid)[1..] == mid;
  }

  // ---------------------------------------------------------------- main results

  // The parser takes a whole token sequence for a tree exactly when the tokens spell that tree.
  lemma ParserAcceptsTheLanguage(e: Expr, ts: seq<Token>)
    ensures POr(ts) == Parsed(e, []) <==> OrForm(e, ts, [])
  {
    hide POr, OrForm;
    OrSound(ts);
    if OrForm(e, ts, []) {
      OrRead(e, ts, []);
    }
  }

  // No tokens spell two trees.
  lemma LanguageIsUnambiguous(a: Expr, b: Expr, ts: seq<Token>)
    requires OrForm(a, ts, []) && OrForm(b, ts, [])
    ensures a == b
  {
    hide POr, OrForm;
    OrRead(a, ts, []);
    OrRead(b, ts, []);
  }
}
