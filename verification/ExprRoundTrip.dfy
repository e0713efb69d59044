// The expression parser inverts the printer.

module ExprRoundTrip {
  import opened Collections
  import opened ExprAst
  import opened ExprGrammar
  import opened ExprLanguage

  // The tokens a printed operand of precedence `level` can begin with.
  predicate Begins(level: int, t: Token) {
    || t.TNumber? || t.TString? || t.TIdent? || t == TLParen
    || (t.TKeyword? && (t.kw == KwNull || t.kw == KwTrue || t.kw == KwFalse || t.kw == KwCase))
    || (level <= 6 && (t == TOperator(Plus) || t == TOperator(Minus)))
    || (level <= 2 && t == TKeyword(KwNot))
  }

  lemma {:induction false} EmitBegins(e: Expr, level: int, rest: seq<Token>)
    requires 0 <= level <= 7
    ensures Emit(e, level, rest) != [] && Begins(level, Emit(e, level, rest)[0])
    decreases e
  {
    if Level(e) >= level {
      match e {
        case Binary(l, Or, r) => EmitBegins(l, 0, [TKeyword(KwOr)] + Emit(r, 1, rest));
        case Binary(l, And, r) => EmitBegins(l, 1, [TKeyword(KwAnd)] + Emit(r, 2, rest));
        case Binary(l, Compare(op), r) => EmitBegins(l, 4, [OperatorToken(op)] + Emit(r, 4, rest));
        case Binary(l, Like, r) => EmitBegins(l, 4, [TKeyword(KwLike)] + Emit(r, 4, rest));
        case Binary(l, Is, _) => EmitBegins(l, 4, [TKeyword(KwIs), TKeyword(KwNull)] + rest);
        case Binary(l, IsNot, _) => EmitBegins(l, 4, [TKeyword(KwIs), TKeyword(KwNot), TKeyword(KwNull)] + rest);
        case Binary(l, Arith(op), r) =>
          var k := if IsAddOp(op) then 4 else 5;
          EmitBegins(l, k, [OperatorToken(op)] + Emit(r, k + 1, rest));
        case In(l, list) => EmitBegins(l, 4, [TKeyword(KwIn), TLParen] + EmitList(list, [TRParen] + rest));
        case Between(v, lo, hi) =>
          EmitBegins(v, 4, [TKeyword(KwBetween)] + Emit(lo, 4, [TKeyword(KwAnd)] + Emit(hi, 4, rest)));
        case _ =>
      }
    }
  }

  lemma NotOwnLevel(e: Expr, level: int, rest: seq<Token>)
    requires Level(e) != level
    ensures Emit(e, level, rest) == Emit(e, level + 1, rest)
  {
  }

  function Parens(e: Expr, level: int): int {
    if Level(e) < level then 1 else 0
  }

  // ---------------------------------------------------------------- printed forms

  lemma {:induction false} OrPrinted(e: Expr, rest: seq<Token>)
    requires WF(e)
    ensures OrForm(e, Emit(e, 0, rest), rest)
    decreases e, Parens(e, 0), 8
  {
    hide AndForm;
    if e.Binary? && e.bop == Or {
      var more := Emit(e.right, 1, rest);
      OrPrinted(e.left, [TKeyword(KwOr)] + more);
      AndPrinted(e.right, rest);
    } else {
      NotOwnLevel(e, 0, rest);
      AndPrinted(e, rest);
    }
  }

  lemma {:induction false} AndPrinted(e: Expr, rest: seq<Token>)
    requires WF(e)
    ensures AndForm(e, Emit(e, 1, rest), rest)
    decreases e, Parens(e, 1), 7
  {
    hide NotForm;
    if e.Binary? && e.bop == And {
      var more := Emit(e.right, 2, rest);
      AndPrinted(e.left, [TKeyword(KwAnd)] + more);
      NotPrinted(e.right, rest);
    } else {
      NotOwnLevel(e, 1, rest);
      NotPrinted(e, rest);
    }
  }

  lemma {:induction false} NotPrinted(e: Expr, rest: seq<Token>)
    requires WF(e)
    ensures NotForm(e, Emit(e, 2, rest), rest)
    decreases e, Parens(e, 2), 6
  {
    hide ComparisonForm;
    if e.Unary? && e.uop == Not {
      ComparisonPrinted(e.operand, rest);
      assert ([TKeyword(KwNot)] + Emit(e.operand, 3, rest))[1..] == Emit(e.operand, 3, rest);
    } else {
      NotOwnLevel(e, 2, rest);
      ComparisonPrinted(e, rest);
      EmitBegins(e, 3, rest);
    }
  }

  lemma {:induction false} ComparisonPrinted(e: Expr, rest: seq<Token>)
    requires WF(e)
    ensures ComparisonForm(e, Emit(e, 3, rest), rest)
    decreases e, Parens(e, 3), 5
  {
    hide SumForm, ListForm;
    if Level(e) == 3 {
      match e {
        case Binary(l, Compare(op), r) =>
          SumPrinted(l, [TOperator(op)] + Emit(r, 4, rest));
          SumPrinted(r, rest);
        case Binary(l, Like, r) =>
          SumPrinted(l, [TKeyword(KwLike)] + Emit(r, 4, rest));
          SumPrinted(r, rest);
        case Binary(l, Is, _) => SumPrinted(l, [TKeyword(KwIs), TKeyword(KwNull)] + rest);
        case Binary(l, IsNot, _) => SumPrinted(l, [TKeyword(KwIs), TKeyword(KwNot), TKeyword(KwNull)] + rest);
        case In(l, list) =>
          SumPrinted(l, [TKeyword(KwIn), TLParen] + EmitList(list, [TRParen] + rest));
          ListPrinted(list, [TRParen] + rest);
          EmitBegins(list[0], 0, (if |list| > 1 then [TComma] else []) + EmitList(list[1..], [TRParen] + rest));
        case Between(v, low, high) =>
          var more := Emit(low, 4, [TKeyword(KwAnd)] + Emit(high, 4, rest));
          SumPrinted(v, [TKeyword(KwBetween)] + more);
          SumPrinted(low, [TKeyword(KwAnd)] + Emit(high, 4, rest));
          SumPrinted(high, rest);
      }
    } else {
      NotOwnLevel(e, 3, rest);
      SumPrinted(e, rest);
    }
  }

  lemma {:induction false} ListPrinted(es: seq<Expr>, rest: seq<Token>)
    requires WFList(es) && es != []
    ensures ListForm(es, EmitList(es, rest), rest)
    decreases es, 0, 0
  {
    hide OrForm, Emit;
    if |es| > 1 {
      OrPrinted(es[0], [TComma] + EmitList(es[1..], rest));
      ListPrinted(es[1..], rest);
    } else {
      assert [] + EmitList(es[1..], rest) == rest;
      OrPrinted(es[0], rest);
    }
  }

  lemma {:induction false} SumPrinted(e: Expr, rest: seq<Token>)
    requires WF(e)
    ensures SumForm(e, Emit(e, 4, rest), rest)
    decreases e, Parens(e, 4), 4
  {
    hide ProductForm;
    if Level(e) == 4 {
      var more := Emit(e.right, 5, rest);
      SumPrinted(e.left, [TOperator(e.bop.aop)] + more);
      ProductPrinted(e.right, rest);
    } else {
      NotOwnLevel(e, 4, rest);
      ProductPrinted(e, rest);
    }
  }

  lemma {:induction false} ProductPrinted(e: Expr, rest: seq<Token>)
    requires WF(e)
    ensures ProductForm(e, Emit(e, 5, rest), rest)
    decreases e, Parens(e, 5), 3
  {
    hide SignedForm;
    if Level(e) == 5 {
      var more := Emit(e.right, 6, rest);
      ProductPrinted(e.left, [TOperator(e.bop.aop)] + more);
      SignedPrinted(e.right, rest);
    } else {
      NotOwnLevel(e, 5, rest);
      SignedPrinted(e, rest);
    }
  }

  lemma {:induction false} SignedPrinted(e: Expr, rest: seq<Token>)
    requires WF(e)
    ensures SignedForm(e, Emit(e, 6, rest), rest)
    decreases e, Parens(e, 6), 2
  {
    hide PrimaryForm;
    if e.Unary? && e.uop != Not {
      SignedPrinted(e.operand, rest);
      var more := Emit(e.operand, 6, rest);
      assert ([TOperator(Plus)] + more)[1..] == more && ([TOperator(Minus)] + more)[1..] == more;
    } else {
      NotOwnLevel(e, 6, rest);
      PrimaryPrinted(e, rest);
      EmitBegins(e, 7, rest);
    }
  }

  lemma {:induction false} PrimaryPrinted(e: Expr, rest: seq<Token>)
    requires WF(e)
    ensures PrimaryForm(e, Emit(e, 7, rest), rest)
    decreases e, Parens(e, 7), 1
  {
    hide OrForm, CallForm, CaseForm;
    if Level(e) < 7 {
      ParenPrinted(e, rest);
    } else {
      match e {
        case Lit(_) =>
        case Column(t, c) => ColumnPrinted(t, c, rest);
        case Func(f, args) => CallPrinted(f, args, rest);
        case Case(_, _, _) => CasePrinted(e, rest);
      }
    }
  }

  lemma {:induction false} ParenPrinted(e: Expr, rest: seq<Token>)
    requires WF(e) && Level(e) < 7
    ensures PrimaryForm(e, [TLParen] + EmitBare(e, [TRParen] + rest), rest)
    decreases e, 1, 0
  {
    hide OrForm;
    var close := [TRParen] + rest;
    var inner := EmitBare(e, close);
    assert ([TLParen] + inner)[1..] == inner;
    if e == Star {
      StarIsForm(close);
    } else {
      assert inner == Emit(e, 0, close);
      OrPrinted(e, close);
      EmitBegins(e, 0, close);
    }
    hide EmitBare, Emit;
  }

  // A lone star climbs through all levels.
  lemma StarIsForm(rest: seq<Token>)
    ensures OrForm(Star, [TStar] + rest, rest)
  {
    var ts := [TStar] + rest;
    assert PrimaryForm(Star, ts, rest);
    hide PrimaryForm;
    assert SignedForm(Star, ts, rest);
    assert ProductForm(Star, ts, rest);
    assert SumForm(Star, ts, rest);
    hide SumForm;
    assert NotForm(Star, ts, rest);
  }

  lemma ColumnPrinted(t: string, c: string, rest: seq<Token>)
    ensures PrimaryForm(Column(t, c), EmitBare(Column(t, c), rest), rest)
  {
    var ts := EmitBare(Column(t, c), rest);
    assert t == "" ==> ts[1..] == rest;
    assert t != "" ==> ts[1..][0] == TDot && ts[3..] == rest;
  }

  lemma {:induction false} CallPrinted(f: string, args: seq<Arg>, rest: seq<Token>)
    requires Upper(f) == f && WFArgs(args)
    ensures PrimaryForm(Func(f, args), EmitBare(Func(f, args), rest), rest)
    decreases args, 0, 1
  {
    hide ArgsForm, EmitArgs, Upper;
    var ts, close := EmitBare(Func(f, args), rest), [TRParen] + rest;
    if args == [Arg(false, Star)] {
      assert ts[2..] == [TStar] + close && ts[2..][1..] == close;
    } else {
      var body := EmitArgs(args, close);
      assert ts[2..] == body;
      if args == [] {
        NoArgs(close);
        assert close[1..] == rest;
      } else {
        ArgsPrinted(args, close);
        ArgsBegin(args, close);
      }
    }
  }

  lemma NoArgs(rest: seq<Token>)
    ensures EmitArgs([], rest) == rest
  {
  }

  lemma ArgsBegin(args: seq<Arg>, rest: seq<Token>)
    requires args != []
    ensures EmitArgs(args, rest) != []
    ensures EmitArgs(args, rest)[0] == TKeyword(KwDistinct) || Begins(0, EmitArgs(args, rest)[0])
  {
    var tail := (if |args| > 1 then [TComma] else []) + EmitArgs(args[1..], rest);
    EmitBegins(args[0].e, 0, tail);
  }

  lemma {:induction false} ArgPrinted(a: Arg, rest: seq<Token>)
    requires WFArg(a)
    ensures ArgForm(a, EmitArg(a, rest), rest)
    decreases a, 0, 0
  {
    hide OrForm;
    OrPrinted(a.e, rest);
    EmitBegins(a.e, 0, rest);
    hide Emit;
    assert ([TKeyword(KwDistinct)] + Emit(a.e, 0, rest))[1..] == Emit(a.e, 0, rest);
  }

  lemma {:induction false} ArgsPrinted(args: seq<Arg>, rest: seq<Token>)
    requires WFArgs(args) && args != []
    ensures ArgsForm(args, EmitArgs(args, rest), rest)
    decreases args, 0, 0
  {
    hide ArgForm, EmitArg;
    if |args| > 1 {
      ArgPrinted(args[0], [TComma] + EmitArgs(args[1..], rest));
      ArgsPrinted(args[1..], rest);
    } else {
      assert [] + EmitArgs(args[1..], rest) == rest;
      ArgPrinted(args[0], rest);
    }
  }

  lemma {:induction false} CasePrinted(e: Expr, rest: seq<Token>)
    requires e.Case? && WF(e)
    ensures PrimaryForm(e, EmitBare(e, rest), rest)
    decreases e, 0, 0
  {
    hide OrForm, WhensForm, Emit, EmitWhens, EmitElse;
    var end := EmitElse(e.otherwise, [TKeyword(KwEnd)] + rest);
    var tail := EmitWhens(e.whens, end);
    ElsePrinted(e.otherwise, rest);
    WhensPrinted(e.whens, end);
    if e.subject.Some? {
      OrPrinted(e.subject.value, tail);
      EmitBegins(e.subject.value, 0, tail);
      var body := Emit(e.subject.value, 0, tail);
      assert SubjectForm(e.subject, body, tail);
      assert ([TKeyword(KwCase)] + body)[1..] == body;
    } else {
      assert SubjectForm(e.subject, tail, tail);
      assert ([TKeyword(KwCase)] + tail)[1..] == tail;
    }
  }

  lemma {:induction false} ElsePrinted(o: Option<Expr>, rest: seq<Token>)
    requires WFOption(o)
    ensures var ts := EmitElse(o, [TKeyword(KwEnd)] + rest);
            ElseForm(o, ts, rest) && !IsKw(ts, KwWhen)
    decreases o, 0, 0
  {
    hide OrForm;
    var end := [TKeyword(KwEnd)] + rest;
    if o.Some? {
      OrPrinted(o.value, end);
      assert ([TKeyword(KwElse)] + Emit(o.value, 0, end))[1..] == Emit(o.value, 0, end);
    }
    hide Emit;
  }

  lemma {:induction false} WhenPrinted(w: When, rest: seq<Token>)
    requires WFWhen(w)
    ensures WhenForm(w, EmitWhen(w, rest), rest)
    decreases w, 0, 0
  {
    hide OrForm;
    var b := Emit(w.then_, 0, rest);
    var a := Emit(w.cond, 0, [TKeyword(KwThen)] + b);
    OrPrinted(w.cond, [TKeyword(KwThen)] + b);
    OrPrinted(w.then_, rest);
    hide Emit;
    assert ([TKeyword(KwWhen)] + a)[1..] == a;
  }

  lemma {:induction false} WhensPrinted(whens: seq<When>, rest: seq<Token>)
    requires WFWhens(whens) && !IsKw(rest, KwWhen)
    ensures WhensForm(whens, EmitWhens(whens, rest), rest)
    ensures whens != [] <==> IsKw(EmitWhens(whens, rest), KwWhen)
    decreases whens, 0, 0
  {
    hide WhenForm, EmitWhen;
    if whens != [] {
      WhensPrinted(whens[1..], rest);
      WhenPrinted(whens[0], EmitWhens(whens[1..], rest));
      WhenBegins(whens[0], EmitWhens(whens[1..], rest));
    }
  }

  lemma WhenBegins(w: When, rest: seq<Token>)
    ensures IsKw(EmitWhen(w, rest), KwWhen)
  {
    hide Emit;
  }

  lemma OrOk(e: Expr, rest: seq<Token>)
    requires WF(e) && Stops(0, rest)
    ensures POr(Emit(e, 0, rest)) == Parsed(e, rest)
  {
    hide POr, Emit, OrForm;
    OrPrinted(e, rest);
    OrRead(e, Emit(e, 0, rest), rest);
  }

  // ---------------------------------------------------------------- the printer

  lemma Prepends(a: seq<Token>, b: seq<Token>, c: seq<Token>)
    ensures a + (b + c) == (a + b) + c
  {
  }

  // The printed form does not depend on what follows it.
  lemma {:induction false} EmitAppends(e: Expr, level: int, rest: seq<Token>)
    ensures Emit(e, level, rest) == Emit(e, level, []) + rest
    decreases e, 3
  {
    if Level(e) >= level {
      BareAppends(e, rest);
    } else {
      BareAppends(e, [TRParen] + rest);
      BareAppends(e, [TRParen] + []);
      var inner := EmitBare(e, []);
      hide EmitBare;
      Prepends(inner, [TRParen] + [], rest);
      Prepends([TRParen], [], rest);
      assert [] + rest == rest;
      Prepends([TLParen], inner + ([TRParen] + []), rest);
    }
  }

  // An operand, an operator and what follows them.
  lemma {:induction false} OperandAppends(e: Expr, level: int, ops: seq<Token>, tail: seq<Token>, rest: seq<Token>)
    ensures Emit(e, level, ops + (tail + rest)) == Emit(e, level, ops + tail) + rest
    decreases e, 4
  {
    EmitAppends(e, level, ops + (tail + rest));
    EmitAppends(e, level, ops + tail);
    hide Emit;
    var head := Emit(e, level, []);
    Prepends(ops, tail, rest);
    Prepends(head, ops + tail, rest);
  }

  lemma {:induction false} BareAppends(e: Expr, rest: seq<Token>)
    ensures EmitBare(e, rest) == EmitBare(e, []) + rest
    decreases e, 2
  {
    match e {
      case Lit(l) => Prepends([LiteralToken(l)], [], rest);
        assert [] + rest == rest;
      case Column(t, c) =>
        Prepends([TIdent(c)], [], rest);
        Prepends([TIdent(t), TDot, TIdent(c)], [], rest);
        assert [] + rest == rest;
      case Star => Prepends([TStar], [], rest);
        assert [] + rest == rest;
      case Func(f, args) =>
        ArgsAppend(args, [TRParen], rest);
        Prepends([TIdent(f), TLParen], EmitArgs(args, [TRParen]), rest);
        Prepends([TIdent(f), TLParen, TStar, TRParen], [], rest);
        assert [] + rest == rest && [TRParen] + [] == [TRParen];
      case Unary(op, x) =>
        var k := if op == Not then 3 else 6;
        EmitAppends(x, k, rest);
        hide Emit;
        Prepends([TKeyword(KwNot)], Emit(x, 3, []), rest);
        Prepends([TOperator(Plus)], Emit(x, 6, []), rest);
        Prepends([TOperator(Minus)], Emit(x, 6, []), rest);
      case Binary(l, op, r) => BinaryAppends(l, op, r, rest);
      case In(l, list) =>
        ListAppends(list, [TRParen], rest);
        hide Emit;
        OperandAppends(l, 4, [TKeyword(KwIn), TLParen], EmitList(list, [TRParen]), rest);
        assert [TRParen] + [] == [TRParen];
      case Between(v, lo, hi) =>
        EmitAppends(hi, 4, rest);
        OperandAppends(lo, 4, [TKeyword(KwAnd)], Emit(hi, 4, []), rest);
        OperandAppends(v, 4, [TKeyword(KwBetween)], Emit(lo, 4, [TKeyword(KwAnd)] + Emit(hi, 4, [])), rest);
        hide Emit;
      case Case(s, whens, o) => CaseAppends(s, whens, o, rest);
    }
  }

  lemma {:induction false} BinaryAppends(l: Expr, op: BinOp, r: Expr, rest: seq<Token>)
    ensures EmitBare(Binary(l, op, r), rest) == EmitBare(Binary(l, op, r), []) + rest
    decreases Binary(l, op, r), 1
  {
    hide Emit;
    var k := match op case Or => 1 case And => 2 case Arith(o) => (if IsAddOp(o) then 5 else 6) case _ => 4;
    EmitAppends(r, k, rest);
    match op {
      case Or => OperandAppends(l, 0, [TKeyword(KwOr)], Emit(r, 1, []), rest);
      case And => OperandAppends(l, 1, [TKeyword(KwAnd)], Emit(r, 2, []), rest);
      case Compare(o) => OperandAppends(l, 4, [OperatorToken(o)], Emit(r, 4, []), rest);
      case Like => OperandAppends(l, 4, [TKeyword(KwLike)], Emit(r, 4, []), rest);
      case Is =>
        OperandAppends(l, 4, [TKeyword(KwIs), TKeyword(KwNull)], [], rest);
        assert [] + rest == rest;
      case IsNot =>
        OperandAppends(l, 4, [TKeyword(KwIs), TKeyword(KwNot), TKeyword(KwNull)], [], rest);
        assert [] + rest == rest;
      case Arith(o) => OperandAppends(l, k - 1, [OperatorToken(o)], Emit(r, k, []), rest);
    }
  }

  lemma {:induction false} ListAppends(es: seq<Expr>, close: seq<Token>, rest: seq<Token>)
    ensures EmitList(es, close + rest) == EmitList(es, close) + rest
    decreases es, 0
  {
    if es != [] {
      var comma: seq<Token> := if |es| > 1 then [TComma] else [];
      ListAppends(es[1..], close, rest);
      OperandAppends(es[0], 0, comma, EmitList(es[1..], close), rest);
      hide Emit;
    }
  }

  lemma {:induction false} ArgAppends(a: Arg, comma: seq<Token>, tail: seq<Token>, rest: seq<Token>)
    ensures EmitArg(a, comma + (tail + rest)) == EmitArg(a, comma + tail) + rest
    decreases a, 0
  {
    OperandAppends(a.e, 0, comma, tail, rest);
    hide Emit;
    Prepends([TKeyword(KwDistinct)], Emit(a.e, 0, comma + tail), rest);
  }

  lemma {:induction false} ArgsAppend(args: seq<Arg>, close: seq<Token>, rest: seq<Token>)
    ensures EmitArgs(args, close + rest) == EmitArgs(args, close) + rest
    decreases args, 0
  {
    if args != [] {
      var comma: seq<Token> := if |args| > 1 then [TComma] else [];
      ArgsAppend(args[1..], close, rest);
      ArgAppends(args[0], comma, EmitArgs(args[1..], close), rest);
      hide EmitArg;
    }
  }

  lemma {:induction false} WhenAppends(w: When, tail: seq<Token>, rest: seq<Token>)
    ensures EmitWhen(w, tail + rest) == EmitWhen(w, tail) + rest
    decreases w, 0
  {
    OperandAppends(w.then_, 0, [], tail, rest);
    assert [] + (tail + rest) == tail + rest && [] + tail == tail;
    var t := Emit(w.then_, 0, tail);
    OperandAppends(w.cond, 0, [TKeyword(KwThen)], t, rest);
    hide Emit;
    Prepends([TKeyword(KwWhen)], Emit(w.cond, 0, [TKeyword(KwThen)] + t), rest);
  }

  lemma {:induction false} WhensAppend(whens: seq<When>, tail: seq<Token>, rest: seq<Token>)
    ensures EmitWhens(whens, tail + rest) == EmitWhens(whens, tail) + rest
    decreases whens, 0
  {
    if whens != [] {
      WhensAppend(whens[1..], tail, rest);
      WhenAppends(whens[0], EmitWhens(whens[1..], tail), rest);
      hide EmitWhen;
    }
  }

  lemma {:induction false} CaseAppends(s: Option<Expr>, whens: seq<When>, o: Option<Expr>, rest: seq<Token>)
    ensures EmitBare(Case(s, whens, o), rest) == EmitBare(Case(s, whens, o), []) + rest
    decreases Case(s, whens, o), 1
  {
    hide Emit, EmitWhens, EmitElse;
    var end := [TKeyword(KwEnd)];
    assert end + [] == end;
    ElseAppends(o, end, rest);
    WhensAppend(whens, EmitElse(o, end), rest);
    var tail := EmitWhens(whens, EmitElse(o, end));
    if s.Some? {
      OperandAppends(s.value, 0, [], tail, rest);
      assert [] + (tail + rest) == tail + rest && [] + tail == tail;
      Prepends([TKeyword(KwCase)], Emit(s.value, 0, tail), rest);
    }
    Prepends([TKeyword(KwCase)], tail, rest);
  }

  lemma {:induction false} ElseAppends(o: Option<Expr>, end: seq<Token>, rest: seq<Token>)
    ensures EmitElse(o, end + rest) == EmitElse(o, end) + rest
    decreases o, 1
  {
    hide Emit;
    if o.Some? {
      OperandAppends(o.value, 0, [], end, rest);
      assert [] + (end + rest) == end + rest && [] + end == end;
      Prepends([TKeyword(KwElse)], Emit(o.value, 0, end), rest);
    }
  }

  // ---------------------------------------------------------------- main results

  // Parsing the printed tokens of a tree, followed by any tokens that do not continue the
  // expression, gives back the tree and stops exactly there.
  lemma ParserInvertsPrinter(e: Expr, rest: seq<Token>)
    requires WF(e) && Stops(0, rest)
    ensures POr(Print(e) + rest) == Parsed(e, rest)
  {
    EmitAppends(e, 0, rest);
    OrOk(e, rest);
  }

  // Well-formedness is the exact condition: the printed form of any other tree is rejected
  // or read as a different tree.
  lemma RoundTripExactlyWhenWellFormed(e: Expr)
    ensures POr(Print(e)) == Parsed(e, []) <==> WF(e)
  {
    if WF(e) {
      OrOk(e, []);
    }
  }

  // The trees the parser can return from lexer output are exactly the well-formed ones.
  lemma ParserImage(e: Expr)
    ensures (exists ts :: Lexed(ts) && POr(ts) == Parsed(e, [])) <==> WF(e)
  {
    if WF(e) {
      OrOk(e, []);
      assert Lexed(Print(e)) && POr(Print(e)) == Parsed(e, []);
    }
  }

  // The printed form is unambiguous, also as the front of a longer token sequence.
  lemma PrintedFormsAreUnambiguous(a: Expr, b: Expr, rest: seq<Token>, rest': seq<Token>)
    requires WF(a) && WF(b) && Stops(0, rest) && Stops(0, rest')
    requires Print(a) + rest == Print(b) + rest'
    ensures a == b && rest == rest'
  {
    ParserInvertsPrinter(a, rest);
    ParserInvertsPrinter(b, rest');
  }

  // 2 * 3 as the lexer delivers it: the parser stops before the star.
  lemma MultiplicationIsNotParsed()
    ensures var two, three := NumLit(IntNumber(2)), NumLit(IntNumber(3));
            var product := Binary(Lit(two), Arith(Times), Lit(three));
            POr(Print(product)) == Parsed(Lit(two), [TStar, LiteralToken(three)])
  {
    var two, three := NumLit(IntNumber(2)), NumLit(IntNumber(3));
    var rest := [TStar, LiteralToken(three)];
    OrOk(Lit(two), rest);
    var product := Binary(Lit(two), Arith(Times), Lit(three));
    assert Emit(Lit(three), 6, []) == [LiteralToken(three)] + [] == [LiteralToken(three)];
    assert [TStar] + [LiteralToken(three)] == rest;
    assert Print(product) == EmitBare(product, []);
    assert EmitBare(product, []) == Emit(Lit(two), 5, rest);
    assert Emit(Lit(two), 5, rest) == Emit(Lit(two), 0, rest);
  }
}
