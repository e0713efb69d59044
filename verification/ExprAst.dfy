// Expression trees, tokens and the printer that the expression parser inverts
// (parser/ast.go, parser/lexer.go).

module ExprAst {
  import opened Collections

  // Numbers are converted by strconv; a token carries the result, or None if that failed.
  datatype Number = IntNumber(n: int) | FloatNumber(text: string)

  datatype Keyword =
    | KwOr | KwAnd | KwNot | KwIs | KwNull | KwIn | KwBetween | KwLike | KwTrue | KwFalse
    | KwCase | KwWhen | KwThen | KwElse | KwEnd | KwDistinct | KwSelect | KwExists | KwMatch
    | KwOther(name: string)

  datatype Operator = Eq | Lt | Gt | Le | Ge | Ne | BangEq | Plus | Minus | Concat | Times | Div | Mod | OtherOp

  datatype Token =
    | TNumber(number: Option<Number>)
    | TString(text: string)
    | TIdent(name: string)
    | TKeyword(kw: Keyword)
    | TOperator(op: Operator)
    | TComma | TLParen | TRParen | TDot | TStar
    | TOther // end of input, brackets, semicolons, parameters, lexical errors

  datatype Literal = NullLit | BoolLit(b: bool) | NumLit(n: Number) | StrLit(s: string)

  datatype BinOp = Or | And | Compare(op: Operator) | Like | Is | IsNot | Arith(aop: Operator)
  datatype UnOp = Not | Pos | Neg

  datatype Expr =
    | Lit(lit: Literal)
    | Column(table: string, name: string) // an empty table means an unqualified name
    | Func(fname: string, args: seq<Arg>)
    | Unary(uop: UnOp, operand: Expr)
    | Binary(left: Expr, bop: BinOp, right: Expr)
    | Case(subject: Option<Expr>, whens: seq<When>, otherwise: Option<Expr>)
    | In(item: Expr, list: seq<Expr>)
    | Between(value: Expr, low: Expr, high: Expr)
    | Star

  // An argument marked DISTINCT is a unary operator node that occurs nowhere else.
  datatype Arg = Arg(distinct: bool, e: Expr)
  datatype When = When(cond: Expr, then_: Expr)

  predicate IsCompareOp(op: Operator) {
    op == Eq || op == Lt || op == Gt || op == Le || op == Ge || op == Ne || op == BangEq
  }

  predicate IsAddOp(op: Operator) {
    op == Plus || op == Minus || op == Concat
  }

  predicate IsMulOp(op: Operator) {
    op == Times || op == Div || op == Mod
  }

  // strings.ToUpper on ASCII letters
  function UpperChar(c: char): char {
    if 'a' <= c <= 'z' then c - 'a' + 'A' else c
  }

  function Upper(s: string): (u: string)
    ensures |u| == |s|
    ensures forall i | 0 <= i < |s| :: u[i] == if 'a' <= s[i] <= 'z' then (s[i] as int - 32) as char else s[i]
  {
    if s == "" then "" else [UpperChar(s[0])] + Upper(s[1..])
  }

  lemma {:induction false} UpperTwice(s: string)
    ensures Upper(Upper(s)) == Upper(s)
  {
    if s != "" {
      UpperTwice(s[1..]);
      assert Upper(s)[1..] == Upper(s[1..]);
    }
  }

  function KeywordText(k: Keyword): string {
    match k
    case KwOr => "OR"
    case KwAnd => "AND"
    case KwNot => "NOT"
    case KwIs => "IS"
    case KwNull => "NULL"
    case KwIn => "IN"
    case KwBetween => "BETWEEN"
    case KwLike => "LIKE"
    case KwTrue => "TRUE"
    case KwFalse => "FALSE"
    case KwCase => "CASE"
    case KwWhen => "WHEN"
    case KwThen => "THEN"
    case KwElse => "ELSE"
    case KwEnd => "END"
    case KwDistinct => "DISTINCT"
    case KwSelect => "SELECT"
    case KwExists => "EXISTS"
    case KwMatch => "MATCH"
    case KwOther(name) => name
  }

  // The keywords that are not names at the start of an operand.
  predicate Reserved(k: Keyword) {
    k == KwNull || k == KwTrue || k == KwFalse || k == KwCase || k == KwExists || k == KwMatch
  }

  // ---------------------------------------------------------------- well-formed trees

  // The trees the parser can build: no multiplication (the lexer emits TStar, which the
  // parser does not take as an operator), IS only against NULL, no empty IN list, no CASE
  // without both subject and WHEN, upper-case function names, operators in their own class.
  predicate WF(e: Expr)
    decreases e, 1
  {
    match e
    case Lit(_) => true
    case Column(_, _) => true
    case Star => true
    case Func(f, args) => Upper(f) == f && WFArgs(args)
    case Unary(_, x) => WF(x)
    case Binary(l, op, r) => WFOp(op, r) && WF(l) && WF(r)
    case Case(s, whens, o) => (s.None? ==> whens != []) && WFOption(s) && WFWhens(whens) && WFOption(o)
    case In(l, list) => list != [] && WF(l) && WFList(list)
    case Between(v, lo, hi) => WF(v) && WF(lo) && WF(hi)
  }

  predicate WFOp(op: BinOp, right: Expr) {
    match op
    case Or => true
    case And => true
    case Like => true
    case Is => right == Lit(NullLit)
    case IsNot => right == Lit(NullLit)
    case Compare(o) => IsCompareOp(o)
    case Arith(o) => IsAddOp(o) || o == Div || o == Mod
  }

  predicate WFOption(e: Option<Expr>)
    decreases e, 0
  {
    e.Some? ==> WF(e.value)
  }

  predicate WFList(es: seq<Expr>)
    decreases es, 0
  {
    es == [] || (WF(es[0]) && WFList(es[1..]))
  }

  predicate WFArgs(args: seq<Arg>)
    decreases args, 0
  {
    args == [] || (WFArg(args[0]) && WFArgs(args[1..]))
  }

  predicate WFArg(a: Arg)
    decreases a, 0
  {
    WF(a.e)
  }

  predicate WFWhens(whens: seq<When>)
    decreases whens, 0
  {
    whens == [] || (WFWhen(whens[0]) && WFWhens(whens[1..]))
  }

  predicate WFWhen(w: When)
    decreases w, 0
  {
    WF(w.cond) && WF(w.then_)
  }

  // Token sequences the lexer can produce: the character * is never an operator token.
  ghost predicate Lexed(ts: seq<Token>) {
    forall i | 0 <= i < |ts| :: ts[i] != TOperator(Times)
  }

  // ---------------------------------------------------------------- printer

  // Precedence levels, loosest first: OR 0, AND 1, NOT 2, comparisons 3, additive 4,
  // multiplicative 5, sign 6, primary 7. A bare star is always put in parentheses.
  function Level(e: Expr): int {
    match e
    case Binary(_, Or, _) => 0
    case Binary(_, And, _) => 1
    case Unary(Not, _) => 2
    case Binary(_, Arith(op), _) => if IsAddOp(op) then 4 else 5
    case Binary(_, _, _) => 3
    case In(_, _) => 3
    case Between(_, _, _) => 3
    case Unary(_, _) => 6
    case Star => -1
    case _ => 7
  }

  // The tokens of `e` where an operand of precedence `level` is expected, followed by `rest`.
  // Parentheses are put only around an operand that binds more loosely.
  function Emit(e: Expr, level: int, rest: seq<Token>): (ts: seq<Token>)
    ensures Lexed(rest) ==> Lexed(ts)
    decreases e, 3
  {
    if Level(e) >= level then EmitBare(e, rest)
    else [TLParen] + EmitBare(e, [TRParen] + rest)
  }

  function EmitBare(e: Expr, rest: seq<Token>): (ts: seq<Token>)
    ensures Lexed(rest) ==> Lexed(ts)
    decreases e, 2
  {
    match e
    case Lit(l) => [LiteralToken(l)] + rest
    case Column(t, c) => if t == "" then [TIdent(c)] + rest else [TIdent(t), TDot, TIdent(c)] + rest
    case Star => [TStar] + rest
    case Func(f, args) =>
      if args == [Arg(false, Star)] then [TIdent(f), TLParen, TStar, TRParen] + rest
      else [TIdent(f), TLParen] + EmitArgs(args, [TRParen] + rest)
    case Unary(Not, x) => [TKeyword(KwNot)] + Emit(x, 3, rest)
    case Unary(Pos, x) => [TOperator(Plus)] + Emit(x, 6, rest)
    case Unary(Neg, x) => [TOperator(Minus)] + Emit(x, 6, rest)
    case Binary(l, Or, r) => Emit(l, 0, [TKeyword(KwOr)] + Emit(r, 1, rest))
    case Binary(l, And, r) => Emit(l, 1, [TKeyword(KwAnd)] + Emit(r, 2, rest))
    case Binary(l, Compare(op), r) => Emit(l, 4, [OperatorToken(op)] + Emit(r, 4, rest))
    case Binary(l, Like, r) => Emit(l, 4, [TKeyword(KwLike)] + Emit(r, 4, rest))
    case Binary(l, Is, _) => Emit(l, 4, [TKeyword(KwIs), TKeyword(KwNull)] + rest)
    case Binary(l, IsNot, _) => Emit(l, 4, [TKeyword(KwIs), TKeyword(KwNot), TKeyword(KwNull)] + rest)
    case Binary(l, Arith(op), r) =>
      var k := if IsAddOp(op) then 4 else 5;
      Emit(l, k, [OperatorToken(op)] + Emit(r, k + 1, rest))
    case In(l, list) => Emit(l, 4, [TKeyword(KwIn), TLParen] + EmitList(list, [TRParen] + rest))
    case Between(v, lo, hi) =>
      Emit(v, 4, [TKeyword(KwBetween)] + Emit(lo, 4, [TKeyword(KwAnd)] + Emit(hi, 4, rest)))
    case Case(s, whens, o) =>
      var tail := EmitWhens(whens, EmitElse(o, [TKeyword(KwEnd)] + rest));
      [TKeyword(KwCase)] + if s.Some? then Emit(s.value, 0, tail) else tail
  }

  // The lexer turns the character * into TStar, never into an operator.
  function OperatorToken(op: Operator): Token {
    if op == Times then TStar else TOperator(op)
  }

  function LiteralToken(l: Literal): Token {
    match l
    case NullLit => TKeyword(KwNull)
    case BoolLit(b) => TKeyword(if b then KwTrue else KwFalse)
    case NumLit(n) => TNumber(Some(n))
    case StrLit(s) => TString(s)
  }

  function EmitList(es: seq<Expr>, rest: seq<Token>): (ts: seq<Token>)
    ensures Lexed(rest) ==> Lexed(ts)
    decreases es, 0
  {
    if es == [] then rest
    else Emit(es[0], 0, (if |es| > 1 then [TComma] else []) + EmitList(es[1..], rest))
  }

  function EmitArgs(args: seq<Arg>, rest: seq<Token>): (ts: seq<Token>)
    ensures Lexed(rest) ==> Lexed(ts)
    decreases args, 0
  {
    if args == [] then rest
    else EmitArg(args[0], (if |args| > 1 then [TComma] else []) + EmitArgs(args[1..], rest))
  }

  function EmitArg(a: Arg, rest: seq<Token>): (ts: seq<Token>)
    ensures Lexed(rest) ==> Lexed(ts)
    decreases a, 0
  {
    if a.distinct then [TKeyword(KwDistinct)] + Emit(a.e, 0, rest) else Emit(a.e, 0, rest)
  }

  function EmitWhens(whens: seq<When>, rest: seq<Token>): (ts: seq<Token>)
    ensures Lexed(rest) ==> Lexed(ts)
    decreases whens, 0
  {
    if whens == [] then rest
    else EmitWhen(whens[0], EmitWhens(whens[1..], rest))
  }

  function EmitWhen(w: When, rest: seq<Token>): (ts: seq<Token>)
    ensures Lexed(rest) ==> Lexed(ts)
    decreases w, 0
  {
    [TKeyword(KwWhen)] + Emit(w.cond, 0, [TKeyword(KwThen)] + Emit(w.then_, 0, rest))
  }

  function EmitElse(o: Option<Expr>, rest: seq<Token>): (ts: seq<Token>)
    ensures Lexed(rest) ==> Lexed(ts)
    decreases o, 0
  {
    if o.Some? then [TKeyword(KwElse)] + Emit(o.value, 0, rest) else rest
  }

  function Print(e: Expr): seq<Token> {
    Emit(e, 0, [])
  }
}
