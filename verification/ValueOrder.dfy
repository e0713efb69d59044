// How values compare (types/types.go) and how rows compare under ORDER BY.

module ValueOrder {
  import opened Collections

  // A float64 as comparisons see it.
  datatype Num = NaN | NegInf | Finite(r: real) | PosInf

  // A value as Compare sees it: the number, the time and the text it converts to.
  datatype Value = Null | Val(num: Option<Num>, time: Option<int>, text: string)

  // Go's zero Value, which converts to neither a number nor a time.
  const ZeroValue := Val(None, None, "<nil>")

  predicate NumLess(a: Num, b: Num) {
    match (a, b)
    case (NaN, _) => false
    case (_, NaN) => false
    case (Finite(x), Finite(y)) => x < y
    case (NegInf, _) => b != NegInf
    case (_, PosInf) => a != PosInf
    case _ => false
  }

  predicate TextLess(a: string, b: string) {
    b != "" && (a == "" || a[0] < b[0] || (a[0] == b[0] && TextLess(a[1..], b[1..])))
  }

  function Sign(less: bool, greater: bool): int {
    if less then -1 else if greater then 1 else 0
  }

  function Compare(a: Value, b: Value): int {
    if a.Null? && b.Null? then 0
    else if a.Null? then -1
    else if b.Null? then 1
    else if a.num.Some? && b.num.Some? then Sign(NumLess(a.num.value, b.num.value), NumLess(b.num.value, a.num.value))
    else if a.time.Some? && b.time.Some? then Sign(a.time.value < b.time.value, b.time.value < a.time.value)
    else Sign(TextLess(a.text, b.text), TextLess(b.text, a.text))
  }

  lemma {:induction false} TextLessAsymmetric(a: string, b: string)
    ensures !(TextLess(a, b) && TextLess(b, a))
  {
    if a != "" && b != "" {
      TextLessAsymmetric(a[1..], b[1..]);
    }
  }

  lemma {:induction false} TextLessTotal(a: string, b: string)
    ensures TextLess(a, b) || TextLess(b, a) || a == b
  {
    if a != "" && b != "" {
      TextLessTotal(a[1..], b[1..]);
      assert a == [a[0]] + a[1..] && b == [b[0]] + b[1..];
    }
  }

  lemma {:induction false} TextLessTransitive(a: string, b: string, c: string)
    requires TextLess(a, b) && TextLess(b, c)
    ensures TextLess(a, c)
  {
    if a != "" && a[0] == b[0] == c[0] {
      TextLessTransitive(a[1..], b[1..], c[1..]);
    }
  }

  // One text stands before another when, behind a common beginning, it ends or has the smaller
  // character.
  ghost predicate StandsBefore(a: string, b: string, k: nat) {
    && k <= |a| && k < |b| && (forall i | 0 <= i < k :: a[i] == b[i])
    && (k == |a| || a[k] < b[k])
  }

  lemma {:induction false} TextLessAt(a: string, b: string)
    ensures TextLess(a, b) <==> exists k: nat :: StandsBefore(a, b, k)
  {
    if b != "" {
      if a == "" || a[0] < b[0] {
        assert StandsBefore(a, b, 0);
      } else if a[0] == b[0] {
        TextLessAt(a[1..], b[1..]);
        if k: nat :| StandsBefore(a[1..], b[1..], k) {
          assert forall i | 0 < i < k + 1 :: a[i] == a[1..][i - 1] && b[i] == b[1..][i - 1];
          assert StandsBefore(a, b, k + 1);
        }
        if k: nat :| StandsBefore(a, b, k) {
          assert k > 0;
          assert StandsBefore(a[1..], b[1..], k - 1);
        }
      }
    }
  }

  // What comparing means: null stands before everything; two numbers go by size, NaN being equal
  // to all; otherwise two times go by which is earlier, and all else by text.
  lemma CompareMeans(a: Value, b: Value)
    ensures a.Null? && b.Null? ==> Compare(a, b) == 0
    ensures a.Null? && b.Val? ==> Compare(a, b) == -1
    ensures a.Val? && b.Null? ==> Compare(a, b) == 1
    ensures a.Val? && b.Val? && a.num.Some? && b.num.Some? ==>
              var x, y := a.num.value, b.num.value;
              && (x == NaN || y == NaN || x == y ==> Compare(a, b) == 0)
              && ((x == NegInf && y.Finite?) || (x.Finite? && y == PosInf) || (x == NegInf && y == PosInf) ==>
                    Compare(a, b) == -1)
              && ((y == NegInf && x.Finite?) || (y.Finite? && x == PosInf) || (y == NegInf && x == PosInf) ==>
                    Compare(a, b) == 1)
              && (x.Finite? && y.Finite? ==>
                    Compare(a, b) == if x.r < y.r then -1 else if x.r > y.r then 1 else 0)
    ensures a.Val? && b.Val? && !(a.num.Some? && b.num.Some?) && a.time.Some? && b.time.Some? ==>
              var x, y := a.time.value, b.time.value;
              Compare(a, b) == if x < y then -1 else if x > y then 1 else 0
    ensures a.Val? && b.Val? && !(a.num.Some? && b.num.Some?) && !(a.time.Some? && b.time.Some?) ==>
              && (Compare(a, b) == -1 <==> exists k: nat :: StandsBefore(a.text, b.text, k))
              && (Compare(a, b) == 1 <==> exists k: nat :: StandsBefore(b.text, a.text, k))
              && (Compare(a, b) == 0 <==> a.text == b.text)
  {
    if a.Val? && b.Val? {
      TextLessAt(a.text, b.text);
      TextLessAt(b.text, a.text);
      TextLessAsymmetric(a.text, b.text);
      TextLessAsymmetric(a.text, a.text);
      TextLessTotal(a.text, b.text);
    }
  }

  lemma CompareAntisymmetric(a: Value, b: Value)
    ensures Compare(a, b) == -Compare(b, a)
    ensures -1 <= Compare(a, b) <= 1
  {
    if a.Val? && b.Val? {
      TextLessAsymmetric(a.text, b.text);
    }
  }

  // ---------------------------------------------------------------- when values can be sorted

  predicate Number(v: Value) {
    v.Val? && v.num.Some? && v.num.value != NaN
  }

  predicate Moment(v: Value) {
    v.Val? && v.num.None? && v.time.Some?
  }

  predicate Word(v: Value) {
    v.Val? && v.num.None? && v.time.None?
  }

  // Nulls aside, all of one kind.
  predicate Alike(values: seq<Value>) {
    || (forall v | v in values :: v.Null? || Number(v))
    || (forall v | v in values :: v.Null? || Moment(v))
    || (forall v | v in values :: v.Null? || Word(v))
  }

  lemma CompareTransitive(values: seq<Value>, a: Value, b: Value, c: Value)
    requires Alike(values) && a in values && b in values && c in values
    requires Compare(a, b) <= 0 && Compare(b, c) <= 0
    ensures Compare(a, c) <= 0
    ensures Compare(a, b) < 0 || Compare(b, c) < 0 ==> Compare(a, c) < 0
  {
    if Word(a) && Word(b) && Word(c) {
      TextLessAsymmetric(a.text, b.text);
      TextLessAsymmetric(b.text, c.text);
      TextCompareTransitive(a.text, b.text, c.text);
    }
  }

  lemma TextCompareTransitive(a: string, b: string, c: string)
    requires !TextLess(b, a) && !TextLess(c, b)
    ensures !TextLess(c, a)
    ensures TextLess(a, b) || TextLess(b, c) ==> TextLess(a, c)
  {
    TextLessTotal(a, b);
    TextLessTotal(b, c);
    TextLessAsymmetric(a, c);
    if TextLess(a, b) && TextLess(b, c) {
      TextLessTransitive(a, b, c);
    }
  }

  // Mixed kinds go round in a circle: "10" < "1a" < "9" as texts, 9 < 10 as numbers.
  lemma MixedKindsCycle()
    ensures var ten, word, nine := Val(Some(Finite(10.0)), None, "10"), Val(None, None, "1a"),
            Val(Some(Finite(9.0)), None, "9");
            Compare(ten, word) < 0 && Compare(word, nine) < 0 && Compare(nine, ten) < 0
  {
    assert "10"[1..] == "0" && "1a"[1..] == "a";
    assert TextLess("0", "a");
    assert TextLess("10", "1a");
  }

  // NaN compares equal to everything.
  lemma NaNIsEqualToAll(v: Value)
    requires v.Val? && v.num.Some?
    ensures Compare(v, Val(Some(NaN), None, "NaN")) == 0
  {
  }

  // ---------------------------------------------------------------- ORDER BY

  // `tag` tells rows with equal data apart.
  datatype Row = Row(tag: nat, data: seq<Value>)

  // A sort key: a column name or any other expression, which is evaluated.
  datatype Key = ColumnKey(name: string) | ExprKey(eval: Row -> Value)

  datatype Clause = Clause(key: Key, desc: bool)

  // A name that is not in the column map gives index 0; an index past the row the zero value.
  function KeyOf(clause: Clause, columns: map<string, nat>, row: Row): Value {
    match clause.key
    case ExprKey(eval) => eval(row)
    case ColumnKey(name) =>
      var idx := if name in columns then columns[name] else 0;
      if idx < |row.data| then row.data[idx] else ZeroValue
  }

  // A column is looked up by its name, the first one if there is none of that name; a short row
  // has the zero value there.
  lemma KeyIs(clause: Clause, columns: map<string, nat>, row: Row)
    ensures clause.key.ExprKey? ==> KeyOf(clause, columns, row) == clause.key.eval(row)
    ensures clause.key.ColumnKey? && clause.key.name in columns && columns[clause.key.name] < |row.data| ==>
              KeyOf(clause, columns, row) == row.data[columns[clause.key.name]]
    ensures clause.key.ColumnKey? && clause.key.name !in columns && |row.data| > 0 ==>
              KeyOf(clause, columns, row) == row.data[0]
    ensures clause.key.ColumnKey? && (clause.key.name in columns ==> columns[clause.key.name] >= |row.data|)
            && (clause.key.name !in columns ==> |row.data| == 0) ==>
              KeyOf(clause, columns, row) == Val(None, None, "<nil>")
  {
  }

  // The keys of the two rows are equal in the first k clauses.
  ghost predicate EqualUpTo(orderBy: seq<Clause>, columns: map<string, nat>, a: Row, b: Row, k: nat)
    requires k <= |orderBy|
  {
    forall j | 0 <= j < k :: Compare(KeyOf(orderBy[j], columns, a), KeyOf(orderBy[j], columns, b)) == 0
  }

  // The first clause that tells the rows apart decides; positive means out of order.
  function RowCompare(orderBy: seq<Clause>, columns: map<string, nat>, a: Row, b: Row): int {
    if orderBy == [] then 0
    else
      var cmp := Compare(KeyOf(orderBy[0], columns, a), KeyOf(orderBy[0], columns, b));
      if cmp != 0 then (if orderBy[0].desc then -cmp else cmp)
      else RowCompare(orderBy[1..], columns, a, b)
  }

  predicate Swap(orderBy: seq<Clause>, columns: map<string, nat>, a: Row, b: Row) {
    RowCompare(orderBy, columns, a, b) > 0
  }

  method ShouldSwap(row1: Row, row2: Row, orderBy: seq<Clause>, columns: map<string, nat>) returns (r: bool)
    ensures r == Swap(orderBy, columns, row1, row2)
  {
    var i := 0;
    assert orderBy[0..] == orderBy;
    while i < |orderBy|
      invariant 0 <= i <= |orderBy|
      invariant RowCompare(orderBy, columns, row1, row2) == RowCompare(orderBy[i..], columns, row1, row2)
    {
      assert orderBy[i..][0] == orderBy[i] && orderBy[i..][1..] == orderBy[i + 1..];
      var cmp := Compare(KeyOf(orderBy[i], columns, row1), KeyOf(orderBy[i], columns, row2));
      if cmp != 0 {
        if orderBy[i].desc {
          return cmp < 0;
        }
        return cmp > 0;
      }
      i := i + 1;
    }
    return false;
  }

  // Two rows are out of order exactly when, at the first clause whose keys differ, the first row's
  // key is the larger one or, if the clause is DESC, the smaller one.
  lemma {:induction false} SwapMeans(orderBy: seq<Clause>, columns: map<string, nat>, a: Row, b: Row)
    ensures Swap(orderBy, columns, a, b) <==>
            exists k :: 0 <= k < |orderBy| && EqualUpTo(orderBy, columns, a, b, k)
                        && var cmp := Compare(KeyOf(orderBy[k], columns, a), KeyOf(orderBy[k], columns, b));
                           if orderBy[k].desc then cmp < 0 else cmp > 0
    ensures RowCompare(orderBy, columns, a, b) == 0 <==> EqualUpTo(orderBy, columns, a, b, |orderBy|)
  {
    hide Compare, KeyOf;
    if orderBy != [] {
      var cmp, rest := Compare(KeyOf(orderBy[0], columns, a), KeyOf(orderBy[0], columns, b)), orderBy[1..];
      SwapMeans(rest, columns, a, b);
      assert forall j | 0 <= j < |rest| :: rest[j] == orderBy[j + 1];
      if cmp == 0 {
        forall k | 0 <= k <= |rest|
          ensures EqualUpTo(orderBy, columns, a, b, k + 1) <==> EqualUpTo(rest, columns, a, b, k)
        {
          EqualTail(orderBy, columns, a, b, k);
        }
        if k :| 0 <= k < |rest| && EqualUpTo(rest, columns, a, b, k)
                && var cmp := Compare(KeyOf(rest[k], columns, a), KeyOf(rest[k], columns, b));
                   if rest[k].desc then cmp < 0 else cmp > 0 {
          assert EqualUpTo(orderBy, columns, a, b, k + 1) && orderBy[k + 1] == rest[k];
        }
        if k :| 0 <= k < |orderBy| && EqualUpTo(orderBy, columns, a, b, k)
                && var cmp := Compare(KeyOf(orderBy[k], columns, a), KeyOf(orderBy[k], columns, b));
                   if orderBy[k].desc then cmp < 0 else cmp > 0 {
          assert k > 0;
          assert EqualUpTo(rest, columns, a, b, k - 1) && orderBy[k] == rest[k - 1];
        }
      } else {
        assert EqualUpTo(orderBy, columns, a, b, 0);
        assert forall k | 0 < k <= |orderBy| :: !EqualUpTo(orderBy, columns, a, b, k);
      }
    }
  }

  lemma EqualTail(orderBy: seq<Clause>, columns: map<string, nat>, a: Row, b: Row, k: nat)
    requires k < |orderBy| && Compare(KeyOf(orderBy[0], columns, a), KeyOf(orderBy[0], columns, b)) == 0
    ensures EqualUpTo(orderBy, columns, a, b, k + 1) <==> EqualUpTo(orderBy[1..], columns, a, b, k)
  {
    hide Compare, KeyOf;
    var rest := orderBy[1..];
    assert forall j | 0 <= j < k :: rest[j] == orderBy[j + 1];
    if EqualUpTo(rest, columns, a, b, k) {
      forall j | 0 <= j < k + 1
        ensures Compare(KeyOf(orderBy[j], columns, a), KeyOf(orderBy[j], columns, b)) == 0
      {
        assert j > 0 ==> orderBy[j] == rest[j - 1];
      }
    }
  }

  lemma {:induction false} RowCompareAntisymmetric(orderBy: seq<Clause>, columns: map<string, nat>, a: Row, b: Row)
    ensures RowCompare(orderBy, columns, a, b) == -RowCompare(orderBy, columns, b, a)
  {
    if orderBy != [] {
      CompareAntisymmetric(KeyOf(orderBy[0], columns, a), KeyOf(orderBy[0], columns, b));
      RowCompareAntisymmetric(orderBy[1..], columns, a, b);
    }
  }

  // ---------------------------------------------------------------- total preorders

  function KeysOf(clause: Clause, columns: map<string, nat>, rows: seq<Row>): (keys: seq<Value>)
    ensures |keys| == |rows| && forall i | 0 <= i < |rows| :: keys[i] == KeyOf(clause, columns, rows[i])
  {
    seq(|rows|, i requires 0 <= i < |rows| => KeyOf(clause, columns, rows[i]))
  }

  // Each sort key is of one kind over the rows.
  ghost predicate AllAlike(orderBy: seq<Clause>, columns: map<string, nat>, rows: seq<Row>) {
    forall c | c in orderBy :: Alike(KeysOf(c, columns, rows))
  }

  ghost predicate Ordered(orderBy: seq<Clause>, columns: map<string, nat>, a: Row, b: Row) {
    RowCompare(orderBy, columns, a, b) <= 0
  }

  ghost predicate Transitive(orderBy: seq<Clause>, columns: map<string, nat>, rows: seq<Row>) {
    forall a, b, c | a in rows && b in rows && c in rows && Ordered(orderBy, columns, a, b)
        && Ordered(orderBy, columns, b, c) ::
      Ordered(orderBy, columns, a, c)
  }

  lemma {:induction false} AlikeTransitive(orderBy: seq<Clause>, columns: map<string, nat>, rows: seq<Row>, a: Row,
          b: Row, c: Row)
    requires AllAlike(orderBy, columns, rows) && a in rows && b in rows && c in rows
    requires RowCompare(orderBy, columns, a, b) <= 0 && RowCompare(orderBy, columns, b, c) <= 0
    ensures RowCompare(orderBy, columns, a, c) <= 0
    ensures RowCompare(orderBy, columns, a, b) < 0 || RowCompare(orderBy, columns, b, c) < 0 ==>
            RowCompare(orderBy, columns, a, c) < 0
  {
    hide Compare, Alike;
    if orderBy != [] {
      var o := orderBy[0];
      var x, y, z := KeyOf(o, columns, a), KeyOf(o, columns, b), KeyOf(o, columns, c);
      assert o in orderBy && forall d | d in orderBy[1..] :: d in orderBy;
      var keys := KeysOf(o, columns, rows);
      KeyAmong(o, columns, rows, a);
      KeyAmong(o, columns, rows, b);
      KeyAmong(o, columns, rows, c);
      CompareAntisymmetric(x, y);
      CompareAntisymmetric(y, z);
      CompareAntisymmetric(x, z);
      if Compare(x, y) <= 0 && Compare(y, z) <= 0 {
        CompareTransitive(keys, x, y, z);
      }
      if Compare(z, y) <= 0 && Compare(y, x) <= 0 {
        CompareTransitive(keys, z, y, x);
      }
      if Compare(x, y) == 0 && Compare(y, z) == 0 {
        AlikeTransitive(orderBy[1..], columns, rows, a, b, c);
      }
    }
  }

  lemma KeyAmong(o: Clause, columns: map<string, nat>, rows: seq<Row>, a: Row)
    requires a in rows
    ensures KeyOf(o, columns, a) in KeysOf(o, columns, rows)
  {
    var i :| 0 <= i < |rows| && rows[i] == a;
    assert KeysOf(o, columns, rows)[i] == KeyOf(o, columns, a);
  }

  lemma AlikeIsTransitive(orderBy: seq<Clause>, columns: map<string, nat>, rows: seq<Row>)
    requires AllAlike(orderBy, columns, rows)
    ensures Transitive(orderBy, columns, rows)
  {
    hide RowCompare, AllAlike;
    forall a, b, c | a in rows && b in rows && c in rows && Ordered(orderBy, columns, a, b)
        && Ordered(orderBy, columns, b, c)
      ensures Ordered(orderBy, columns, a, c)
    {
      AlikeTransitive(orderBy, columns, rows, a, b, c);
    }
  }
}
