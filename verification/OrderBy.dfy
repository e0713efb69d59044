// ORDER BY: the insertion sort of executor/executor.go.

module OrderBy {
  import opened Collections
  import opened ValueOrder

  datatype Order = Order(orderBy: seq<Clause>, columns: map<string, nat>) {
    predicate Swaps(a: Row, b: Row) {
      Swap(orderBy, columns, a, b)
    }

    ghost predicate TransitiveOn(rows: seq<Row>) {
      Transitive(orderBy, columns, rows)
    }
  }

  // Where the inner loop leaves the last row: it moves left past every row it should swap with.
  function Inserted(o: Order, rows: seq<Row>, x: Row): (r: seq<Row>)
    ensures |r| == |rows| + 1
  {
    if rows == [] || !o.Swaps(rows[|rows| - 1], x) then rows + [x]
    else Inserted(o, rows[..|rows| - 1], x) + [rows[|rows| - 1]]
  }

  function Sorted(o: Order, rows: seq<Row>): (r: seq<Row>)
    ensures |r| == |rows|
  {
    if rows == [] then [] else Inserted(o, Sorted(o, rows[..|rows| - 1]), rows[|rows| - 1])
  }

  method SortRows(rows: seq<Row>, o: Order) returns (r: seq<Row>)
    ensures r == if o.orderBy == [] then rows else Sorted(o, rows)
  {
    if |o.orderBy| == 0 || |rows| == 0 {
      return rows;
    }
    var sorted := new Row[|rows|](i requires 0 <= i < |rows| => rows[i]);
    SortedOne(o, rows[..1]);
    assert sorted[..1] == rows[..1];
    var i := 1;
    while i < sorted.Length
      invariant 1 <= i <= sorted.Length
      invariant sorted[..i] == Sorted(o, rows[..i])
      invariant sorted[i..] == rows[i..]
    {
      SortedStep(o, rows, i);
      assert sorted[i] == sorted[i..][0];
      MoveLeft(sorted, i, o);
      assert sorted[i + 1..] == rows[i..][1..];
      i := i + 1;
    }
    assert rows[..i] == rows;
    r := sorted[..];
  }

  // The inner loop.
  method MoveLeft(sorted: array<Row>, i: nat, o: Order)
    requires i < sorted.Length
    modifies sorted
    ensures sorted[..i + 1] == Inserted(o, old(sorted[..i]), old(sorted[i]))
    ensures sorted[i + 1..] == old(sorted[i + 1..])
  {
    hide Swap, Inserted;
    ghost var x, before, rest := sorted[i], sorted[..i], sorted[i + 1..];
    assert sorted[..] == before[..i] + [x] + before[i..] + rest;
    assert before[..i] == before;
    assert before[i..] == [];
    var j := i;
    while j > 0
      invariant 0 <= j <= i == |before|
      invariant sorted[..] == Shifted(before, x, rest, j)
      invariant Inserted(o, before, x) == Inserted(o, before[..j], x) + before[j..]
    {
      ShiftedAt(before, x, rest, j);
      assert sorted[..][j - 1] == sorted[j - 1] && sorted[..][j] == sorted[j];
      var swap := ShouldSwap(sorted[j - 1], sorted[j], o.orderBy, o.columns);
      InsertedStep(o, before, x, j, swap);
      if !swap {
        break;
      }
      ghost var was := sorted[..];
      sorted[j - 1], sorted[j] := sorted[j], sorted[j - 1];
      assert sorted[..] == was[j - 1 := was[j]][j := was[j - 1]];
      j := j - 1;
    }
    InsertedStep(o, before, x, j, false);
    ShiftedEnds(before, x, rest, j);
    assert sorted[..i + 1] == sorted[..][..i + 1] && sorted[i + 1..] == sorted[..][i + 1..];
  }

  // The array while x is on its way left: it stands at position j.
  ghost function Shifted<T>(before: seq<T>, x: T, rest: seq<T>, j: nat): (s: seq<T>)
    requires j <= |before|
    ensures |s| == |before| + 1 + |rest|
  {
    before[..j] + [x] + before[j..] + rest
  }

  lemma ShiftedAt<T>(before: seq<T>, x: T, rest: seq<T>, j: nat)
    requires 0 < j <= |before|
    ensures var s := Shifted(before, x, rest, j);
            s[j - 1] == before[j - 1] && s[j] == x && s[j - 1 := s[j]][j := s[j - 1]] == Shifted(before, x, rest, j - 1)
  {
  }

  lemma ShiftedEnds<T>(before: seq<T>, x: T, rest: seq<T>, j: nat)
    requires j <= |before|
    ensures var s := Shifted(before, x, rest, j);
            s[..|before| + 1] == before[..j] + [x] + before[j..] && s[|before| + 1..] == rest
  {
  }

  lemma InsertedStep(o: Order, before: seq<Row>, x: Row, j: nat, swap: bool)
    requires j <= |before| && (j > 0 ==> swap == o.Swaps(before[j - 1], x)) && (j == 0 ==> !swap)
    ensures Inserted(o, before[..j], x) + before[j..] ==
            if swap then Inserted(o, before[..j - 1], x) + before[j - 1..] else before[..j] + [x] + before[j..]
  {
    hide Order.Swaps;
    if swap {
      assert before[..j][..j - 1] == before[..j - 1];
      assert [before[j - 1]] + before[j..] == before[j - 1..];
    }
  }

  lemma SortedOne(o: Order, rows: seq<Row>)
    requires |rows| == 1
    ensures Sorted(o, rows) == rows
  {
    assert rows[..0] == [];
    assert Sorted(o, []) == [];
    assert [] + [rows[0]] == rows;
  }

  lemma SortedStep(o: Order, rows: seq<Row>, i: nat)
    requires i < |rows|
    ensures Sorted(o, rows[..i + 1]) == Inserted(o, Sorted(o, rows[..i]), rows[i])
    ensures rows[i..][0] == rows[i] && rows[i..][1..] == rows[i + 1..]
  {
    assert rows[..i + 1][..i] == rows[..i];
  }

  // ---------------------------------------------------------------- permutation

  lemma {:induction false} InsertedIsPermutation(o: Order, rows: seq<Row>, x: Row)
    ensures multiset(Inserted(o, rows, x)) == multiset(rows) + multiset{x}
  {
    if rows != [] {
      InsertedIsPermutation(o, rows[..|rows| - 1], x);
      assert rows == rows[..|rows| - 1] + [rows[|rows| - 1]];
    }
  }

  lemma {:induction false} SortedIsPermutation(o: Order, rows: seq<Row>)
    ensures multiset(Sorted(o, rows)) == multiset(rows)
  {
    if rows != [] {
      var n := |rows| - 1;
      SortedIsPermutation(o, rows[..n]);
      InsertedIsPermutation(o, Sorted(o, rows[..n]), rows[n]);
      assert rows == rows[..n] + [rows[n]];
    }
  }

  // ---------------------------------------------------------------- neighbours

  ghost predicate NeighboursInOrder(o: Order, rows: seq<Row>) {
    forall i | 0 < i < |rows| :: !o.Swaps(rows[i - 1], rows[i])
  }

  lemma SwapsAsymmetric(o: Order, a: Row, b: Row)
    ensures !(o.Swaps(a, b) && o.Swaps(b, a))
  {
    RowCompareAntisymmetric(o.orderBy, o.columns, a, b);
  }

  lemma {:induction false} InsertedNeighbours(o: Order, rows: seq<Row>, x: Row)
    requires NeighboursInOrder(o, rows)
    ensures NeighboursInOrder(o, Inserted(o, rows, x))
    ensures var last := Inserted(o, rows, x)[|rows|];
            last == x || (rows != [] && last == rows[|rows| - 1])
  {
    hide Order.Swaps;
    if rows != [] && o.Swaps(rows[|rows| - 1], x) {
      var n := |rows| - 1;
      assert NeighboursInOrder(o, rows[..n]);
      InsertedNeighbours(o, rows[..n], x);
      SwapsAsymmetric(o, rows[n], x);
      assert n > 0 ==> !o.Swaps(rows[n - 1], rows[n]);
    }
  }

  // Whatever the rows, no two neighbours of the result should be swapped. This needs only
  // that the swap test is asymmetric.
  lemma {:induction false} SortedNeighbours(o: Order, rows: seq<Row>)
    ensures NeighboursInOrder(o, Sorted(o, rows))
  {
    if rows != [] {
      var n := |rows| - 1;
      SortedNeighbours(o, rows[..n]);
      InsertedNeighbours(o, Sorted(o, rows[..n]), rows[n]);
    }
  }

  // ---------------------------------------------------------------- sorted and stable

  ghost predicate InOrder(o: Order, rows: seq<Row>) {
    forall i, j | 0 <= i < j < |rows| :: !o.Swaps(rows[i], rows[j])
  }

  lemma TransitiveStep(o: Order, pool: seq<Row>, a: Row, b: Row, c: Row)
    requires o.TransitiveOn(pool) && a in pool && b in pool && c in pool
    requires !o.Swaps(a, b) && !o.Swaps(b, c)
    ensures !o.Swaps(a, c)
  {
    hide RowCompare;
    assert Ordered(o.orderBy, o.columns, a, b) && Ordered(o.orderBy, o.columns, b, c);
  }

  lemma {:induction false} NeighboursToAll(o: Order, pool: seq<Row>, rows: seq<Row>, i: nat, j: nat)
    requires o.TransitiveOn(pool) && NeighboursInOrder(o, rows) && forall row | row in rows :: row in pool
    requires i < j < |rows|
    ensures !o.Swaps(rows[i], rows[j])
    decreases j - i
  {
    hide Order.Swaps, Order.TransitiveOn;
    if i + 1 < j {
      NeighboursToAll(o, pool, rows, i, j - 1);
      assert rows[i] in rows && rows[j - 1] in rows && rows[j] in rows;
      TransitiveStep(o, pool, rows[i], rows[j - 1], rows[j]);
    }
  }

  // Sorting any rows of a pool puts them in order exactly when the comparison is transitive on
  // the pool.
  lemma SortsExactlyWhenTransitive(o: Order, pool: seq<Row>)
    ensures o.TransitiveOn(pool) <==>
            forall rows: seq<Row> | (forall row | row in rows :: row in pool) :: InOrder(o, Sorted(o, rows))
  {
    hide Sorted;
    if o.TransitiveOn(pool) {
      forall rows: seq<Row> | forall row | row in rows :: row in pool
        ensures InOrder(o, Sorted(o, rows))
      {
        SortedInOrder(o, pool, rows);
      }
    } else {
      hide RowCompare, Order.Swaps;
      var a, b, c :| a in pool && b in pool && c in pool && Ordered(o.orderBy, o.columns, a, b)
          && Ordered(o.orderBy, o.columns, b, c) && !Ordered(o.orderBy, o.columns, a, c);
      OrderedIsNoSwap(o, a, b);
      OrderedIsNoSwap(o, b, c);
      OrderedIsNoSwap(o, a, c);
      SortsThree(o, a, b, c);
      var rows := [a, b, c];
      assert forall row | row in rows :: row in pool;
      assert !o.Swaps(a, b) && o.Swaps(rows[0], rows[2]);
      assert !InOrder(o, Sorted(o, rows));
    }
  }

  lemma OrderedIsNoSwap(o: Order, a: Row, b: Row)
    ensures Ordered(o.orderBy, o.columns, a, b) <==> !o.Swaps(a, b)
  {
  }

  lemma SortsThree(o: Order, a: Row, b: Row, c: Row)
    requires !o.Swaps(a, b) && !o.Swaps(b, c)
    ensures Sorted(o, [a, b, c]) == [a, b, c]
  {
    hide Order.Swaps;
    assert [a, b, c][..2] == [a, b] && [a, b][..1] == [a];
    SortedOne(o, [a]);
    assert [a] + [b] == [a, b] && [a, b] + [c] == [a, b, c];
    assert Sorted(o, [a, b]) == [a, b];
  }

  lemma SortedInOrder(o: Order, pool: seq<Row>, rows: seq<Row>)
    requires o.TransitiveOn(pool) && forall row | row in rows :: row in pool
    ensures InOrder(o, Sorted(o, rows))
  {
    hide Order.Swaps, Order.TransitiveOn, Sorted;
    var r := Sorted(o, rows);
    SortedIsPermutation(o, rows);
    SortedNeighbours(o, rows);
    forall row | row in r
      ensures row in pool
    {
      assert row in multiset(r);
      assert row in rows;
    }
    forall i, j | 0 <= i < j < |r|
      ensures !o.Swaps(r[i], r[j])
    {
      NeighboursToAll(o, pool, r, i, j);
    }
  }

  // Neither of the two rows should go before the other.
  predicate Tied(o: Order, a: Row, b: Row) {
    !o.Swaps(a, b) && !o.Swaps(b, a)
  }

  // The rows that tie with z, in their order.
  function TiesOf(o: Order, z: Row, rows: seq<Row>): seq<Row> {
    if rows == [] then []
    else TiesOf(o, z, rows[..|rows| - 1]) + if Tied(o, z, rows[|rows| - 1]) then [rows[|rows| - 1]] else []
  }

  lemma {:induction false} InsertedTies(o: Order, pool: seq<Row>, rows: seq<Row>, x: Row, z: Row)
    requires o.TransitiveOn(pool) && x in pool && z in pool && forall row | row in rows :: row in pool
    ensures TiesOf(o, z, Inserted(o, rows, x)) == TiesOf(o, z, rows) + if Tied(o, z, x) then [x] else []
  {
    hide Order.Swaps, Order.TransitiveOn, Tied, TiesOf;
    if rows != [] && o.Swaps(rows[|rows| - 1], x) {
      var n := |rows| - 1;
      assert forall row | row in rows[..n] :: row in rows;
      InsertedTies(o, pool, rows[..n], x, z);
      TiesSnoc(o, z, Inserted(o, rows[..n], x), rows[n]);
      assert rows == rows[..n] + [rows[n]];
      TiesSnoc(o, z, rows[..n], rows[n]);
      assert rows[n] in rows;
      NotBothTied(o, pool, rows[n], x, z);
      var ties := TiesOf(o, z, rows[..n]);
      assert Tied(o, z, x) ==> (ties + [x]) + [] == (ties + []) + [x];
    } else {
      TiesSnoc(o, z, rows, x);
    }
  }

  lemma TiesSnoc(o: Order, z: Row, rows: seq<Row>, x: Row)
    ensures TiesOf(o, z, rows + [x]) == TiesOf(o, z, rows) + if Tied(o, z, x) then [x] else []
  {
    hide Tied;
    assert (rows + [x])[..|rows|] == rows;
  }

  lemma NotBothTied(o: Order, pool: seq<Row>, a: Row, x: Row, z: Row)
    requires o.TransitiveOn(pool) && a in pool && x in pool && z in pool && o.Swaps(a, x)
    ensures !Tied(o, z, x) || !Tied(o, z, a)
  {
    hide Order.Swaps, Order.TransitiveOn;
    if Tied(o, z, x) && Tied(o, z, a) {
      TransitiveStep(o, pool, a, z, x);
    }
  }

  lemma {:induction false} SortedTies(o: Order, pool: seq<Row>, rows: seq<Row>, z: Row)
    requires o.TransitiveOn(pool) && z in pool && forall row | row in rows :: row in pool
    ensures TiesOf(o, z, Sorted(o, rows)) == TiesOf(o, z, rows)
  {
    hide Order.Swaps, Order.TransitiveOn, Tied;
    if rows != [] {
      var n := |rows| - 1;
      assert forall row | row in rows[..n] :: row in rows;
      assert rows[n] in rows;
      SortedTies(o, pool, rows[..n], z);
      SortedIsPermutation(o, rows[..n]);
      forall row | row in Sorted(o, rows[..n])
        ensures row in pool
      {
        assert row in multiset(Sorted(o, rows[..n]));
        assert row in rows[..n];
      }
      InsertedTies(o, pool, Sorted(o, rows[..n]), rows[n], z);
    }
  }

  // When each sort key is of one kind over the rows, the result is a permutation in order in
  // which rows that tie keep their places relative to each other.
  lemma SortedAndStable(o: Order, rows: seq<Row>)
    requires AllAlike(o.orderBy, o.columns, rows)
    ensures InOrder(o, Sorted(o, rows))
    ensures multiset(Sorted(o, rows)) == multiset(rows)
    ensures forall z | z in rows :: TiesOf(o, z, Sorted(o, rows)) == TiesOf(o, z, rows)
  {
    hide AllAlike, Sorted, Transitive, InOrder;
    AlikeIsTransitive(o.orderBy, o.columns, rows);
    SortedInOrder(o, rows, rows);
    SortedIsPermutation(o, rows);
    forall z | z in rows
      ensures TiesOf(o, z, Sorted(o, rows)) == TiesOf(o, z, rows)
    {
      SortedTies(o, rows, rows, z);
    }
  }

  // What being in order means for the sort keys: of two rows of the result the earlier one has, at
  // the first clause whose keys differ, the smaller key or, if the clause is DESC, the larger one.
  lemma SortedByClauses(o: Order, rows: seq<Row>, i: nat, j: nat, k: nat)
    requires AllAlike(o.orderBy, o.columns, rows) && i < j < |rows| && k < |o.orderBy|
    ensures var a, b := Sorted(o, rows)[i], Sorted(o, rows)[j];
            EqualUpTo(o.orderBy, o.columns, a, b, k) ==>
              var cmp := Compare(KeyOf(o.orderBy[k], o.columns, a), KeyOf(o.orderBy[k], o.columns, b));
              if o.orderBy[k].desc then cmp >= 0 else cmp <= 0
  {
    hide AllAlike, Sorted, RowCompare, EqualUpTo, Compare, KeyOf;
    SortedAndStable(o, rows);
    SwapMeans(o.orderBy, o.columns, Sorted(o, rows)[i], Sorted(o, rows)[j]);
  }

  // The same for any two neighbours, whatever the kinds of the keys.
  lemma NeighboursByClauses(o: Order, rows: seq<Row>, i: nat, k: nat)
    requires 0 < i < |rows| && k < |o.orderBy|
    ensures var a, b := Sorted(o, rows)[i - 1], Sorted(o, rows)[i];
            EqualUpTo(o.orderBy, o.columns, a, b, k) ==>
              var cmp := Compare(KeyOf(o.orderBy[k], o.columns, a), KeyOf(o.orderBy[k], o.columns, b));
              if o.orderBy[k].desc then cmp >= 0 else cmp <= 0
  {
    hide Sorted, RowCompare, EqualUpTo, Compare, KeyOf;
    SortedNeighbours(o, rows);
    SwapMeans(o.orderBy, o.columns, Sorted(o, rows)[i - 1], Sorted(o, rows)[i]);
  }

  // ORDER BY one column that holds a number in every row: the numbers rise, or fall with DESC.
  lemma SortedNumbers(rows: seq<Row>, name: string, at: nat, desc: bool, i: nat, j: nat)
    requires forall row | row in rows :: at < |row.data| && row.data[at].Val? && row.data[at].num.Some?
                                         && row.data[at].num.value.Finite?
    requires i < j < |rows|
    ensures var r := Sorted(Order([Clause(ColumnKey(name), desc)], map[name := at]), rows);
            && r[i] in rows && r[j] in rows
            && if desc then r[i].data[at].num.value.r >= r[j].data[at].num.value.r
               else r[i].data[at].num.value.r <= r[j].data[at].num.value.r
  {
    hide Sorted, Compare;
    var o := Order([Clause(ColumnKey(name), desc)], map[name := at]);
    var r := Sorted(o, rows);
    var clause := o.orderBy[0];
    var keys := KeysOf(clause, o.columns, rows);
    forall v | v in keys
      ensures Number(v)
    {
      var m :| 0 <= m < |keys| && keys[m] == v;
      assert rows[m] in rows;
    }
    assert forall c | c in o.orderBy :: c == clause;
    SortedByClauses(o, rows, i, j, 0);
    SortedIsPermutation(o, rows);
    assert r[i] in multiset(r) && r[j] in multiset(r);
    assert r[i] in rows && r[j] in rows;
    CompareMeans(r[i].data[at], r[j].data[at]);
  }
}
