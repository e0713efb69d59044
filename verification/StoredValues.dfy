// What is stored for a value that INSERT or UPDATE is given, and which values they accept, told
// without the functions that compute it.

module StoredValues {
  import opened Collections
  import opened StoreState
  import opened StoreInvariant
  import opened RowUpdates

  // ---------------------------------------------------------------- text forms

  // The number that decimal digits stand for.
  function NumberOf(digits: string): int {
    if digits == "" then 0
    else 10 * NumberOf(digits[..|digits| - 1]) + (digits[|digits| - 1] as int - '0' as int)
  }

  lemma {:induction false} DigitsAre(n: nat)
    ensures NumberOf(Digits(n)) == n && Digits(n) != "" && (Digits(n)[0] == '0' ==> n == 0)
    ensures forall i | 0 <= i < |Digits(n)| :: '0' <= Digits(n)[i] <= '9'
  {
    if n < 10 {
      assert NumberOf("") == 0;
      assert Digits(n)[..0] == "";
    } else {
      DigitsAre(n / 10);
      assert Digits(n)[..|Digits(n)| - 1] == Digits(n / 10);
    }
  }

  // The text form: NULL, decimal digits with a minus sign for negative numbers, or the text.
  lemma ShownIs(v: Value)
    ensures v.Null? ==> Shown(v) == ['N', 'U', 'L', 'L']
    ensures v.Int? && v.n >= 0 ==> NumberOf(Shown(v)) == v.n && Shown(v) != "" && (Shown(v)[0] == '0' ==> v.n == 0)
    ensures v.Int? && v.n < 0 ==> |Shown(v)| > 1 && Shown(v)[0] == '-' && NumberOf(Shown(v)[1..]) == -v.n
                                  && Shown(v)[1] != '0'
    ensures v.Text? ==> Shown(v) == v.text
    ensures v.Other? ==> Shown(v) == v.shown
  {
    if v.Int? {
      DigitsAre(if v.n < 0 then -v.n else v.n);
    }
  }

  // ---------------------------------------------------------------- one value

  // The value as it was given or, if it is shorter than its CHAR(n), its text with spaces behind
  // it, n characters in all.
  ghost predicate Keeps(c: Column, given: Value, stored: Value) {
    if c.kind == CharType && c.length > 0 && given != Null && |Shown(given)| < c.length then
      && stored.Text? && |stored.text| == c.length
      && stored.text[..|Shown(given)|] == Shown(given)
      && forall k | |Shown(given)| <= k < c.length :: stored.text[k] == ' '
    else stored == given
  }

  // Not longer than CHAR(n) or VARCHAR(n) allows, and not null unless the column may be.
  ghost predicate Allowed(c: Column, v: Value, exempt: bool) {
    && (c.kind == CharType && c.length > 0 && v != Null ==> |Shown(v)| <= c.length)
    && (c.kind == VarcharType && c.length > 0 ==> |Shown(v)| <= c.length)
    && (v == Null ==> c.nullable || exempt)
  }

  lemma {:induction false} SpacesAre(n: nat)
    ensures forall k | 0 <= k < n :: Spaces(n)[k] == ' '
  {
    if n > 0 {
      SpacesAre(n - 1);
    }
  }

  lemma StoredAsKeeps(c: Column, v: Value, exempt: bool)
    ensures Keeps(c, v, StoredAs(c, v))
    ensures Accepts(c, v, exempt) <==> Allowed(c, v, exempt)
  {
    hide Shown, Spaces;
    if c.length > |Shown(v)| {
      SpacesAre(c.length - |Shown(v)|);
    }
  }

  // ---------------------------------------------------------------- INSERT

  ghost predicate AllAllowed(columns: seq<Column>, given: Row) {
    forall j | 0 <= j < |columns| && j < |given| :: Allowed(columns[j], given[j], IsSequence(columns[j]))
  }

  // How many sequence columns draw from a sequence.
  function Drawn(columns: seq<Column>, table: string, key: string): nat {
    if columns == [] then 0
    else
      var last := columns[|columns| - 1];
      Drawn(columns[..|columns| - 1], table, key) + if IsSequence(last) && table + "_" + last.name == key then 1 else 0
  }

  ghost predicate Advanced(columns: seq<Column>, table: string, before: map<string, int>, after: map<string, int>) {
    forall key: string :: Current(after, key) == Current(before, key) + Drawn(columns, table, key)
  }

  // Each sequence column takes the next number of its sequence, from the left.
  lemma {:induction false} FillDraws(columns: seq<Column>, table: string, row: Row, sequences: map<string, int>,
                                     key: string, j: nat)
    requires AutoInside(columns, row)
    ensures var f := Fill(columns, table, row, sequences);
            && Current(f.sequences, key) == Current(sequences, key) + Drawn(columns, table, key)
            && (j < |columns| && j < |row| && IsSequence(columns[j]) && table + "_" + columns[j].name == key ==>
                  f.row[j] == Int(Current(sequences, key) + Drawn(columns[..j], table, key) + 1))
  {
    if columns != [] {
      var n := |columns| - 1;
      FillDraws(columns[..n], table, row, sequences, key, j);
      if j < n {
        assert columns[..n][..j] == columns[..j];
      }
    }
  }

  // Sequence columns hold the next number of their sequence, all others what they were given.
  ghost predicate InsertedAs(columns: seq<Column>, table: string, given: Row, stored: Row, before: map<string, int>) {
    && |stored| == |given|
    && (forall j | 0 <= j < |columns| && j < |given| ::
          if IsSequence(columns[j]) then
            var key := table + "_" + columns[j].name;
            stored[j] == Int((if key in before then before[key] else 0) + Drawn(columns[..j], table, key) + 1)
          else Keeps(columns[j], given[j], stored[j]))
    && forall j | |columns| <= j < |given| :: stored[j] == given[j]
  }

  lemma InsertedRowIs(columns: seq<Column>, table: string, given: Row, sequences: map<string, int>)
    requires AutoInside(columns, given)
    ensures InsertedAs(columns, table, given, Fill(columns, table, StoredRow(columns, given), sequences).row, sequences)
    ensures Advanced(columns, table, sequences, Fill(columns, table, StoredRow(columns, given), sequences).sequences)
    ensures Acceptable(columns, given) <==> AllAllowed(columns, given)
  {
    hide Fill, Keeps, StoredAs, Allowed, Accepts, Drawn;
    var stored := StoredRow(columns, given);
    forall j | 0 <= j < |given|
      ensures var x := Fill(columns, table, stored, sequences).row[j];
              if j >= |columns| then x == given[j]
              else if IsSequence(columns[j]) then
                var key := table + "_" + columns[j].name;
                x == Int(Current(sequences, key) + Drawn(columns[..j], table, key) + 1)
              else Keeps(columns[j], given[j], x)
    {
      FillSets(columns, table, stored, sequences, j);
      if j < |columns| {
        FillDraws(columns, table, stored, sequences, table + "_" + columns[j].name, j);
      }
      if j < |columns| {
        StoredAsKeeps(columns[j], given[j], false);
      }
    }
    forall key: string
      ensures var after := Fill(columns, table, stored, sequences).sequences;
              Current(after, key) == Current(sequences, key) + Drawn(columns, table, key)
    {
      FillDraws(columns, table, stored, sequences, key, 0);
    }
    forall j | 0 <= j < |columns| && j < |given|
      ensures Accepts(columns[j], given[j], columns[j].Auto())
              <==> Allowed(columns[j], given[j], IsSequence(columns[j]))
    {
      StoredAsKeeps(columns[j], given[j], columns[j].Auto());
    }
  }

  // The last insert id is the value of the last sequence column, zero if there is none.
  ghost predicate LastID(columns: seq<Column>, stored: Row, last: int) {
    && ((forall j | 0 <= j < |columns| :: !IsSequence(columns[j])) ==> last == 0)
    && forall j: nat | IsLastSequence(columns, j) :: j < |stored| && stored[j] == Int(last)
  }

  predicate IsSequence(c: Column) {
    c.autoInc || c.kind == SeqType
  }

  ghost predicate IsLastSequence(columns: seq<Column>, j: nat) {
    j < |columns| && IsSequence(columns[j]) && forall k | j < k < |columns| :: !IsSequence(columns[k])
  }

  lemma {:induction false} LastIs(columns: seq<Column>, table: string, row: Row, sequences: map<string, int>)
    requires AutoInside(columns, row)
    ensures LastID(columns, Fill(columns, table, row, sequences).row, Fill(columns, table, row, sequences).last)
  {
    hide SeqKey, Current, IsLastSequence;
    if columns != [] {
      var n := |columns| - 1;
      assert forall i | 0 <= i < n :: columns[..n][i] == columns[i];
      LastIs(columns[..n], table, row, sequences);
      forall j: nat
        ensures IsLastSequence(columns, j)
                <==> if IsSequence(columns[n]) then j == n else IsLastSequence(columns[..n], j)
      {
        LastSequenceStep(columns, j);
      }
      assert IsSequence(columns[n]) == columns[n].Auto();
    } else {
      NoLastSequence(columns);
    }
  }

  lemma NoLastSequence(columns: seq<Column>)
    requires columns == []
    ensures forall j: nat :: !IsLastSequence(columns, j)
  {
  }

  lemma LastSequenceStep(columns: seq<Column>, j: nat)
    requires columns != []
    ensures var n := |columns| - 1;
            IsLastSequence(columns, j) <==> if IsSequence(columns[n]) then j == n else IsLastSequence(columns[..n], j)
  {
    var n := |columns| - 1;
    assert forall i | 0 <= i < n :: columns[..n][i] == columns[i];
  }

  // ---------------------------------------------------------------- UPDATE

  ghost predicate Barred(columns: seq<Column>, row: Row, u: Assignment) {
    u.column < |row| && u.column < |columns| && !Allowed(columns[u.column], u.value, false)
  }

  // The statement stops at this row: it is selected and given a value that is not allowed.
  ghost predicate Stops(columns: seq<Column>, row: Row, updater: Updater, condition: Condition) {
    condition(row) && exists u :: u in updater(row) && Barred(columns, row, u)
  }

  ghost predicate GivenTo(columns: seq<Column>, u: Assignment, stored: Value) {
    if u.column < |columns| then Keeps(columns[u.column], u.value, stored) else stored == u.value
  }

  // A row that is updated: assigned columns hold what they are given, the others stay.
  ghost predicate RowUpdated(columns: seq<Column>, row: Row, now: Row, updates: seq<Assignment>) {
    && |now| == |row|
    && (forall u | u in updates && u.column < |row| :: GivenTo(columns, u, now[u.column]))
    && forall j | 0 <= j < |row| && (forall u | u in updates :: u.column != j) :: now[j] == row[j]
  }

  // The row at which the statement stops: some columns may hold what they are given already.
  ghost predicate RowPartlyUpdated(columns: seq<Column>, row: Row, now: Row, updates: seq<Assignment>) {
    |now| == |row| && forall j | 0 <= j < |row| ::
      now[j] == row[j] || exists u :: u in updates && u.column == j && GivenTo(columns, u, now[j])
  }

  // All rows after the statement.
  ghost predicate UpdatedTo(columns: seq<Column>, rows: seq<Row>, now: seq<Row>, updater: Updater,
                            condition: Condition) {
    |now| == |rows| && forall i | 0 <= i < |rows| ::
      if exists k :: 0 <= k < i && Stops(columns, rows[k], updater, condition) then now[i] == rows[i]
      else if Stops(columns, rows[i], updater, condition) then
        RowPartlyUpdated(columns, rows[i], now[i], updater(rows[i]))
      else if condition(rows[i]) then RowUpdated(columns, rows[i], now[i], updater(rows[i]))
      else now[i] == rows[i]
  }

  lemma StopsIs(columns: seq<Column>, row: Row, updater: Updater, condition: Condition)
    ensures Stops(columns, row, updater, condition) <==> condition(row) && Refuses(columns, row, updater(row))
  {
    hide Allowed, Accepts;
    forall u: Assignment | u.column < |columns|
      ensures Accepts(columns[u.column], u.value, false) <==> Allowed(columns[u.column], u.value, false)
    {
      StoredAsKeeps(columns[u.column], u.value, false);
    }
    if condition(row) && Refuses(columns, row, updater(row)) {
      var u :| u in updater(row) && Refused(columns, row, u);
      assert u.column < |row|;
    }
  }

  lemma GivenIs(columns: seq<Column>, u: Assignment)
    ensures GivenTo(columns, u, StoredFor(columns, u))
  {
    if u.column < |columns| {
      StoredAsKeeps(columns[u.column], u.value, false);
    }
  }

  lemma AssignedIs(columns: seq<Column>, row: Row, updates: Updates)
    ensures var now := Assign(columns, row, updates).row;
            if Refuses(columns, row, updates) then RowPartlyUpdated(columns, row, now, updates)
            else RowUpdated(columns, row, now, updates)
  {
    hide Assign, Refused, StoredFor, GivenTo, FirstRefused;
    var now, k := Assign(columns, row, updates).row, FirstRefused(columns, row, updates);
    AssignFails(columns, row, updates);
    forall j | 0 <= j < |row|
      ensures now[j] == row[j] || exists u :: u in updates && u.column == j && GivenTo(columns, u, now[j])
      ensures (forall u | u in updates :: u.column != j) ==> now[j] == row[j]
    {
      AssignedColumn(columns, row, updates, j);
      if i :| AssignsTo(updates, k, j, i) {
        GivenIs(columns, updates[i]);
        assert updates[i] in updates;
      }
    }
    if !Refuses(columns, row, updates) {
      forall u | u in updates && u.column < |row|
        ensures GivenTo(columns, u, now[u.column])
      {
        var i :| 0 <= i < |updates| && updates[i] == u;
        AssignedColumn(columns, row, updates, u.column);
        assert AssignsTo(updates, k, u.column, i);
        GivenIs(columns, u);
      }
    }
  }

  // UPDATE in these terms.
  lemma UpdateIs(columns: seq<Column>, rows: seq<Row>, updater: Updater, condition: Condition)
    ensures var p := UpdateRows(columns, rows, updater, condition, |rows|);
            && UpdatedTo(columns, rows, p.rows, updater, condition)
            && (p.failed <==> exists i :: 0 <= i < |rows| && Stops(columns, rows[i], updater, condition))
  {
    hide UpdateRows, Assign, Refuses, RowUpdated, RowPartlyUpdated, FirstRefusing, Stops;
    var p, f := UpdateRows(columns, rows, updater, condition, |rows|), FirstRefusing(columns, rows, updater, condition);
    forall i | 0 <= i < |rows|
      ensures Stops(columns, rows[i], updater, condition)
              <==> condition(rows[i]) && Refuses(columns, rows[i], updater(rows[i]))
    {
      StopsIs(columns, rows[i], updater, condition);
    }
    forall i | 0 <= i < |rows|
      ensures p.rows[i] ==
              if i <= f && condition(rows[i]) then Assign(columns, rows[i], updater(rows[i])).row else rows[i]
    {
      UpdatedRowsAre(columns, rows, updater, condition, |rows|, i);
      AssignedIs(columns, rows[i], updater(rows[i]));
    }
    assert f < |rows| ==> Stops(columns, rows[f], updater, condition);
    if rows == [] {
      NothingFails(columns, rows, updater, condition);
    } else {
      UpdatedRowsAre(columns, rows, updater, condition, |rows|, 0);
    }
    forall i | 0 <= i < |rows|
      ensures if Refuses(columns, rows[i], updater(rows[i])) then
                RowPartlyUpdated(columns, rows[i], Assign(columns, rows[i], updater(rows[i])).row, updater(rows[i]))
              else RowUpdated(columns, rows[i], Assign(columns, rows[i], updater(rows[i])).row, updater(rows[i]))
    {
      AssignedIs(columns, rows[i], updater(rows[i]));
    }
  }

  lemma NothingFails(columns: seq<Column>, rows: seq<Row>, updater: Updater, condition: Condition)
    requires rows == []
    ensures !UpdateRows(columns, rows, updater, condition, 0).failed
  {
  }
}
