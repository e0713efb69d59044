// What an UPDATE does to each row, told from its condition and its update maps, and how much of
// that depends on the order in which Go walks a map.

module RowUpdates {
  import opened Collections
  import opened StoreState
  import opened StoreInvariant

  // ---------------------------------------------------------------- one row

  // The position of the first refused assignment, or the length.
  function FirstRefused(columns: seq<Column>, row: Row, updates: seq<Assignment>): (k: nat)
    ensures k <= |updates| && (k < |updates| ==> Refused(columns, row, updates[k]))
    ensures forall i | 0 <= i < k :: !Refused(columns, row, updates[i])
  {
    if updates == [] then 0
    else
      var n := |updates| - 1;
      var k := FirstRefused(columns, row, updates[..n]);
      if k < n then k else if Refused(columns, row, updates[n]) then n else n + 1
  }

  // An assignment to column j among the first k.
  ghost predicate AssignsTo(updates: seq<Assignment>, k: nat, j: nat, i: int) {
    0 <= i < k <= |updates| && updates[i].column == j
  }

  // The row after its assignments, whether they failed or not: a column assigned before the
  // first refused assignment has its new value, any other column its old one.
  lemma {:induction false} AssignedColumn(columns: seq<Column>, row: Row, updates: seq<Assignment>, j: nat)
    requires DistinctColumns(updates) && j < |row|
    ensures var a, k := Assign(columns, row, updates), FirstRefused(columns, row, updates);
            && (a.failed <==> k < |updates|)
            && (forall i | AssignsTo(updates, k, j, i) :: a.row[j] == StoredFor(columns, updates[i]))
            && ((forall i :: !AssignsTo(updates, k, j, i)) ==> a.row[j] == row[j])
  {
    hide Refused, StoredFor;
    if updates != [] {
      var n := |updates| - 1;
      assert forall i | 0 <= i < n :: updates[..n][i] == updates[i];
      AssignedColumn(columns, row, updates[..n], j);
      var k, before := FirstRefused(columns, row, updates), FirstRefused(columns, row, updates[..n]);
      assert forall i | AssignsTo(updates[..n], before, j, i) :: AssignsTo(updates, k, j, i);
      assert forall i | AssignsTo(updates, k, j, i) && i < n :: AssignsTo(updates[..n], before, j, i);
      assert k == n + 1 && updates[n].column == j ==> AssignsTo(updates, k, j, n);
      LateColumn(columns, row, updates);
    }
  }

  // A column outside the row is never refused.
  lemma LateColumn(columns: seq<Column>, row: Row, updates: seq<Assignment>)
    ensures forall u | u in updates && u.column >= |row| :: !Refused(columns, row, u)
  {
  }

  // The assignments leave the row as it is exactly when none before the first refused one
  // would alter it.
  lemma AssignLeavesRow(columns: seq<Column>, row: Row, updates: seq<Assignment>)
    requires DistinctColumns(updates)
    ensures Assign(columns, row, updates).row == row <==>
            forall i | 0 <= i < FirstRefused(columns, row, updates) :: !Changes(columns, row, updates[i])
  {
    hide Refused, StoredFor, Assign, FirstRefused;
    var a, k := Assign(columns, row, updates), FirstRefused(columns, row, updates);
    forall i | 0 <= i < k && updates[i].column < |row|
      ensures a.row[updates[i].column] == StoredFor(columns, updates[i])
    {
      AssignedColumn(columns, row, updates, updates[i].column);
      assert AssignsTo(updates, k, updates[i].column, i);
    }
    if forall i | 0 <= i < k :: !Changes(columns, row, updates[i]) {
      forall j | 0 <= j < |row|
        ensures a.row[j] == row[j]
      {
        AssignedColumn(columns, row, updates, j);
      }
    }
  }

  lemma AssignFails(columns: seq<Column>, row: Row, updates: seq<Assignment>)
    requires DistinctColumns(updates)
    ensures Assign(columns, row, updates).failed <==> Refuses(columns, row, updates)
  {
    hide Refused;
    FailsAtFirst(columns, row, updates);
    var k := FirstRefused(columns, row, updates);
    if k < |updates| {
      assert updates[k] in updates;
    }
  }

  lemma {:induction false} FailsAtFirst(columns: seq<Column>, row: Row, updates: seq<Assignment>)
    ensures Assign(columns, row, updates).failed <==> FirstRefused(columns, row, updates) < |updates|
  {
    hide StoredFor;
    if updates != [] {
      FailsAtFirst(columns, row, updates[..|updates| - 1]);
    }
  }

  // Some assignment of the map is refused, in whatever order it is walked.
  predicate Refuses(columns: seq<Column>, row: Row, updates: seq<Assignment>) {
    exists u | u in updates :: Refused(columns, row, u)
  }

  // ---------------------------------------------------------------- all rows

  // The first selected row with a refused value, or the number of rows.
  function FirstRefusing(columns: seq<Column>, rows: seq<Row>, updater: Updater, condition: Condition): (f: nat)
    ensures f <= |rows|
    ensures forall i | 0 <= i < f && condition(rows[i]) :: !Refuses(columns, rows[i], updater(rows[i]))
    ensures f < |rows| ==> condition(rows[f]) && Refuses(columns, rows[f], updater(rows[f]))
  {
    if rows == [] then 0
    else
      var n := |rows| - 1;
      var f := FirstRefusing(columns, rows[..n], updater, condition);
      if f < n then f
      else if condition(rows[n]) && Refuses(columns, rows[n], updater(rows[n])) then n
      else n + 1
  }

  // An UPDATE, complete or not: selected rows up to the first refusing one get their
  // assignments, all others stay; those before it are reported, in order.
  lemma {:induction false} UpdatedRowsAre(columns: seq<Column>, rows: seq<Row>, updater: Updater,
          condition: Condition, n: nat, i: nat)
    requires n <= |rows| && i < |rows|
    ensures var p, f := UpdateRows(columns, rows, updater, condition, n),
                        FirstRefusing(columns, rows, updater, condition);
            && (p.failed <==> f < n)
            && p.rows[i] == (if i < n && i <= f && condition(rows[i])
                             then Assign(columns, rows[i], updater(rows[i])).row
                             else rows[i])
            && (i in p.changed <==> i < n && i < f && condition(rows[i]))
            && Increasing(p.changed)
  {
    hide Assign, Refuses;
    if n > 0 {
      UpdatedRowsAre(columns, rows, updater, condition, n - 1, i);
      AssignFails(columns, rows[n - 1], updater(rows[n - 1]));
      var p := UpdateRows(columns, rows, updater, condition, n - 1);
      assert forall k | 0 <= k < |p.changed| :: p.changed[k] in p.changed;
      assert forall k :: k in p.changed + [n - 1] <==> k in p.changed || k == n - 1;
    }
  }

  // No assignment of the first refusing row alters it before the refused one stops the update.
  ghost predicate FailureLeftRow(columns: seq<Column>, rows: seq<Row>, updater: Updater, condition: Condition) {
    var f := FirstRefusing(columns, rows, updater, condition);
    f < |rows| ==>
      var updates := updater(rows[f]);
      forall i | 0 <= i < FirstRefused(columns, rows[f], updates) :: !Changes(columns, rows[f], updates[i])
  }

  // This is what keeps the failing row as it was.
  lemma FailureLeavesRow(columns: seq<Column>, rows: seq<Row>, updater: Updater, condition: Condition)
    ensures var f := FirstRefusing(columns, rows, updater, condition);
            FailureLeftRow(columns, rows, updater, condition) <==>
            (f < |rows| ==> UpdateRows(columns, rows, updater, condition, |rows|).rows[f] == rows[f])
  {
    hide Assign, Refuses, FirstRefused, Changes, FirstRefusing, UpdateRows;
    var f := FirstRefusing(columns, rows, updater, condition);
    if f < |rows| {
      UpdatedRowsAre(columns, rows, updater, condition, |rows|, f);
      AssignLeavesRow(columns, rows[f], updater(rows[f]));
    }
  }

  // No assignment that is made, in a row up to the first refusing one, alters its row.
  ghost predicate AltersNothing(columns: seq<Column>, rows: seq<Row>, updater: Updater, condition: Condition) {
    var f := FirstRefusing(columns, rows, updater, condition);
    forall i, k | 0 <= i < |rows| && i <= f && condition(rows[i])
                  && 0 <= k < FirstRefused(columns, rows[i], updater(rows[i])) ::
      !Changes(columns, rows[i], updater(rows[i])[k])
  }

  // This is what leaves all rows as they were.
  lemma UpdateLeavesRows(columns: seq<Column>, rows: seq<Row>, updater: Updater, condition: Condition)
    ensures AltersNothing(columns, rows, updater, condition)
            <==> UpdateRows(columns, rows, updater, condition, |rows|).rows == rows
  {
    hide Assign, Refuses, FirstRefused, Changes, FirstRefusing, UpdateRows;
    var f, p := FirstRefusing(columns, rows, updater, condition), UpdateRows(columns, rows, updater, condition, |rows|);
    forall i | 0 <= i < |rows|
      ensures p.rows[i] == rows[i] <==>
              (i <= f && condition(rows[i]) ==>
                 forall k | 0 <= k < FirstRefused(columns, rows[i], updater(rows[i])) ::
                   !Changes(columns, rows[i], updater(rows[i])[k]))
    {
      UpdatedRowsAre(columns, rows, updater, condition, |rows|, i);
      AssignLeavesRow(columns, rows[i], updater(rows[i]));
    }
  }

  // ---------------------------------------------------------------- map orders

  ghost predicate SameAssignments(a: seq<Assignment>, b: seq<Assignment>) {
    forall u :: u in a <==> u in b
  }

  // The same update maps, walked in other orders.
  ghost predicate SameMaps(a: Updater, b: Updater) {
    forall row: Row :: SameAssignments(a(row), b(row))
  }

  lemma {:induction false} SameRefusing(columns: seq<Column>, rows: seq<Row>, a: Updater, b: Updater,
          condition: Condition)
    requires SameMaps(a, b)
    ensures FirstRefusing(columns, rows, a, condition) == FirstRefusing(columns, rows, b, condition)
  {
    hide Refused;
    if rows != [] {
      var n := |rows| - 1;
      SameRefusing(columns, rows[..n], a, b, condition);
      assert SameAssignments(a(rows[n]), b(rows[n]));
    }
  }

  // The map walked with one assignment first.
  ghost function Fronted(updates: Updates, first: Assignment): (r: Updates)
    ensures SameAssignments(updates, r)
    ensures first in updates ==> r != [] && r[0] == first
  {
    if first in updates then
      var i :| 0 <= i < |updates| && updates[i] == first;
      FrontedIsSame(updates, i);
      [updates[i]] + updates[..i] + updates[i + 1..]
    else updates
  }

  lemma FrontedIsSame(updates: Updates, i: nat)
    requires i < |updates|
    ensures var r := [updates[i]] + updates[..i] + updates[i + 1..];
            DistinctColumns(r) && SameAssignments(updates, r)
  {
    var r := [updates[i]] + updates[..i] + updates[i + 1..];
    assert forall k | 0 < k <= i :: r[k] == updates[k - 1];
    assert forall k | i < k < |r| :: r[k] == updates[k];
    assert updates == updates[..i] + [updates[i]] + updates[i + 1..];
  }

  ghost function FrontedUpdater(updater: Updater, first: Assignment): (v: Updater)
    ensures SameMaps(updater, v)
    ensures forall row: Row | first in updater(row) :: v(row) != [] && v(row)[0] == first
  {
    (row: Row) => Fronted(updater(row), first)
  }

  // No accepted assignment of the first refusing row would alter it.
  ghost predicate NothingToLose(columns: seq<Column>, rows: seq<Row>, updater: Updater, condition: Condition) {
    var f := FirstRefusing(columns, rows, updater, condition);
    f < |rows| ==> forall u | u in updater(rows[f]) :: Refused(columns, rows[f], u) || !Changes(columns, rows[f], u)
  }

  // The failing row is kept in every order exactly when it has nothing to lose.
  lemma KeptInEveryOrder(columns: seq<Column>, rows: seq<Row>, updater: Updater, condition: Condition)
    ensures (forall v: Updater | SameMaps(updater, v) :: FailureLeftRow(columns, rows, v, condition))
            <==> NothingToLose(columns, rows, updater, condition)
  {
    hide Refused, Changes, FirstRefusing, FirstRefused;
    var f := FirstRefusing(columns, rows, updater, condition);
    if NothingToLose(columns, rows, updater, condition) {
      forall v: Updater | SameMaps(updater, v)
        ensures FailureLeftRow(columns, rows, v, condition)
      {
        SameRefusing(columns, rows, updater, v, condition);
        if f < |rows| {
          assert SameAssignments(updater(rows[f]), v(rows[f]));
          assert forall i | 0 <= i < |v(rows[f])| :: v(rows[f])[i] in v(rows[f]);
        }
      }
    } else {
      var u :| u in updater(rows[f]) && !Refused(columns, rows[f], u) && Changes(columns, rows[f], u);
      LosesItFirst(columns, rows, updater, condition, u);
    }
  }

  // In the order that takes it first, such an assignment is made before the update fails.
  lemma LosesItFirst(columns: seq<Column>, rows: seq<Row>, updater: Updater, condition: Condition, u: Assignment)
    requires var f := FirstRefusing(columns, rows, updater, condition);
             f < |rows| && u in updater(rows[f]) && !Refused(columns, rows[f], u)
    ensures var v, f := FrontedUpdater(updater, u), FirstRefusing(columns, rows, updater, condition);
            && FirstRefusing(columns, rows, v, condition) == f
            && v(rows[f]) != [] && v(rows[f])[0] == u && FirstRefused(columns, rows[f], v(rows[f])) > 0
    ensures Changes(columns, rows[FirstRefusing(columns, rows, updater, condition)], u) ==>
              !FailureLeftRow(columns, rows, FrontedUpdater(updater, u), condition)
  {
    hide Refused, Changes, FirstRefusing;
    SameRefusing(columns, rows, updater, FrontedUpdater(updater, u), condition);
  }

  // No assignment of a selected row before the first refusing one would alter its row.
  ghost predicate NothingToGain(columns: seq<Column>, rows: seq<Row>, updater: Updater, condition: Condition) {
    forall i, u | 0 <= i < FirstRefusing(columns, rows, updater, condition) && condition(rows[i])
        && u in updater(rows[i]) ::
      !Changes(columns, rows[i], u)
  }

  // All rows are kept in every order exactly when there is nothing to lose and nothing to gain.
  lemma UntouchedInEveryOrder(columns: seq<Column>, rows: seq<Row>, updater: Updater, condition: Condition)
    ensures (forall v: Updater | SameMaps(updater, v) :: AltersNothing(columns, rows, v, condition))
            <==> NothingToLose(columns, rows, updater, condition) && NothingToGain(columns, rows, updater, condition)
  {
    hide Refused, Changes, FirstRefusing, NothingToLose, NothingToGain, AltersNothing, FailureLeftRow, SameMaps;
    KeptInEveryOrder(columns, rows, updater, condition);
    forall v: Updater | SameMaps(updater, v)
      ensures AltersNothing(columns, rows, v, condition)
              <==> FailureLeftRow(columns, rows, v, condition) && NothingToGain(columns, rows, updater, condition)
    {
      AltersInOrder(columns, rows, updater, v, condition);
    }
    SameMapsRefl(updater);
  }

  lemma SameMapsRefl(updater: Updater)
    ensures SameMaps(updater, updater)
  {
  }

  lemma AltersInOrder(columns: seq<Column>, rows: seq<Row>, updater: Updater, v: Updater, condition: Condition)
    requires SameMaps(updater, v)
    ensures AltersNothing(columns, rows, v, condition)
            <==> FailureLeftRow(columns, rows, v, condition) && NothingToGain(columns, rows, updater, condition)
  {
    hide Refused, Changes, FirstRefusing;
    SameRefusing(columns, rows, updater, v, condition);
    var f := FirstRefusing(columns, rows, updater, condition);
    forall i | 0 <= i < f && condition(rows[i])
      ensures (forall k | 0 <= k < FirstRefused(columns, rows[i], v(rows[i])) ::
              !Changes(columns, rows[i], v(rows[i])[k]))
              <==> forall u | u in updater(rows[i]) :: !Changes(columns, rows[i], u)
    {
      AllAssigned(columns, rows[i], updater(rows[i]), v(rows[i]));
    }
  }

  // A map without a refused value is assigned completely.
  lemma AllAssigned(columns: seq<Column>, row: Row, updates: Updates, v: Updates)
    requires SameAssignments(updates, v) && !Refuses(columns, row, updates)
    ensures (forall k | 0 <= k < FirstRefused(columns, row, v) :: !Changes(columns, row, v[k]))
            <==> forall u | u in updates :: !Changes(columns, row, u)
  {
    hide Refused, Changes;
    var k := FirstRefused(columns, row, v);
    assert forall i | 0 <= i < |v| :: v[i] in v;
    assert forall i | 0 <= i < |v| :: !Refused(columns, row, v[i]);
    assert k == |v|;
  }
}
