// The state of the row-list store of storage/storage.go and what each statement does to it.

module StoreState {
  import opened Collections

  // `Other` stands for the kinds the store never looks into; `shown` is their text form.
  datatype Value = Null | Int(n: int) | Text(text: string) | Other(kind: nat, shown: string)

  type Row = seq<Value>

  datatype ColumnType = CharType | VarcharType | SeqType | OtherType

  datatype Column = Column(name: string, kind: ColumnType, length: int, nullable: bool, autoInc: bool) {
    predicate Auto() {
      autoInc || kind == SeqType
    }
  }

  datatype Table = Table(id: nat, columns: seq<Column>, rowCount: int)

  datatype State = State(
    tables: map<string, Table>,
    rowData: map<string, seq<Row>>,
    rowIDs: map<string, seq<nat>>,
    sequences: map<string, int>,
    nextID: nat)

  // What writeWAL is handed. The update record's old row is the updated row: both slices
  // share their backing array.
  datatype Record =
    | Insert(tableID: nat, rowID: nat, row: Row)
    | Update(tableID: nat, rowID: nat, row: Row, oldRow: Row)
    | Delete(tableID: nat, rowID: nat, row: Row)
    | DropTable(tableID: nat, name: string)

  // One statement: the new state, the records it logs in order, and whether it succeeded.
  datatype Effect = Effect(state: State, records: seq<Record>, ok: bool)

  function Get<T>(m: map<string, seq<T>>, name: string): seq<T> {
    if name in m then m[name] else []
  }

  // ---------------------------------------------------------------- values and columns

  function Digits(n: nat): string {
    if n < 10 then [('0' as int + n) as char] else Digits(n / 10) + [('0' as int + n % 10) as char]
  }

  // ToString
  function Shown(v: Value): string {
    match v
    case Null => "NULL"
    case Int(n) => if n < 0 then "-" + Digits(-n) else Digits(n)
    case Text(s) => s
    case Other(_, s) => s
  }

  function Spaces(n: nat): (s: string)
    ensures |s| == n
  {
    if n == 0 then "" else Spaces(n - 1) + " "
  }

  predicate Fits(c: Column, v: Value) {
    && (c.kind == CharType && c.length > 0 && v != Null ==> |Shown(v)| <= c.length)
    && (c.kind == VarcharType && c.length > 0 ==> |Shown(v)| <= c.length)
  }

  // `exempt`: INSERT lets a null pass that it will replace by a sequence value.
  predicate Accepts(c: Column, v: Value, exempt: bool) {
    Fits(c, v) && (v == Null ==> c.nullable || exempt)
  }

  function StoredAs(c: Column, v: Value): Value {
    if c.kind == CharType && c.length > 0 && v != Null && |Shown(v)| < c.length
    then Text(Shown(v) + Spaces(c.length - |Shown(v)|))
    else v
  }

  // The value has the length its column asks for.
  predicate Measured(c: Column, v: Value) {
    && (c.kind == CharType && c.length > 0 && v != Null ==> |Shown(v)| == c.length)
    && (c.kind == VarcharType && c.length > 0 ==> |Shown(v)| <= c.length)
  }

  // What a stored value satisfies. Sequence values are written after the length checks.
  predicate Holds(c: Column, v: Value) {
    (!c.Auto() ==> Measured(c, v)) && (!c.nullable ==> v != Null)
  }

  lemma StoredHolds(c: Column, v: Value, exempt: bool)
    requires Accepts(c, v, exempt) && (exempt && v == Null ==> c.nullable)
    ensures Holds(c, StoredAs(c, v))
  {
  }

  // A null is measured by its text form, so a short VARCHAR column refuses it.
  lemma NullInVarchar(c: Column)
    requires c.kind == VarcharType && c.nullable
    ensures Accepts(c, Null, false) <==> c.length <= 0 || c.length >= 4
  {
    assert |Shown(Null)| == 4;
  }

  // ---------------------------------------------------------------- INSERT

  predicate Acceptable(columns: seq<Column>, row: Row) {
    forall j | 0 <= j < |columns| && j < |row| :: Accepts(columns[j], row[j], columns[j].Auto())
  }

  function StoredRow(columns: seq<Column>, row: Row): (r: Row)
    ensures |r| == |row|
  {
    seq(|row|, j requires 0 <= j < |row| => if j < |columns| then StoredAs(columns[j], row[j]) else row[j])
  }

  function SeqKey(table: string, column: string): string {
    table + "_" + column
  }

  function Current(sequences: map<string, int>, key: string): int {
    if key in sequences then sequences[key] else 0
  }

  datatype Filled = Filled(row: Row, sequences: map<string, int>, last: int)

  // The auto-increment loop would index past a row that lacks such a column.
  predicate AutoInside(columns: seq<Column>, row: Row) {
    forall j | 0 <= j < |columns| && columns[j].Auto() :: j < |row|
  }

  function Fill(columns: seq<Column>, table: string, row: Row, sequences: map<string, int>): (f: Filled)
    requires AutoInside(columns, row)
    ensures |f.row| == |row|
  {
    if columns == [] then Filled(row, sequences, 0)
    else
      var n := |columns| - 1;
      var f := Fill(columns[..n], table, row, sequences);
      if !columns[n].Auto() then f
      else
        assert columns[n].Auto();
        var key := SeqKey(table, columns[n].name);
        var value := Current(f.sequences, key) + 1;
        Filled(f.row[n := Int(value)], f.sequences[key := value], value)
  }

  predicate Insertable(s: State, name: string, row: Row) {
    name in s.tables ==> AutoInside(s.tables[name].columns, row)
  }

  // The row an accepted insert appends.
  function InsertedRow(s: State, name: string, row: Row): Row
    requires Insertable(s, name, row) && name in s.tables
  {
    Fill(s.tables[name].columns, name, StoredRow(s.tables[name].columns, row), s.sequences).row
  }

  function InsertEffect(s: State, name: string, row: Row): Effect
    requires Insertable(s, name, row)
  {
    if name !in s.tables || !Acceptable(s.tables[name].columns, row) then Effect(s, [], false)
    else
      var t := s.tables[name];
      var f := Fill(t.columns, name, StoredRow(t.columns, row), s.sequences);
      Effect(State(s.tables[name := t.(rowCount := t.rowCount + 1)],
                   s.rowData[name := Get(s.rowData, name) + [f.row]],
                   s.rowIDs[name := Get(s.rowIDs, name) + [s.nextID]],
                   f.sequences, s.nextID + 1),
             [Insert(t.id, s.nextID, f.row)], true)
  }

  // ---------------------------------------------------------------- UPDATE

  // One entry of the update map.
  datatype Assignment = Assignment(column: nat, value: Value)

  ghost predicate DistinctColumns(updates: seq<Assignment>) {
    forall i, j | 0 <= i < j < |updates| :: updates[i].column != updates[j].column
  }

  // An update map in the order in which Go happens to walk it.
  type Updates = updates: seq<Assignment> | DistinctColumns(updates) witness []

  type Updater = Row -> Updates
  type Condition = Row -> bool

  // Columns outside the row are skipped; columns the table does not define are not checked.
  predicate Refused(columns: seq<Column>, row: Row, u: Assignment) {
    u.column < |row| && u.column < |columns| && !Accepts(columns[u.column], u.value, false)
  }

  function StoredFor(columns: seq<Column>, u: Assignment): Value {
    if u.column < |columns| then StoredAs(columns[u.column], u.value) else u.value
  }

  // Storing the assignment would alter the row.
  predicate Changes(columns: seq<Column>, row: Row, u: Assignment) {
    u.column < |row| && row[u.column] != StoredFor(columns, u)
  }

  datatype Assigned = Assigned(row: Row, failed: bool)

  function Assign(columns: seq<Column>, row: Row, updates: seq<Assignment>): (a: Assigned)
    ensures |a.row| == |row|
  {
    if updates == [] then Assigned(row, false)
    else
      var a := Assign(columns, row, updates[..|updates| - 1]);
      var u := updates[|updates| - 1];
      if a.failed || u.column >= |row| then a
      else if Refused(columns, row, u) then Assigned(a.row, true)
      else Assigned(a.row[u.column := StoredFor(columns, u)], false)
  }

  // The rows while the first n are done: `changed` lists the rows updated and logged; after a
  // failure nothing more happens, but the failing row keeps what was assigned before.
  datatype Progress = Progress(rows: seq<Row>, changed: seq<nat>, failed: bool)

  function UpdateRows(columns: seq<Column>, rows: seq<Row>, updater: Updater, condition: Condition,
          n: nat): (p: Progress)
    requires n <= |rows|
    ensures |p.rows| == |rows| && forall k | k in p.changed :: k < n
  {
    if n == 0 then Progress(rows, [], false)
    else
      var p := UpdateRows(columns, rows, updater, condition, n - 1);
      var row := rows[n - 1];
      if p.failed || !condition(row) then p
      else
        var a := Assign(columns, row, updater(row));
        Progress(p.rows[n - 1 := a.row], if a.failed then p.changed else p.changed + [n - 1], a.failed)
  }

  function UpdateRecords(t: nat, ids: seq<nat>, rows: seq<Row>, changed: seq<nat>): (r: seq<Record>)
    requires |ids| == |rows| && forall k | k in changed :: k < |ids|
    ensures |r| == |changed|
  {
    seq(|changed|, i requires 0 <= i < |changed| =>
      assert changed[i] in changed;
      Update(t, ids[changed[i]], rows[changed[i]], rows[changed[i]]))
  }

  predicate Parallel(s: State) {
    && s.rowData.Keys == s.rowIDs.Keys
    && forall name | name in s.rowData :: |s.rowData[name]| == |s.rowIDs[name]|
  }

  function UpdateEffect(s: State, name: string, updater: Updater, condition: Condition): Effect
    requires Parallel(s)
  {
    if name !in s.tables then Effect(s, [], false)
    else if name !in s.rowData then Effect(s, [], true)
    else
      var rows, ids := s.rowData[name], s.rowIDs[name];
      var p := UpdateRows(s.tables[name].columns, rows, updater, condition, |rows|);
      Effect(s.(rowData := s.rowData[name := p.rows]), UpdateRecords(s.tables[name].id, ids, p.rows, p.changed),
          !p.failed)
  }

  // ---------------------------------------------------------------- DELETE and DROP

  // The entries of a parallel list whose rows are kept.
  function KeptBy<T>(rows: seq<Row>, list: seq<T>, condition: Condition): (kept: seq<T>)
    requires |list| == |rows|
    ensures |kept| == |Kept(rows, condition)|
    ensures forall x | x in kept :: x in list
  {
    if rows == [] then []
    else
      var n := |rows| - 1;
      KeptBy(rows[..n], list[..n], condition) + if condition(rows[n]) then [] else [list[n]]
  }

  function DeleteRecords(t: nat, rows: seq<Row>, ids: seq<nat>, condition: Condition): (r: seq<Record>)
    requires |ids| == |rows|
    ensures |r| + |Kept(rows, condition)| == |rows|
  {
    if rows == [] then []
    else
      var n := |rows| - 1;
      DeleteRecords(t, rows[..n], ids[..n], condition) + if condition(rows[n]) then [Delete(t, ids[n], rows[n])] else []
  }

  function DeleteEffect(s: State, name: string, condition: Condition): Effect
    requires Parallel(s)
  {
    if name !in s.tables then Effect(s, [], false)
    else if name !in s.rowData then Effect(s, [], true)
    else
      var t, rows, ids := s.tables[name], s.rowData[name], s.rowIDs[name];
      var records := DeleteRecords(t.id, rows, ids, condition);
      if records == [] then Effect(s, [], true)
      else
        Effect(s.(tables := s.tables[name := t.(rowCount := t.rowCount - |records|)],
                  rowData := s.rowData[name := Kept(rows, condition)],
                  rowIDs := s.rowIDs[name := KeptBy(rows, ids, condition)]), records, true)
  }

  function AutoKeys(columns: seq<Column>, table: string): set<string> {
    set j | 0 <= j < |columns| && columns[j].Auto() :: SeqKey(table, columns[j].name)
  }

  function DropEffect(s: State, name: string): Effect {
    if name !in s.tables then Effect(s, [], false)
    else
      Effect(State(s.tables - {name}, s.rowData - {name}, s.rowIDs - {name},
                   s.sequences - AutoKeys(s.tables[name].columns, name), s.nextID),
             [DropTable(s.tables[name].id, name)], true)
  }

  function Zeroed(sequences: map<string, int>, keys: set<string>): map<string, int> {
    map key | key in sequences.Keys + keys :: if key in keys then 0 else sequences[key]
  }

  // CREATE TABLE of an in-memory database.
  function CreateEffect(s: State, name: string, columns: seq<Column>): Effect {
    if name in s.tables then Effect(s, [], false)
    else
      Effect(State(s.tables[name := Table(s.nextID, columns, 0)], s.rowData[name := []], s.rowIDs[name := []],
                   Zeroed(s.sequences, AutoKeys(columns, name)), s.nextID + 1), [], true)
  }

  // ---------------------------------------------------------------- statements

  datatype Op =
    | InsertOp(name: string, row: Row)
    | UpdateOp(name: string, updater: Updater, condition: Condition)
    | DeleteOp(name: string, condition: Condition)
    | DropOp(name: string)
    | CreateOp(name: string, columns: seq<Column>)

  predicate Callable(s: State, op: Op) {
    Parallel(s) && (op.InsertOp? ==> Insertable(s, op.name, op.row))
  }

  function Step(s: State, op: Op): Effect
    requires Callable(s, op)
  {
    match op
    case InsertOp(name, row) => InsertEffect(s, name, row)
    case UpdateOp(name, updater, condition) => UpdateEffect(s, name, updater, condition)
    case DeleteOp(name, condition) => DeleteEffect(s, name, condition)
    case DropOp(name) => DropEffect(s, name)
    case CreateOp(name, columns) => CreateEffect(s, name, columns)
  }

  // Some run of statements, with everything it logs.
  datatype Run = Start(state: State) | Then(before: Run, op: Op) {
    ghost predicate Valid()
      decreases this, 0
    {
      Then? ==> before.Valid() && Callable(before.Final(), op)
    }

    ghost function Final(): State
      requires Valid()
      decreases this, 1
    {
      if Start? then state else Step(before.Final(), op).state
    }

    ghost function Log(): seq<Record>
      requires Valid()
    {
      if Start? then [] else before.Log() + Step(before.Final(), op).records
    }

    ghost function First(): State {
      if Start? then state else before.First()
    }
  }
}
