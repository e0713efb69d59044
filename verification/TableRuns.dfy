// Runs of table-file operations, and the clear-and-reinsert rewriting that storage/storage.go
// uses to delete and update rows of a page-based table.

module TableRuns {
  import opened Bytes
  import opened Collections
  import opened RowFormat
  import opened RowCodec
  import opened TableLayout
  import opened TableFiles

  predicate RowFits(row: Row) {
    |EncodedRow(0, row)| <= MaxRowSize
  }

  lemma RowSizeIgnoresId(id: nat, row: Row)
    ensures |EncodedRow(id, row)| == 10 + |EncodeColumns(row)|
    ensures RowFits(row) <==> |EncodedRow(id, row)| <= MaxRowSize
  {
  }

  // ---------------------------------------------------------------- runs

  datatype TableOp = InsertOp(row: Row) | ClearOp | FlushOp | ScanOp

  // The list of rows a table file stands for, and the next row id.
  datatype RowList = RowList(rows: seq<RowWithID>, nextID: nat)

  function StepList(s: RowList, op: TableOp): RowList {
    match op
    case InsertOp(row) =>
      RowList(if RowFits(row) then s.rows + [RowWithID(s.nextID, row)] else s.rows, s.nextID + 1)
    case ClearOp => RowList([], s.nextID)
    case FlushOp => s
    case ScanOp => s
  }

  function RunList(s: RowList, ops: seq<TableOp>): RowList {
    if ops == [] then s else StepList(RunList(s, ops[..|ops| - 1]), ops[|ops| - 1])
  }

  // The table file refines the list: after any run, whatever the cache capacity, a scan
  // returns the rows of the list as they read back, in insertion order.
  method RunAndScan(tf: TableFile, ops: seq<TableOp>) returns (r: Result<seq<RowWithID>, StorageError>)
    requires tf.Valid()
    requires tf.storage.nextID + |ops| < U64 - 1 && tf.header.pageCount + |ops| < U32 - 1
    modifies tf, tf.storage, tf.cache, tf.cache.pages.Values
    ensures tf.Valid()
    ensures tf.Contents() == RunList(RowList(old(tf.Contents()), old(tf.storage.nextID)), ops).rows
    ensures r == ReadBack(tf.Contents())
  {
    hide EncodedRow, TableFile.Valid;
    ghost var s0 := RowList(tf.Contents(), tf.storage.nextID);
    var i := 0;
    while i < |ops|
      invariant 0 <= i <= |ops|
      invariant tf.Valid() && tf.CacheFrame()
      invariant RowList(tf.Contents(), tf.storage.nextID) == RunList(s0, ops[..i])
      invariant tf.storage.nextID <= old(tf.storage.nextID) + i
      invariant tf.header.pageCount <= old(tf.header.pageCount) + i
    {
      assert ops[..i + 1][..i] == ops[..i];
      Step(tf, ops[i]);
      i := i + 1;
    }
    assert ops[..i] == ops;
    r := GetAllRowsWithIDs(tf);
  }

  method Step(tf: TableFile, op: TableOp)
    requires tf.Valid() && tf.storage.nextID < U64 - 1 && tf.header.pageCount < U32 - 1
    modifies tf, tf.storage, tf.cache, tf.cache.pages.Values
    ensures tf.Valid() && tf.CacheFrame()
    ensures RowList(tf.Contents(), tf.storage.nextID) ==
            StepList(RowList(old(tf.Contents()), old(tf.storage.nextID)), op)
    ensures tf.header.pageCount <= old(tf.header.pageCount) + 1
  {
    hide EncodedRow;
    match op {
      case InsertOp(row) =>
        RowSizeIgnoresId(tf.storage.nextID, row);
        var _ := tf.InsertRow(row);
      case ClearOp =>
        tf.Clear();
      case FlushOp =>
        tf.Flush();
      case ScanOp =>
        var _ := GetAllRowsWithIDs(tf);
    }
  }

  // ---------------------------------------------------------------- rewriting

  function Renumbered(rows: seq<Row>, firstID: nat): (r: seq<RowWithID>)
    ensures |r| == |rows|
  {
    if rows == [] then []
    else Renumbered(rows[..|rows| - 1], firstID) + [RowWithID(firstID + |rows| - 1, rows[|rows| - 1])]
  }

  lemma RenumberedNothing(rows: seq<Row>, firstID: nat)
    ensures Renumbered(rows[..0], firstID) == []
  {
  }

  lemma RenumberedNext(rows: seq<Row>, firstID: nat, i: nat)
    requires i < |rows|
    ensures Renumbered(rows[..i + 1], firstID) == Renumbered(rows[..i], firstID) + [RowWithID(firstID + i, rows[i])]
  {
    assert rows[..i + 1][..i] == rows[..i];
  }

  // How many leading rows fit a page.
  function FittingPrefix(rows: seq<Row>): (n: nat)
    ensures n <= |rows|
    ensures forall i | 0 <= i < n :: RowFits(rows[i])
    ensures n < |rows| ==> !RowFits(rows[n])
  {
    if rows == [] || !RowFits(rows[0]) then 0 else 1 + FittingPrefix(rows[1..])
  }

  lemma FittingStep(rows: seq<Row>, i: nat)
    requires i <= FittingPrefix(rows) && i < |rows|
    ensures RowFits(rows[i]) <==> i < FittingPrefix(rows)
  {
  }

  // Clear and re-insert: the table ends up with the rows up to the first one that does not
  // fit, so rows are lost exactly when one of them is too large.
  method Rewrite(tf: TableFile, rows: seq<Row>) returns (ok: bool)
    requires tf.Valid()
    requires tf.storage.nextID + |rows| < U64 - 1 && |rows| < U32 - 2
    modifies tf, tf.storage, tf.cache, tf.cache.pages.Values
    ensures tf.Valid()
    ensures ok <==> FittingPrefix(rows) == |rows|
    ensures tf.Contents() == Renumbered(rows[..FittingPrefix(rows)], old(tf.storage.nextID))
  {
    hide EncodedRow, RowFits, TableFile.Valid, TableFile.Contents, Renumbered, FittingPrefix;
    RenumberedNothing(rows, tf.storage.nextID);
    tf.Clear();
    PageCountAfterClear(tf);
    ghost var firstID := tf.storage.nextID;
    var i := 0;
    while i < |rows|
      invariant 0 <= i <= FittingPrefix(rows)
      invariant tf.Valid() && tf.CacheFrame()
      invariant tf.storage.nextID == firstID + i && tf.header.pageCount <= i + 1
      invariant tf.Contents() == Renumbered(rows[..i], firstID)
    {
      RenumberedNext(rows, firstID, i);
      RowSizeIgnoresId(firstID + i, rows[i]);
      FittingStep(rows, i);
      var r := tf.InsertRow(rows[i]);
      if r.Err? {
        return false;
      }
      i := i + 1;
    }
    ok := true;
  }

  lemma PageCountAfterClear(tf: TableFile)
    requires tf.Valid()
    ensures tf.header.pageCount == |tf.file|
  {
  }

  function RowsOf(entries: seq<RowWithID>): (rows: seq<Row>)
    ensures |rows| == |entries| && forall i | 0 <= i < |rows| :: rows[i] == entries[i].row
  {
    if entries == [] then [] else RowsOf(entries[..|entries| - 1]) + [entries[|entries| - 1].row]
  }

  // The rows a DELETE keeps.
  method Filter(entries: seq<RowWithID>, condition: Row -> bool) returns (newRows: seq<Row>, count: nat)
    ensures newRows == Kept(RowsOf(entries), condition) && count == |entries| - |newRows|
  {
    ghost var rows := RowsOf(entries);
    newRows := [];
    count := 0;
    var i := 0;
    while i < |entries|
      invariant 0 <= i <= |entries| == |rows|
      invariant newRows == Kept(rows[..i], condition) && count + |newRows| == i
    {
      assert rows[..i + 1][..i] == rows[..i];
      var row := entries[i].row;
      if condition(row) {
        count := count + 1;
      } else {
        newRows := newRows + [row];
      }
      i := i + 1;
    }
    assert rows[..i] == rows;
  }

  // Storage.DeleteRows on a page-based table. No row that the condition does not select is
  // lost: whatever reads back from a page also fits one.
  method DeleteRows(tf: TableFile, condition: Row -> bool) returns (r: Result<nat, StorageError>)
    requires tf.Valid()
    requires tf.storage.nextID + |tf.Contents()| < U64 - 1 && |tf.Contents()| < U32 - 2
    modifies tf, tf.storage, tf.cache, tf.cache.pages.Values
    ensures tf.Valid()
    ensures r.Ok? <==> ReadBack(old(tf.Contents())).Ok?
    ensures !r.Ok? ==> tf.Contents() == old(tf.Contents())
    ensures r.Ok? ==>
              var rows := RowsOf(ReadBack(old(tf.Contents())).value);
              && r.value == |rows| - |Kept(rows, condition)|
              && tf.Contents() == if r.value == 0 then old(tf.Contents())
                                  else Renumbered(Kept(rows, condition), old(tf.storage.nextID))
  {
    KeptRowsFit(tf, condition);
    hide FittingPrefix, ReadBack, TableFile.Valid, TableFile.Contents, Kept, Renumbered, RowsOf;
    var all := GetAllRowsWithIDs(tf);
    if all.Err? {
      return Err(all.error);
    }
    var newRows, count := Filter(all.value, condition);
    if count > 0 {
      var ok := Rewrite(tf, newRows);
    }
    r := Ok(count);
  }

  lemma GoodRowsOf(tf: TableFile)
    requires tf.Valid()
    ensures SmallRows(tf.Contents())
  {
    forall i | 0 <= i < |tf.Contents()|
      ensures RowFits(tf.Contents()[i].row)
    {
      RowSizeIgnoresId(tf.Contents()[i].id, tf.Contents()[i].row);
    }
  }

  lemma KeptRowsFit(tf: TableFile, condition: Row -> bool)
    requires tf.Valid()
    ensures ReadBack(tf.Contents()).Ok? ==>
              var kept := Kept(RowsOf(ReadBack(tf.Contents()).value), condition);
              |kept| <= |tf.Contents()| && FittingPrefix(kept) == |kept| && kept[..|kept|] == kept
  {
    hide ReadBack, TableFile.Valid, TableFile.Contents, Kept, FittingPrefix, SmallRows, RowsOf;
    GoodRowsOf(tf);
    KeptFit(tf.Contents(), condition);
  }

  lemma KeptFit(entries: seq<RowWithID>, condition: Row -> bool)
    requires SmallRows(entries)
    ensures ReadBack(entries).Ok? ==>
              var kept := Kept(RowsOf(ReadBack(entries).value), condition);
              |kept| <= |entries| && FittingPrefix(kept) == |kept| && kept[..|kept|] == kept
  {
    hide EncodedRow, RowFits, ReadBack, Kept, FittingPrefix;
    ReadBackFits(entries);
    if ReadBack(entries).Ok? {
      var kept := Kept(RowsOf(ReadBack(entries).value), condition);
      forall i | 0 <= i < |kept|
        ensures RowFits(kept[i])
      {
        assert kept[i] in kept;
      }
    }
  }

  // Decoding never makes a column longer.
  lemma DecodedColumnFits(data: seq<Byte>)
    ensures DecodeColumn(data).Ok? ==> |EncodeColumn(DecodeColumn(data).value.0)| <= DecodeColumn(data).value.1
  {
    hide LE, UnLE;
  }

  lemma {:induction false} DecodedColumnsFit(data: seq<Byte>, count: nat)
    ensures DecodeColumns(data, count).Ok? ==> |EncodeColumns(DecodeColumns(data, count).value)| <= |data|
    decreases count
  {
    if count > 0 && DecodeColumn(data).Ok? {
      var (v, n) := DecodeColumn(data).value;
      DecodedColumnFits(data);
      DecodedColumnsFit(data[n..], count - 1);
      hide DecodeColumn, EncodeColumn;
      var rest := DecodeColumns(data[n..], count - 1);
      if rest.Ok? {
        assert ([v] + rest.value)[1..] == rest.value;
      }
    }
  }

  lemma DecodedRowFits(id: nat, row: Row)
    requires RowFits(row)
    ensures var d := DecodedRow(EncodedRow(id, row)); d.Ok? ==> RowFits(d.value.row)
  {
    RowSizeIgnoresId(id, row);
    var data := EncodedRow(id, row);
    DecodedColumnsFit(data[10..], UnLE(data[8..10]));
    hide DecodeColumns, EncodeColumns, LE, UnLE;
  }

  ghost predicate SmallRows(entries: seq<RowWithID>) {
    forall i | 0 <= i < |entries| :: RowFits(entries[i].row)
  }

  lemma SmallRest(entries: seq<RowWithID>)
    requires SmallRows(entries) && entries != []
    ensures SmallRows(entries[..|entries| - 1])
  {
    hide RowFits;
    var rest := entries[..|entries| - 1];
    assert forall i | 0 <= i < |rest| :: rest[i] == entries[i];
  }

  lemma SmallSnoc(entries: seq<RowWithID>, r: RowWithID)
    requires SmallRows(entries) && RowFits(r.row)
    ensures SmallRows(entries + [r])
  {
    hide RowFits;
  }

  lemma {:induction false} ReadBackFits(rows: seq<RowWithID>)
    requires SmallRows(rows)
    ensures ReadBack(rows).Ok? ==> |ReadBack(rows).value| == |rows| && SmallRows(ReadBack(rows).value)
  {
    if rows != [] {
      var n := |rows| - 1;
      SmallRest(rows);
      ReadBackFits(rows[..n]);
      assert RowFits(rows[n].row);
      DecodedRowFits(rows[n].id, rows[n].row);
      hide EncodedRow, DecodedRow, RowFits, SmallRows;
      var d := DecodedRow(EncodedRow(rows[n].id, rows[n].row));
      if ReadBack(rows[..n]).Ok? && d.Ok? {
        SmallSnoc(ReadBack(rows[..n]).value, d.value);
      }
    }
  }
}
