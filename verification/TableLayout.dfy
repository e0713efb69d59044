// The on-disk image of a table file (storage/tablefile.go): page 0 is the header, the data
// pages follow and are chained by their RightPage links.

module TableLayout {
  import opened Bytes
  import opened Collections
  import opened RowFormat
  import opened RowCodec
  import opened SlottedPage

  const TableFileMagic: seq<Byte> := [88, 88, 76, 68, 84, 66, 76, 0] // "XXLDTBL\0"
  const MaxColumnJson := 16318 // what is left of page 0
  const MaxRowSize := 16252 // MaxPageContentV2 - 100

  datatype TableHeader = TableHeader(
    version: UInt16, tableID: UInt64, pageSize: UInt16, pageCount: UInt32, rootPage: UInt64,
    firstDataPage: UInt64, lastDataPage: UInt64, freePageList: UInt64, rowCount: UInt64,
    columns: seq<Byte>) // the column definitions, as the JSON text that is stored

  // ---------------------------------------------------------------- header page

  function FixedFields(h: TableHeader): (b: seq<Byte>)
    ensures |b| == 64
  {
    TableFileMagic + LE(h.version, 2) + LE(h.tableID, 8) + LE(h.pageSize, 2) + LE(h.pageCount, 4)
    + LE(h.rootPage, 8) + LE(h.firstDataPage, 8) + LE(h.lastDataPage, 8)
    + LE(h.freePageList, 8) + LE(h.rowCount, 8)
  }

  function ColumnArea(json: seq<Byte>): (b: seq<Byte>)
    ensures |b| == MaxColumnJson
  {
    if |json| <= MaxColumnJson then json + seq(MaxColumnJson - |json|, _ => 0) else json[..MaxColumnJson]
  }

  function HeaderPage(h: TableHeader): (b: seq<Byte>)
    ensures |b| == PageSize16KB
  {
    FixedFields(h) + LE(|h.columns|, 2) + ColumnArea(h.columns)
  }

  function ParseFixedFields(data: seq<Byte>, columns: seq<Byte>): TableHeader
    requires |data| == PageSize16KB
  {
    TableHeader(GetU16(data[8..10]), GetU64(data[10..18]), GetU16(data[18..20]), GetU32(data[20..24]),
                GetU64(data[24..32]), GetU64(data[32..40]), GetU64(data[40..48]), GetU64(data[48..56]),
                GetU64(data[56..64]), columns)
  }

  // A column length that reaches past the page makes Go's slice expression panic; the slice
  // end is computed in 16 bits.
  function ParseHeaderPage(data: seq<Byte>): Result<TableHeader, StorageError> {
    if |data| != PageSize16KB || data[0..8] != TableFileMagic then Err(BadFile)
    else
      var end := (66 + GetU16(data[64..66])) % U16;
      if end < 66 || end > PageSize16KB then Err(BadFile)
      else Ok(ParseFixedFields(data, data[66..end]))
  }

  lemma FixedFieldsRoundTrip(h: TableHeader, rest: seq<Byte>)
    requires |rest| == PageSize16KB - 64
    ensures ParseFixedFields(FixedFields(h) + rest, h.columns) == h
    ensures (FixedFields(h) + rest)[0..8] == TableFileMagic
  {
    hide LE, UnLE;
    var data := FixedFields(h) + rest;
    U16RoundTrip(h.version);
    U64RoundTrip(h.tableID);
    U16RoundTrip(h.pageSize);
    U32RoundTrip(h.pageCount);
    U64RoundTrip(h.rootPage);
    U64RoundTrip(h.firstDataPage);
    U64RoundTrip(h.lastDataPage);
    U64RoundTrip(h.freePageList);
    U64RoundTrip(h.rowCount);
    assert data[8..10] == LE(h.version, 2);
    assert data[10..18] == LE(h.tableID, 8);
    assert data[18..20] == LE(h.pageSize, 2);
    assert data[20..24] == LE(h.pageCount, 4);
    assert data[24..32] == LE(h.rootPage, 8);
    assert data[32..40] == LE(h.firstDataPage, 8);
    assert data[40..48] == LE(h.lastDataPage, 8);
    assert data[48..56] == LE(h.freePageList, 8);
    assert data[56..64] == LE(h.rowCount, 8);
  }

  // Where the fields of the header page stand.
  lemma HeaderFields(h: TableHeader)
    ensures var b := HeaderPage(h);
            && b[0..8] == [88, 88, 76, 68, 84, 66, 76, 0] && b[8..10] == LE(h.version, 2)
            && b[10..18] == LE(h.tableID, 8)
            && b[18..20] == LE(h.pageSize, 2) && b[20..24] == LE(h.pageCount, 4) && b[24..32] == LE(h.rootPage, 8)
            && b[32..40] == LE(h.firstDataPage, 8) && b[40..48] == LE(h.lastDataPage, 8)
            && b[48..56] == LE(h.freePageList, 8) && b[56..64] == LE(h.rowCount, 8) && b[64..66] == LE(|h.columns|, 2)
    ensures |h.columns| <= 16318 ==> HeaderPage(h)[66..66 + |h.columns|] == h.columns
  {
    hide LE;
    var fixed, n, area := FixedFields(h), LE(|h.columns|, 2), ColumnArea(h.columns);
    Middle(fixed, n, area);
    assert HeaderPage(h)[..64] == fixed;
    FixedFieldsStand(h);
    if |h.columns| <= 16318 {
      assert HeaderPage(h)[66..] == area;
      assert area[..|h.columns|] == h.columns;
    }
  }

  // Which pages are refused: those of another size, without the magic, or with a column length
  // that leaves the page in 16-bit arithmetic.
  lemma HeaderRefused(data: seq<Byte>)
    ensures ParseHeaderPage(data).Err? <==>
            || |data| != 16384
            || data[0..8] != [88, 88, 76, 68, 84, 66, 76, 0]
            || (66 + UnLE(data[64..66])) % 65536 < 66
            || (66 + UnLE(data[64..66])) % 65536 > 16384
  {
    hide UnLE;
  }

  lemma FixedFieldsStand(h: TableHeader)
    ensures var b := FixedFields(h);
            && b[0..8] == TableFileMagic && b[8..10] == LE(h.version, 2) && b[10..18] == LE(h.tableID, 8)
            && b[18..20] == LE(h.pageSize, 2) && b[20..24] == LE(h.pageCount, 4) && b[24..32] == LE(h.rootPage, 8)
            && b[32..40] == LE(h.firstDataPage, 8) && b[40..48] == LE(h.lastDataPage, 8)
            && b[48..56] == LE(h.freePageList, 8) && b[56..64] == LE(h.rowCount, 8)
  {
    hide LE;
  }

  lemma LowU16(n: nat)
    ensures UnLE(LE(n, 2)) == n % U16
  {
    var m, q := n % U16, n / U16;
    U16RoundTrip(m);
    assert n == 65536 * q + m;
    assert n % 256 == m % 256;
    assert n / 256 == 256 * q + m / 256;
    assert LE(n / 256, 1) == LE(m / 256, 1);
  }

  lemma ColumnsOf(data: seq<Byte>)
    ensures ParseHeaderPage(data).Ok? ==> |ParseHeaderPage(data).value.columns| <= MaxColumnJson
  {
  }

  // The header survives a write and a read exactly when its column JSON fits page 0.
  lemma HeaderRoundTrip(h: TableHeader)
    ensures ParseHeaderPage(HeaderPage(h)) == Ok(h) <==> |h.columns| <= 16318
  {
    hide LE, UnLE, FixedFields, ParseFixedFields;
    var data := HeaderPage(h);
    var n, area := LE(|h.columns|, 2), ColumnArea(h.columns);
    Assoc(FixedFields(h), n, area);
    FixedFieldsRoundTrip(h, n + area);
    Middle(FixedFields(h), n, area);
    LowU16(|h.columns|);
    if |h.columns| <= MaxColumnJson {
      Middle(FixedFields(h) + n, h.columns, seq(MaxColumnJson - |h.columns|, _ => 0));
      Assoc(FixedFields(h) + n, h.columns, seq(MaxColumnJson - |h.columns|, _ => 0));
    } else {
      ColumnsOf(data);
    }
  }

  // ---------------------------------------------------------------- data pages

  function Cells(rows: seq<RowWithID>): (cells: seq<seq<Byte>>)
    ensures |cells| == |rows| && forall i | 0 <= i < |rows| :: cells[i] == EncodedRow(rows[i].id, rows[i].row)
  {
    if rows == [] then []
    else
      var last := rows[|rows| - 1];
      Cells(rows[..|rows| - 1]) + [EncodedRow(last.id, last.row)]
  }

  ghost predicate GoodPage(p: Page, id: nat, next: nat, rows: seq<RowWithID>, crc: seq<Byte> -> UInt32) {
    && p.header.pageID == id
    && p.header.rightPage == next
    && p.header.checksum == crc(p.content)
    && Holds(p, Cells(rows), {})
  }

  function PageIn(file: seq<seq<Byte>>, id: nat): Page
    requires id < |file| && |file[id]| == PageSize16KB
  {
    ParsePage(file[id]).value
  }

  // A full-sized page is the serialization of what it parses to.
  lemma BytesOfPage(file: seq<seq<Byte>>, id: nat)
    requires id < |file| && |file[id]| == PageSize16KB
    ensures PageBytes(PageIn(file, id)) == file[id]
  {
    hide LE, UnLE;
    var data := file[id];
    LEOfUnLE(data[0..8]);
    LEOfUnLE(data[10..12]);
    LEOfUnLE(data[12..14]);
    LEOfUnLE(data[14..16]);
    LEOfUnLE(data[16..18]);
    LEOfUnLE(data[18..20]);
    LEOfUnLE(data[20..28]);
    LEOfUnLE(data[28..32]);
    InPieces(data);
  }

  lemma InPieces(data: seq<Byte>)
    requires |data| >= 32
    ensures data == data[0..8] + [data[8], data[9]] + data[10..12] + data[12..14] + data[14..16] + data[16..18]
                    + data[18..20] + data[20..28] + data[28..32] + data[32..]
  {
    assert [data[8], data[9]] == data[8..10];
    Glue(data, 0, 8, 10);
    Glue(data, 0, 10, 12);
    Glue(data, 0, 12, 14);
    Glue(data, 0, 14, 16);
    Glue(data, 0, 16, 18);
    Glue(data, 0, 18, 20);
    Glue(data, 0, 20, 28);
    Glue(data, 0, 28, 32);
    assert data == data[0..32] + data[32..];
  }

  lemma Glue(data: seq<Byte>, i: nat, j: nat, k: nat)
    requires i <= j <= k <= |data|
    ensures data[i..j] + data[j..k] == data[i..k]
  {
  }

  lemma ParseSucceeds(data: seq<Byte>)
    requires |data| == PageSize16KB
    ensures ParsePage(data).Ok?
  {
  }

  // WriteAt of one page, at most one page past the end.
  function WriteAt(file: seq<seq<Byte>>, id: nat, data: seq<Byte>): seq<seq<Byte>>
    requires id <= |file|
  {
    if id < |file| then file[id := data] else file + [data]
  }

  // Every page is full-sized and carries its own position as its id.
  ghost predicate PagesNamed(file: seq<seq<Byte>>) {
    && file != []
    && (forall i | 0 <= i < |file| :: |file[i]| == PageSize16KB)
    && (forall i | 1 <= i < |file| :: PageIn(file, i).header.pageID == i)
  }

  lemma WriteAtNamed(file: seq<seq<Byte>>, id: nat, p: Page)
    requires PagesNamed(file) && 1 <= id <= |file| && p.header.pageID == id
    ensures var file' := WriteAt(file, id, PageBytes(p));
            && PagesNamed(file') && PageIn(file', id) == p
            && (forall i | 1 <= i < |file| && i != id :: PageIn(file', i) == PageIn(file, i))
  {
    hide PageBytes, PageIn;
    var file' := WriteAt(file, id, PageBytes(p));
    ParseOfBytes(file', id, p);
    forall i | 1 <= i < |file| && i != id
      ensures PageIn(file', i) == PageIn(file, i)
    {
      SamePage(file, file', i);
    }
  }

  function NextOf(n: nat, id: nat): nat {
    if id < n then id + 1 else 0
  }

  // Data page i is page i of the file, linked to page i + 1; the last link is 0.
  ghost predicate Layout(file: seq<seq<Byte>>, h: TableHeader, stored: seq<seq<RowWithID>>, crc: seq<Byte> -> UInt32) {
    && |file| == |stored| + 1 == h.pageCount
    && h.freePageList == 0
    && h.firstDataPage == (if stored == [] then 0 else 1)
    && h.lastDataPage == |stored|
    && (forall i | 0 <= i < |file| :: |file[i]| == PageSize16KB)
    && (forall i | 1 <= i < |file| :: GoodPage(PageIn(file, i), i, NextOf(|stored|, i), stored[i - 1], crc))
  }

  function Flatten(stored: seq<seq<RowWithID>>): seq<RowWithID> {
    if stored == [] then [] else Flatten(stored[..|stored| - 1]) + stored[|stored| - 1]
  }

  // Row ids grow along the table and stay below the id counter; every stored row is small
  // enough for a page of its own.
  ghost predicate GoodRows(rows: seq<RowWithID>, nextID: nat) {
    && (forall i | 0 <= i < |rows| :: rows[i].id < nextID && |EncodedRow(rows[i].id, rows[i].row)| <= MaxRowSize)
    && (forall i, j | 0 <= i < j < |rows| :: rows[i].id < rows[j].id)
  }

  lemma {:induction false} FlattenPrefix(stored: seq<seq<RowWithID>>, k: nat)
    requires k < |stored|
    ensures Flatten(stored[..k + 1]) == Flatten(stored[..k]) + stored[k]
    ensures |Flatten(stored[..k + 1])| <= |Flatten(stored)|
    ensures Flatten(stored)[|Flatten(stored[..k])|..|Flatten(stored[..k + 1])|] == stored[k]
  {
    assert stored[..k + 1][..k] == stored[..k];
    var n := |stored|;
    if k + 1 < n {
      FlattenPrefix(stored[..n - 1], k);
      assert stored[..n - 1][..k] == stored[..k] && stored[..n - 1][..k + 1] == stored[..k + 1];
    } else {
      assert stored[..n] == stored;
    }
  }

  lemma RowCountFitsIds(rows: seq<RowWithID>, nextID: nat)
    requires GoodRows(rows, nextID)
    ensures |rows| <= nextID
  {
    if rows != [] {
      IdsAtLeastIndex(rows, nextID, |rows| - 1);
    }
  }

  lemma {:induction false} IdsAtLeastIndex(rows: seq<RowWithID>, nextID: nat, i: nat)
    requires GoodRows(rows, nextID) && i < |rows|
    ensures rows[i].id >= i
  {
    if i > 0 {
      IdsAtLeastIndex(rows, nextID, i - 1);
    }
  }

  lemma EncodedRowNotEmpty(id: nat, row: Row)
    ensures EncodedRow(id, row) != []
  {
  }

  // ---------------------------------------------------------------- growing the image

  function Summed(p: Page, crc: seq<Byte> -> UInt32): Page {
    Page(p.header.(checksum := crc(p.content)), p.content)
  }

  lemma SummedHolds(p: Page, cells: seq<seq<Byte>>, crc: seq<Byte> -> UInt32, next: UInt64)
    requires Holds(p, cells, {})
    ensures Holds(Summed(p, crc), cells, {})
    ensures Holds(Page(p.header.(rightPage := next), p.content), cells, {})
  {
    var q, r := Summed(p, crc), Page(p.header.(rightPage := next), p.content);
    hide Total, DeadSize, Start;
    forall i: nat | i < |cells|
      ensures HoldsSlot(q, cells, {}, i) && HoldsSlot(r, cells, {}, i)
    {
      assert HoldsSlot(p, cells, {}, i);
    }
  }

  // The page after a row was put into it and it was written.
  function Grown(p: Page, r: RowWithID, crc: seq<Byte> -> UInt32): Page
    requires |EncodedRow(r.id, r.row)| <= MaxRowSize && p.InBounds() && p.CanInsert(|EncodedRow(r.id, r.row)|)
  {
    Summed(p.PutCell(EncodedRow(r.id, r.row)), crc)
  }

  lemma GrownIsGood(p: Page, id: nat, next: nat, rows: seq<RowWithID>, r: RowWithID, crc: seq<Byte> -> UInt32)
    requires Holds(p, Cells(rows), {}) && p.header.pageID == id && p.header.rightPage == next
    requires |EncodedRow(r.id, r.row)| <= MaxRowSize && p.CanInsert(|EncodedRow(r.id, r.row)|)
    ensures GoodPage(Grown(p, r, crc), id, next, rows + [r], crc)
  {
    var data := EncodedRow(r.id, r.row);
    EncodedRowNotEmpty(r.id, r.row);
    InsertKeepsSlots(p, Cells(rows), {}, data);
    assert (rows + [r])[..|rows|] == rows;
    assert Cells(rows + [r]) == Cells(rows) + [data];
    SummedHolds(p.PutCell(data), Cells(rows) + [data], crc, 0);
    hide Holds;
  }

  lemma FreshPageTakesRow(id: UInt64, content: Content, r: RowWithID, crc: seq<Byte> -> UInt32)
    requires |EncodedRow(r.id, r.row)| <= MaxRowSize
    ensures var p := Page(NewHeader(id, PageTypeData), content);
            Holds(p, [], {}) && p.CanInsert(|EncodedRow(r.id, r.row)|)
  {
    NewPageHoldsNothing(id, PageTypeData, content);
  }

  lemma ParseOfBytes(file: seq<seq<Byte>>, i: nat, p: Page)
    requires i < |file| && file[i] == PageBytes(p)
    ensures PageIn(file, i) == p
  {
    PageRoundTrip(p);
  }

  lemma SamePage(file: seq<seq<Byte>>, file': seq<seq<Byte>>, i: nat)
    requires i < |file| && i < |file'| && file[i] == file'[i] && |file[i]| == PageSize16KB
    ensures PageIn(file, i) == PageIn(file', i)
  {
  }

  lemma ReplaceLastPage(file: seq<seq<Byte>>, h: TableHeader, stored: seq<seq<RowWithID>>, q: Page,
          rows: seq<RowWithID>, crc: seq<Byte> -> UInt32)
    requires Layout(file, h, stored, crc) && stored != []
    requires GoodPage(q, |stored|, 0, rows, crc)
    ensures Layout(file[|stored| := PageBytes(q)], h, stored[|stored| - 1 := rows], crc)
  {
    hide GoodPage, PageBytes, PageIn;
    var n := |stored|;
    var file', stored' := file[n := PageBytes(q)], stored[n - 1 := rows];
    ParseOfBytes(file', n, q);
    forall i | 1 <= i < |file'|
      ensures GoodPage(PageIn(file', i), i, NextOf(n, i), stored'[i - 1], crc)
    {
      if i < n {
        SamePage(file, file', i);
        assert GoodPage(PageIn(file, i), i, NextOf(n, i), stored[i - 1], crc);
      }
    }
  }

  // A row that fits the last page is appended there.
  lemma LayoutAppends(file: seq<seq<Byte>>, h: TableHeader, stored: seq<seq<RowWithID>>, r: RowWithID,
          crc: seq<Byte> -> UInt32)
    requires Layout(file, h, stored, crc) && stored != []
    requires |EncodedRow(r.id, r.row)| <= MaxRowSize
    requires PageIn(file, |stored|).InBounds() && PageIn(file, |stored|).CanInsert(|EncodedRow(r.id, r.row)|)
    ensures var n := |stored|;
            Layout(file[n := PageBytes(Grown(PageIn(file, n), r, crc))], h, stored[n - 1 := stored[n - 1] + [r]], crc)
  {
    var n := |stored|;
    var p := PageIn(file, n);
    assert GoodPage(p, n, NextOf(n, n), stored[n - 1], crc);
    GrownIsGood(p, n, 0, stored[n - 1], r, crc);
    hide GoodPage, PageBytes, PageIn, Grown;
    ReplaceLastPage(file, h, stored, Grown(p, r, crc), stored[n - 1] + [r], crc);
  }

  // The header after a data page was appended.
  function WithNewPage(h: TableHeader): TableHeader
    requires h.pageCount < U32 - 1
  {
    h.(pageCount := h.pageCount + 1,
       firstDataPage := if h.firstDataPage == 0 then h.pageCount else h.firstDataPage,
       lastDataPage := h.pageCount)
  }

  // The image after a data page was appended and the previous last page was linked to it.
  function Extended(file: seq<seq<Byte>>, page: Page, crc: seq<Byte> -> UInt32): seq<seq<Byte>>
    requires file != [] && |file| < U64 && forall i | 0 <= i < |file| :: |file[i]| == PageSize16KB
  {
    var n := |file| - 1;
    if n == 0 then file + [PageBytes(page)]
    else file[n := PageBytes(Linked(PageIn(file, n), n + 1, crc))] + [PageBytes(page)]
  }

  function Linked(last: Page, next: UInt64, crc: seq<Byte> -> UInt32): Page {
    Summed(Page(last.header.(rightPage := next), last.content), crc)
  }

  lemma LinkedIsGood(p: Page, id: nat, next: nat, next': UInt64, rows: seq<RowWithID>, crc: seq<Byte> -> UInt32)
    requires GoodPage(p, id, next, rows, crc)
    ensures GoodPage(Linked(p, next', crc), id, next', rows, crc)
  {
    SummedHolds(p, Cells(rows), crc, next');
    SummedHolds(Page(p.header.(rightPage := next'), p.content), Cells(rows), crc, 0);
    hide Holds;
  }

  lemma LayoutExtends(file: seq<seq<Byte>>, h: TableHeader, stored: seq<seq<RowWithID>>, page: Page,
          rows: seq<RowWithID>, crc: seq<Byte> -> UInt32)
    requires Layout(file, h, stored, crc) && h.pageCount < U32 - 1
    requires GoodPage(page, |file|, 0, rows, crc)
    ensures Layout(Extended(file, page, crc), WithNewPage(h), stored + [rows], crc)
  {
    hide GoodPage, PageBytes, PageIn, Linked;
    var n := |stored|;
    var file', stored' := Extended(file, page, crc), stored + [rows];
    ParseOfBytes(file', n + 1, page);
    forall i | 1 <= i < |file'|
      ensures GoodPage(PageIn(file', i), i, NextOf(n + 1, i), stored'[i - 1], crc)
    {
      if i < n {
        SamePage(file, file', i);
        assert GoodPage(PageIn(file, i), i, NextOf(n, i), stored[i - 1], crc);
      } else if i == n {
        var last := PageIn(file, n);
        assert GoodPage(last, n, NextOf(n, n), stored[n - 1], crc);
        LinkedIsGood(last, n, NextOf(n, n), n + 1, stored[n - 1], crc);
        ParseOfBytes(file', n, Linked(last, n + 1, crc));
      }
    }
  }

  lemma LastPageReady(file: seq<seq<Byte>>, h: TableHeader, stored: seq<seq<RowWithID>>, crc: seq<Byte> -> UInt32)
    requires Layout(file, h, stored, crc) && stored != []
    ensures PageIn(file, |stored|).InBounds()
  {
    assert GoodPage(PageIn(file, |stored|), |stored|, 0, stored[|stored| - 1], crc);
  }

  lemma FreshPageReady(id: UInt64, content: Content, r: RowWithID, crc: seq<Byte> -> UInt32)
    requires |EncodedRow(r.id, r.row)| <= MaxRowSize
    ensures var p := Summed(Page(NewHeader(id, PageTypeData), content), crc);
            && p.InBounds() && p.CanInsert(|EncodedRow(r.id, r.row)|)
            && GoodPage(Grown(p, r, crc), id, 0, [r], crc)
  {
    var p := Summed(Page(NewHeader(id, PageTypeData), content), crc);
    assert Cells([]) == [];
    NewPageHoldsNothing(id, PageTypeData, content);
    assert Holds(p, Cells([]), {});
    GrownIsGood(p, id, 0, [], r, crc);
    assert [] + [r] == [r];
  }

  lemma ExtendedReplaced(file: seq<seq<Byte>>, page: Page, q: Page, crc: seq<Byte> -> UInt32)
    requires file != [] && |file| < U64 && forall i | 0 <= i < |file| :: |file[i]| == PageSize16KB
    ensures |Extended(file, page, crc)| == |file| + 1
    ensures WriteAt(Extended(file, page, crc), |file|, PageBytes(q)) == Extended(file, q, crc)
  {
    hide PageBytes, Linked, PageIn;
  }

  // ---------------------------------------------------------------- reading back

  // What a scan returns for rows stored in this order; the first undecodable row stops it.
  function ReadBack(rows: seq<RowWithID>): Result<seq<RowWithID>, StorageError> {
    if rows == [] then Ok([])
    else
      var last := rows[|rows| - 1];
      match ReadBack(rows[..|rows| - 1])
      case Err(e) => Err(e)
      case Ok(before) =>
        match DecodedRow(EncodedRow(last.id, last.row))
        case Err(e) => Err(e)
        case Ok(r) => Ok(before + [r])
  }

  function NormalRows(rows: seq<RowWithID>): (n: seq<RowWithID>)
    ensures |n| == |rows| && forall i | 0 <= i < |rows| :: n[i] == RowWithID(rows[i].id, NormalRow(rows[i].row))
  {
    if rows == [] then []
    else
      var last := rows[|rows| - 1];
      NormalRows(rows[..|rows| - 1]) + [RowWithID(last.id, NormalRow(last.row))]
  }

  ghost predicate AllFaithful(rows: seq<RowWithID>) {
    forall i | 0 <= i < |rows| :: FaithfulRow(rows[i].row)
  }

  ghost predicate IdsFit(rows: seq<RowWithID>) {
    forall i | 0 <= i < |rows| :: rows[i].id < U64
  }

  lemma LastAndRest(rows: seq<RowWithID>)
    requires rows != []
    ensures var before, last := rows[..|rows| - 1], rows[|rows| - 1];
            && (AllFaithful(rows) <==> AllFaithful(before) && FaithfulRow(last.row))
            && (IdsFit(rows) <==> IdsFit(before) && last.id < U64)
  {
    hide FaithfulRow;
    var before := rows[..|rows| - 1];
    assert forall i | 0 <= i < |before| :: before[i] == rows[i];
  }

  lemma StoredRowRoundTrip(r: RowWithID)
    requires r.id < U64
    ensures DecodedRow(EncodedRow(r.id, r.row)) == Ok(RowWithID(r.id, NormalRow(r.row))) <==> FaithfulRow(r.row)
  {
    RowRoundTrip(r.id, r.row, []);
    assert EncodedRow(r.id, r.row) + [] == EncodedRow(r.id, r.row);
  }

  // A scan gives back every row in normal form exactly when every stored row is faithful.
  lemma {:induction false} ReadBackIsNormal(rows: seq<RowWithID>)
    requires IdsFit(rows)
    ensures ReadBack(rows) == Ok(NormalRows(rows)) <==> AllFaithful(rows)
  {
    hide FaithfulRow, EncodedRow, DecodedRow, NormalRow, AllFaithful, IdsFit;
    if rows == [] {
      assert AllFaithful(rows) by { NoneUnfaithful(); }
    } else {
      var last, before := rows[|rows| - 1], rows[..|rows| - 1];
      LastAndRest(rows);
      ReadBackIsNormal(before);
      StoredRowRoundTrip(last);
      var d := DecodedRow(EncodedRow(last.id, last.row));
      if ReadBack(before).Ok? && d.Ok? {
        SnocEqual(ReadBack(before).value, d.value, NormalRows(before), RowWithID(last.id, NormalRow(last.row)));
      }
    }
  }

  lemma NoneUnfaithful()
    ensures AllFaithful([])
  {
  }

  lemma SnocEqual<T>(s: seq<T>, x: T, t: seq<T>, y: T)
    ensures s + [x] == t + [y] <==> s == t && x == y
  {
    if s + [x] == t + [y] {
      assert |s| == |t|;
      assert (s + [x])[..|s|] == s && (t + [y])[..|t|] == t;
      assert (s + [x])[|s|] == x && (t + [y])[|t|] == y;
    }
  }
}
