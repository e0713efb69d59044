// The 16 KB slotted page of storage/page.go. Cells are stored from the end of the content
// area towards its beginning, 2-byte cell pointers from the beginning towards the end.

module SlottedPage {
  import opened Bytes
  import opened Collections
  import opened RowFormat
  import opened RowCodec

  const PageSize16KB := 16384
  const PageHeaderSizeV2 := 32
  const MaxPageContentV2 := 16352

  const PageTypeData: Byte := 1
  const PageFlagDirty: Byte := 4

  datatype PageHeader = PageHeader(
    pageID: UInt64, pageType: Byte, flags: Byte, version: UInt16,
    freeSpace: UInt16, cellCount: UInt16, fragmented: UInt16, reserved: UInt16,
    rightPage: UInt64, checksum: UInt32)

  type Content = s: seq<Byte> | |s| == 16352 witness seq(16352, _ => 0)

  function NewHeader(pageID: UInt64, pageType: Byte): PageHeader {
    PageHeader(pageID, pageType, 0, 1, MaxPageContentV2, 0, 0, 0, 0, 0)
  }

  // ---------------------------------------------------------------- page values

  datatype Page = Page(header: PageHeader, content: Content) {

    // Go's uint16 arithmetic: the doubled cell count wraps.
    function AvailableSpace(): UInt16 {
      var pointerArraySize := (header.cellCount * 2) % U16;
      if header.freeSpace < pointerArraySize then 0
      else if header.freeSpace - pointerArraySize < header.fragmented then 0
      else header.freeSpace - pointerArraySize - header.fragmented
    }

    // `uint16(rowSize) + 2` wraps as well.
    predicate CanInsert(rowSize: nat): (fits: bool)
      ensures fits && InBounds() && rowSize < U16 - 2 ==> CanPlace(rowSize)
    {
      AvailableSpace() >= (rowSize % U16 + 2) % U16
    }

    // Header offsets lie inside the content array; indexing with larger ones panics.
    predicate InBounds() {
      2 * header.cellCount <= MaxPageContentV2 && header.freeSpace <= MaxPageContentV2
    }

    function GetCellPointer(index: int): UInt16
      requires InBounds()
    {
      if index < 0 || index >= header.cellCount then 0
      else
        var low: int, high: int := content[2 * index], content[2 * index + 1];
        low + 256 * high
    }

    // The bytes of one cell, or an error for a slot without usable bounds.
    function GetCell(index: int): (r: Result<seq<Byte>, StorageError>)
      requires InBounds()
    {
      if index < 0 || index >= header.cellCount then Err(NoRow)
      else
        var cellStart := GetCellPointer(index);
        if cellStart == 0 || cellStart >= MaxPageContentV2 then Err(NoRow)
        else if index != 0 && (GetCellPointer(index - 1) == 0 || GetCellPointer(index - 1) >= MaxPageContentV2)
            then Err(NoRow)
        else
          var cellEnd := if index == 0 then MaxPageContentV2 else GetCellPointer(index - 1);
          if cellStart >= cellEnd then Err(NoRow) else Ok(content[cellStart..cellEnd])
    }

    function GetRow(index: int): Result<RowWithID, StorageError>
      requires InBounds()
    {
      match GetCell(index)
      case Err(e) => Err(e)
      case Ok(cell) => DecodedRow(cell)
    }

    function WithPointer(index: nat, offset: UInt16): Page
      requires 2 * index + 2 <= MaxPageContentV2
    {
      Page(header, content[2 * index := offset % 256][2 * index + 1 := offset / 256])
    }

    // Where InsertRowToPage puts a row, in 16-bit arithmetic.
    function CellOffset(rowSize: nat): UInt16 {
      (header.freeSpace - rowSize) % U16
    }

    // Slicing the content array from a larger offset panics, and so does a pointer behind it.
    predicate CanPlace(rowSize: nat) {
      CellOffset(rowSize) <= MaxPageContentV2 && 2 * header.cellCount + 2 <= MaxPageContentV2
    }

    // What InsertRowToPage writes for a row of any size: `copy` stops at the end of the content.
    function PutCell(data: seq<Byte>): Page
      requires CanPlace(|data|)
    {
      var cellOffset := CellOffset(|data|);
      var copied := if cellOffset + |data| <= MaxPageContentV2 then |data| else MaxPageContentV2 - cellOffset;
      var written := Page(header, content[..cellOffset] + data[..copied] + content[cellOffset + copied..]);
      var pointed := written.WithPointer(header.cellCount, cellOffset);
      Page(header.(cellCount := header.cellCount + 1, freeSpace := cellOffset, flags := SetDirty(header.flags)),
           pointed.content)
    }

    // The slots DeleteRowFromPage accepts.
    predicate CanDelete(index: int)
      requires InBounds()
    {
      && 0 <= index < header.cellCount
      && GetCellPointer(index) != 0
      && GetCellPointer(index) < CellEnd(index)
    }

    function CellEnd(index: int): UInt16
      requires InBounds()
    {
      if index == 0 then MaxPageContentV2 else GetCellPointer(index - 1)
    }

    function WithoutCell(index: int): Page
      requires InBounds() && CanDelete(index)
    {
      var size := CellEnd(index) - GetCellPointer(index);
      Page(header.(fragmented := (header.fragmented + size) % U16, flags := SetDirty(header.flags)),
           WithPointer(index, 0).content)
    }
  }

  function SetDirty(flags: Byte): (f: Byte)
    ensures Marked(flags, f)
  {
    if (flags / PageFlagDirty) % 2 == 1 then flags else flags + PageFlagDirty
  }

  // The dirty bit is on, the other flags are as before.
  predicate Marked(flags: Byte, now: Byte) {
    (now / 4) % 2 == 1 && now % 4 == flags % 4 && now / 8 == flags / 8
  }

  // ---------------------------------------------------------------- serialization

  function HeaderBytes(h: PageHeader): (b: seq<Byte>)
    ensures |b| == PageHeaderSizeV2
  {
    LE(h.pageID, 8) + [h.pageType, h.flags] + LE(h.version, 2)
    + LE(h.freeSpace, 2) + LE(h.cellCount, 2) + LE(h.fragmented, 2) + LE(h.reserved, 2)
    + LE(h.rightPage, 8) + LE(h.checksum, 4)
  }

  function PageBytes(p: Page): (b: seq<Byte>)
    ensures |b| == PageSize16KB
  {
    HeaderBytes(p.header) + p.content
  }

  function ParseHeader(data: seq<Byte>): PageHeader
    requires |data| == PageSize16KB
  {
    PageHeader(
      GetU64(data[0..8]), data[8], data[9], GetU16(data[10..12]),
      GetU16(data[12..14]), GetU16(data[14..16]), GetU16(data[16..18]), GetU16(data[18..20]),
      GetU64(data[20..28]), GetU32(data[28..32]))
  }

  function ParsePage(data: seq<Byte>): Result<Page, StorageError> {
    if |data| != PageSize16KB then Err(Truncated)
    else Ok(Page(ParseHeader(data), data[PageHeaderSizeV2..]))
  }

  lemma PageRoundTrip(p: Page)
    ensures ParsePage(PageBytes(p)) == Ok(p)
    ensures forall data :: ParsePage(data).Ok? <==> |data| == PageSize16KB
  {
    hide LE, UnLE;
    var h := p.header;
    var data := PageBytes(p);
    U64RoundTrip(h.pageID);
    U16RoundTrip(h.version);
    U16RoundTrip(h.freeSpace);
    U16RoundTrip(h.cellCount);
    U16RoundTrip(h.fragmented);
    U16RoundTrip(h.reserved);
    U64RoundTrip(h.rightPage);
    U32RoundTrip(h.checksum);
    assert data[0..8] == LE(h.pageID, 8);
    assert data[10..12] == LE(h.version, 2);
    assert data[12..14] == LE(h.freeSpace, 2);
    assert data[14..16] == LE(h.cellCount, 2);
    assert data[16..18] == LE(h.fragmented, 2);
    assert data[18..20] == LE(h.reserved, 2);
    assert data[20..28] == LE(h.rightPage, 8);
    assert data[28..32] == LE(h.checksum, 4);
    assert data[PageHeaderSizeV2..] == p.content;
  }

  // Where the header fields and the content stand in the 16384 bytes.
  lemma PageFields(p: Page)
    ensures var b, h := PageBytes(p), p.header;
            && b[0..8] == LE(h.pageID, 8) && b[8] == h.pageType && b[9] == h.flags && b[10..12] == LE(h.version, 2)
            && b[12..14] == LE(h.freeSpace, 2) && b[14..16] == LE(h.cellCount, 2) && b[16..18] == LE(h.fragmented, 2)
            && b[18..20] == LE(h.reserved, 2) && b[20..28] == LE(h.rightPage, 8) && b[28..32] == LE(h.checksum, 4)
            && b[32..] == p.content
  {
    hide LE;
  }

  // A new page: its id and type, version 1, all of the content free, nothing else set.
  lemma NewHeaderFields(pageID: UInt64, pageType: Byte)
    ensures var h := NewHeader(pageID, pageType);
            && h.pageID == pageID && h.pageType == pageType && h.flags == 0 && h.version == 1
            && h.freeSpace == 16352 && h.cellCount == 0 && h.fragmented == 0 && h.reserved == 0
            && h.rightPage == 0 && h.checksum == 0
  {
  }

  // ---------------------------------------------------------------- the slot invariant

  function Total(cells: seq<seq<Byte>>): nat {
    if cells == [] then 0 else Total(cells[..|cells| - 1]) + |cells[|cells| - 1]|
  }

  // Where the k-th inserted cell (counting from 1) starts; the content end for k == 0.
  function Start(cells: seq<seq<Byte>>, k: nat): int
    requires k <= |cells|
  {
    MaxPageContentV2 - Total(cells[..k])
  }

  function DeadSize(cells: seq<seq<Byte>>, dead: set<nat>): nat {
    if cells == [] then 0
    else
      var last := |cells| - 1;
      DeadSize(cells[..last], dead) + if last in dead then |cells[last]| else 0
  }

  ghost predicate HoldsSlot(p: Page, cells: seq<seq<Byte>>, dead: set<nat>, i: nat)
    requires i < |cells| && p.InBounds() && Total(cells) <= MaxPageContentV2
  {
    TotalMonotone(cells, i, i + 1);
    TotalMonotone(cells, i + 1, |cells|);
    assert cells[..|cells|] == cells;
    && cells[i] != []
    && p.GetCellPointer(i) == (if i in dead then 0 else Start(cells, i + 1))
    && p.content[Start(cells, i + 1)..Start(cells, i)] == cells[i]
  }

  // `p` holds `cells` in insertion order, of which the slots in `dead` were deleted.
  ghost predicate Holds(p: Page, cells: seq<seq<Byte>>, dead: set<nat>) {
    && p.header.cellCount == |cells|
    && Total(cells) <= MaxPageContentV2
    && p.header.freeSpace == MaxPageContentV2 - Total(cells)
    && 2 * |cells| <= p.header.freeSpace
    && p.header.fragmented == DeadSize(cells, dead)
    && forall i: nat | i < |cells| :: HoldsSlot(p, cells, dead, i)
  }

  lemma {:induction false} TotalMonotone(cells: seq<seq<Byte>>, j: nat, k: nat)
    requires j <= k <= |cells|
    ensures Total(cells[..j]) <= Total(cells[..k])
    ensures k == j + 1 ==> Total(cells[..k]) == Total(cells[..j]) + |cells[j]|
  {
    if j < k {
      TotalMonotone(cells, j, k - 1);
      assert cells[..k][..k - 1] == cells[..k - 1];
    }
  }

  lemma {:induction false} DeadSizeBound(cells: seq<seq<Byte>>, dead: set<nat>)
    ensures DeadSize(cells, dead) <= Total(cells)
  {
    if cells != [] {
      DeadSizeBound(cells[..|cells| - 1], dead);
    }
  }

  lemma NewPageHoldsNothing(pageID: UInt64, pageType: Byte, content: Content)
    ensures Holds(Page(NewHeader(pageID, pageType), content), [], {})
  {
  }

  // ---------------------------------------------------------------- space management

  // The cell and one more pointer fit what is left of the page.
  predicate Fits(cells: seq<seq<Byte>>, dead: set<nat>, rowSize: nat) {
    2 * (|cells| + 1) + rowSize + DeadSize(cells, dead) <= MaxPageContentV2 - Total(cells)
  }

  // The space check is right for every row below 65534 bytes; for a longer one exactly when
  // its size modulo 65536, with the pointer, happens not to fit either.
  lemma CanInsertExact(p: Page, cells: seq<seq<Byte>>, dead: set<nat>, rowSize: nat)
    requires Holds(p, cells, dead)
    ensures (p.CanInsert(rowSize) <==> Fits(cells, dead, rowSize)) <==>
            (rowSize < U16 - 2
             || ((rowSize + 2) % U16 > 0
                 && 2 * |cells| + Total(cells) + DeadSize(cells, dead) + (rowSize + 2) % U16 > MaxPageContentV2))
  {
    DeadSizeBound(cells, dead);
    SumWraps(rowSize);
    assert Fits(cells, dead, rowSize) ==> rowSize < U16 - 2;
  }

  // The check on an empty page: 65534 bytes pass, and so do 65546.
  lemma CanInsertWraps(p: Page, rowSize: nat)
    requires Holds(p, [], {})
    ensures (p.CanInsert(rowSize) <==> rowSize + 2 <= MaxPageContentV2) <==>
            (rowSize < U16 - 2 || (rowSize + 2) % U16 > MaxPageContentV2)
    ensures p.CanInsert(65534) && p.CanInsert(65546)
  {
    CanInsertExact(p, [], {}, rowSize);
    SumWraps(rowSize);
  }

  lemma SumWraps(rowSize: nat)
    ensures (rowSize % U16 + 2) % U16 == (rowSize + 2) % U16
    ensures rowSize < U16 - 2 ==> (rowSize + 2) % U16 == rowSize + 2
  {
    var q, r := rowSize / U16, rowSize % U16;
    assert rowSize == q * U16 + r;
    assert (rowSize + 2) / U16 == if r + 2 < U16 then q else q + 1;
  }

  lemma RoomForRow(p: Page, cells: seq<seq<Byte>>, dead: set<nat>, rowSize: nat)
    requires Holds(p, cells, dead) && rowSize < U16 - 2
    ensures p.CanInsert(rowSize) <==> Fits(cells, dead, rowSize)
  {
    CanInsertExact(p, cells, dead, rowSize);
  }

  // The free space on record never exceeds the gap between pointers and cells.
  lemma AvailableSpaceIsSafe(p: Page, cells: seq<seq<Byte>>, dead: set<nat>)
    requires Holds(p, cells, dead)
    ensures p.AvailableSpace() <= p.header.freeSpace - 2 * |cells|
  {
  }

  lemma PointerReadsBack(p: Page, index: nat, offset: UInt16)
    requires 2 * index + 2 <= MaxPageContentV2
    ensures var q := p.WithPointer(index, offset).content;
            && (var low: int, high: int := q[2 * index], q[2 * index + 1]; low + 256 * high == offset)
            && (forall k | 0 <= k < MaxPageContentV2 && k != 2 * index && k != 2 * index + 1 :: q[k] == p.content[k])
  {
  }

  // What PutCell writes for such a row: the cell just below the free-space mark, its pointer,
  // nothing else.
  lemma PutCellWrites(p: Page, data: seq<Byte>)
    requires |data| < U16 - 2 && p.InBounds() && p.CanInsert(|data|)
    requires 2 * (p.header.cellCount + 1) + |data| <= p.header.freeSpace
    ensures var q, off, n := p.PutCell(data), p.header.freeSpace - |data|, p.header.cellCount;
            && q.InBounds()
            && q.GetCellPointer(n) == off
            && q.content[off..p.header.freeSpace] == data
            && (forall k | p.header.freeSpace <= k < MaxPageContentV2 :: q.content[k] == p.content[k])
            && (forall i | 0 <= i < n :: q.GetCellPointer(i) == p.GetCellPointer(i))
  {
    hide Page.CanInsert, Page.AvailableSpace, Page.WithPointer, SetDirty;
    var off, n := p.header.freeSpace - |data|, p.header.cellCount;
    var written := Page(p.header, p.content[..off] + data + p.content[p.header.freeSpace..]);
    PointerReadsBack(written, n, off);
    Middle(p.content[..off], data, p.content[p.header.freeSpace..]);
    assert p.CellOffset(|data|) == off && data[..|data|] == data;
    hide Page.CellOffset;
    var q := p.PutCell(data);
    assert q.content[off..p.header.freeSpace] == written.content[off..p.header.freeSpace];
  }

  lemma OldSlotSurvives(p: Page, q: Page, cells: seq<seq<Byte>>, dead: set<nat>, data: seq<Byte>, i: nat)
    requires Holds(p, cells, dead) && i < |cells| && q.InBounds()
    requires Total(cells + [data]) <= MaxPageContentV2
    requires q.header.cellCount == |cells| + 1
    requires q.GetCellPointer(i) == p.GetCellPointer(i)
    requires forall k | p.header.freeSpace <= k < MaxPageContentV2 :: q.content[k] == p.content[k]
    ensures HoldsSlot(q, cells + [data], dead, i)
  {
    PointersOf(p, cells, dead, i);
    PointersBelowCells(p, cells, dead, i);
    PrefixOfSnoc(cells, data, i);
    PrefixOfSnoc(cells, data, i + 1);
    hide Total, DeadSize, Page.GetCellPointer, Holds;
    var more := cells + [data];
    var a, b := Start(cells, i + 1), Start(cells, i);
    assert Start(more, i + 1) == a && Start(more, i) == b && more[i] == cells[i];
    hide Start;
    SameSlice(p.content, q.content, p.header.freeSpace, a, b);
  }

  lemma PrefixOfSnoc<T>(s: seq<T>, x: T, k: nat)
    requires k <= |s|
    ensures (s + [x])[..k] == s[..k]
  {
  }

  lemma SameSlice(s: Content, t: Content, from: nat, a: nat, b: nat)
    requires from <= a <= b <= MaxPageContentV2
    requires forall k | from <= k < MaxPageContentV2 :: t[k] == s[k]
    ensures t[a..b] == s[a..b]
  {
  }

  // Inserting a row that fits appends a cell and leaves every earlier slot as it was.
  lemma InsertKeepsSlots(p: Page, cells: seq<seq<Byte>>, dead: set<nat>, data: seq<Byte>)
    requires Holds(p, cells, dead) && forall d | d in dead :: d < |cells|
    requires data != [] && |data| < U16 - 2 && p.CanInsert(|data|)
    ensures Holds(p.PutCell(data), cells + [data], dead)
  {
    hide Total, DeadSize, SetDirty, Page.CanInsert, Page.GetCellPointer, Fits;
    var n, more, q := |cells|, cells + [data], p.PutCell(data);
    SnocSizes(cells, dead, data);
    RoomLeft(p, cells, dead, |data|);
    PutCellWrites(p, data);
    hide Page.PutCell;
    forall i: nat | i < n + 1
      ensures HoldsSlot(q, more, dead, i)
    {
      if i < n {
        OldSlotSurvives(p, q, cells, dead, data, i);
      } else {
        assert more[..n] == cells && more[..n + 1] == more;
      }
    }
  }

  lemma RoomLeft(p: Page, cells: seq<seq<Byte>>, dead: set<nat>, rowSize: nat)
    requires Holds(p, cells, dead) && rowSize < U16 - 2 && p.CanInsert(rowSize)
    ensures 2 * (|cells| + 1) + rowSize <= p.header.freeSpace && p.CellOffset(rowSize) == p.header.freeSpace - rowSize
  {
    RoomForRow(p, cells, dead, rowSize);
  }

  lemma SnocSizes(cells: seq<seq<Byte>>, dead: set<nat>, data: seq<Byte>)
    ensures Total(cells + [data]) == Total(cells) + |data|
    ensures |cells| !in dead ==> DeadSize(cells + [data], dead) == DeadSize(cells, dead)
  {
    assert (cells + [data])[..|cells|] == cells;
  }

  // Among the rows the page takes, a cell is appended exactly for those below 65534 bytes.
  lemma InsertKeepsSlotsExactly(p: Page, cells: seq<seq<Byte>>, dead: set<nat>, data: seq<Byte>)
    requires Holds(p, cells, dead) && forall d | d in dead :: d < |cells|
    requires data != [] && p.CanInsert(|data|) && p.CanPlace(|data|)
    ensures Holds(p.PutCell(data), cells + [data], dead) <==> |data| < U16 - 2
  {
    hide Page.PutCell;
    if |data| < U16 - 2 {
      InsertKeepsSlots(p, cells, dead, data);
    } else {
      assert (cells + [data])[..|cells|] == cells;
    }
  }

  // ---------------------------------------------------------------- deletion

  // DeleteRowFromPage works on a live slot whose predecessor is live as well: the cell end is
  // the previous pointer, and a cleared one gives empty bounds.
  predicate Deletable(cells: seq<seq<Byte>>, dead: set<nat>, i: nat) {
    i < |cells| && i !in dead && (i == 0 || i - 1 !in dead)
  }

  lemma PointersOf(p: Page, cells: seq<seq<Byte>>, dead: set<nat>, i: nat)
    requires Holds(p, cells, dead) && i < |cells|
    ensures p.GetCellPointer(i) == (if i in dead then 0 else Start(cells, i + 1))
    ensures 0 < Start(cells, i + 1) < Start(cells, i) <= MaxPageContentV2
    ensures Start(cells, i) == Start(cells, i + 1) + |cells[i]|
    ensures p.content[Start(cells, i + 1)..Start(cells, i)] == cells[i]
  {
    hide DeadSize, Page.GetCellPointer;
    assert HoldsSlot(p, cells, dead, i);
    assert cells[..|cells|] == cells;
    TotalMonotone(cells, i + 1, |cells|);
    TotalMonotone(cells, i, i + 1);
  }

  // A slot reads back its cell exactly when neither it nor its predecessor was deleted.
  lemma SlotReadable(p: Page, cells: seq<seq<Byte>>, dead: set<nat>, i: nat)
    requires Holds(p, cells, dead) && i < |cells|
    ensures p.GetCell(i) == if Deletable(cells, dead, i) then Ok(cells[i]) else Err(NoRow)
  {
    PointersOf(p, cells, dead, i);
    if i > 0 {
      PointersOf(p, cells, dead, i - 1);
    } else {
      assert Start(cells, 0) == MaxPageContentV2;
    }
    hide Total, DeadSize, Page.GetCellPointer;
  }

  lemma CanDeleteExact(p: Page, cells: seq<seq<Byte>>, dead: set<nat>, i: nat)
    requires Holds(p, cells, dead) && i < |cells|
    ensures p.CanDelete(i) <==> Deletable(cells, dead, i)
    ensures p.CanDelete(i) ==> p.CellEnd(i) - p.GetCellPointer(i) == |cells[i]|
  {
    PointersOf(p, cells, dead, i);
    if i > 0 {
      PointersOf(p, cells, dead, i - 1);
    } else {
      assert Start(cells, 0) == MaxPageContentV2;
    }
    hide Total, DeadSize, Page.GetCellPointer;
  }

  lemma {:induction false} DeadSizeGrows(cells: seq<seq<Byte>>, dead: set<nat>, i: nat)
    requires i !in dead
    ensures DeadSize(cells, dead + {i}) == DeadSize(cells, dead) + if i < |cells| then |cells[i]| else 0
  {
    if cells != [] {
      DeadSizeGrows(cells[..|cells| - 1], dead, i);
    }
  }

  lemma DeleteKeepsSlots(p: Page, cells: seq<seq<Byte>>, dead: set<nat>, i: nat)
    requires Holds(p, cells, dead) && Deletable(cells, dead, i)
    requires p.CanDelete(i)
    ensures Holds(p.WithoutCell(i), cells, dead + {i})
  {
    CanDeleteExact(p, cells, dead, i);
    DeadSizeGrows(cells, dead, i);
    DeadSizeBound(cells, dead + {i});
    forall j: nat | j < |cells|
      ensures HoldsSlot(p.WithoutCell(i), cells, dead + {i}, j)
    {
      DeletedSlot(p, cells, dead, i, j);
    }
    hide DeadSize, Total, SetDirty, Page.GetCellPointer, HoldsSlot;
  }

  // Clearing a pointer leaves the other pointers and all cells.
  lemma DeletedSlot(p: Page, cells: seq<seq<Byte>>, dead: set<nat>, i: nat, j: nat)
    requires Holds(p, cells, dead) && Deletable(cells, dead, i) && p.CanDelete(i) && j < |cells|
    ensures HoldsSlot(p.WithoutCell(i), cells, dead + {i}, j)
  {
    hide DeadSize, Total, SetDirty;
    var q := p.WithoutCell(i);
    PointerReadsBack(p, i, 0);
    PointersOf(p, cells, dead, j);
    PointersBelowCells(p, cells, dead, j);
    assert q.GetCellPointer(j) == if j == i then 0 else p.GetCellPointer(j);
    SameSlice(p.content, q.content, p.header.freeSpace, Start(cells, j + 1), Start(cells, j));
  }

  lemma PointersBelowCells(p: Page, cells: seq<seq<Byte>>, dead: set<nat>, j: nat)
    requires Holds(p, cells, dead) && j < |cells|
    ensures 2 * |cells| <= p.header.freeSpace <= Start(cells, j + 1)
  {
    assert cells[..|cells|] == cells;
    TotalMonotone(cells, j + 1, |cells|);
  }

  // ---------------------------------------------------------------- runs

  datatype PageOp = InsertOp(data: seq<Byte>) | DeleteOp(index: nat)
  datatype Slots = Slots(cells: seq<seq<Byte>>, dead: set<nat>)

  // Rows are never empty; the slots survive exactly those below 65534 bytes
  // (InsertKeepsSlotsExactly), and a table file refuses rows above 16252 bytes beforehand.
  predicate GoodOp(op: PageOp) {
    op.InsertOp? ==> op.data != [] && |op.data| < U16 - 2
  }

  function StepPage(p: Page, op: PageOp): Page
    requires GoodOp(op) && p.InBounds()
  {
    match op
    case InsertOp(data) => if p.CanInsert(|data|) then p.PutCell(data) else p
    case DeleteOp(i) => if p.CanDelete(i) then p.WithoutCell(i) else p
  }

  function StepSlots(s: Slots, op: PageOp): Slots {
    match op
    case InsertOp(data) =>
      if Fits(s.cells, s.dead, |data|) then Slots(s.cells + [data], s.dead) else s
    case DeleteOp(i) =>
      if Deletable(s.cells, s.dead, i) then Slots(s.cells, s.dead + {i}) else s
  }

  ghost predicate Represents(p: Page, s: Slots) {
    Holds(p, s.cells, s.dead) && forall d | d in s.dead :: d < |s.cells|
  }

  lemma StepRefines(p: Page, s: Slots, op: PageOp)
    requires Represents(p, s) && GoodOp(op)
    ensures Represents(StepPage(p, op), StepSlots(s, op))
  {
    match op {
      case InsertOp(data) =>
        RoomForRow(p, s.cells, s.dead, |data|);
        if p.CanInsert(|data|) {
          InsertKeepsSlots(p, s.cells, s.dead, data);
        }
      case DeleteOp(i) =>
        if i < |s.cells| {
          CanDeleteExact(p, s.cells, s.dead, i);
          if p.CanDelete(i) {
            DeleteKeepsSlots(p, s.cells, s.dead, i);
          }
        }
    }
  }

  ghost predicate PageRun(pages: seq<Page>, ops: seq<PageOp>) {
    |pages| == |ops| + 1
    && forall k | 0 <= k < |ops| :: GoodOp(ops[k]) && pages[k].InBounds() && pages[k + 1] == StepPage(pages[k], ops[k])
  }

  function RunSlots(s: Slots, ops: seq<PageOp>): Slots {
    if ops == [] then s else StepSlots(RunSlots(s, ops[..|ops| - 1]), ops[|ops| - 1])
  }

  // Over every run of inserts and deletes on a fresh page the slot invariant holds, so each
  // slot that was not deleted, and whose predecessor was not, reads back its own row.
  lemma {:induction false} RunRefines(pages: seq<Page>, ops: seq<PageOp>, pageID: UInt64, content: Content)
    requires PageRun(pages, ops)
    requires pages[0] == Page(NewHeader(pageID, PageTypeData), content)
    ensures Represents(pages[|ops|], RunSlots(Slots([], {}), ops))
  {
    if ops == [] {
      NewPageHoldsNothing(pageID, PageTypeData, content);
    } else {
      var last := |ops| - 1;
      assert ops[..last][..] == ops[..last];
      RunRefines(pages[..|ops|], ops[..last], pageID, content);
      StepRefines(pages[last], RunSlots(Slots([], {}), ops[..last]), ops[last]);
    }
  }

  function Stacked(cells: seq<seq<Byte>>): seq<Byte> {
    if cells == [] then [] else cells[|cells| - 1] + Stacked(cells[..|cells| - 1])
  }

  // The cells, last inserted first, are the bytes from FreeSpace to the end of the page.
  lemma CellsTileThePage(p: Page, cells: seq<seq<Byte>>, dead: set<nat>)
    requires Holds(p, cells, dead)
    ensures p.content[p.header.freeSpace..] == Stacked(cells)
  {
    CellsTileFrom(p, cells, dead, |cells|);
    assert cells[..|cells|] == cells;
  }

  lemma {:induction false} CellsTileFrom(p: Page, cells: seq<seq<Byte>>, dead: set<nat>, k: nat)
    requires Holds(p, cells, dead) && k <= |cells|
    ensures 0 <= Start(cells, k) <= MaxPageContentV2 && p.content[Start(cells, k)..] == Stacked(cells[..k])
  {
    hide Holds, Start;
    StartOfNothing(cells);
    if k > 0 {
      CellsTileFrom(p, cells, dead, k - 1);
      PointersOf(p, cells, dead, k - 1);
      assert cells[..k][..k - 1] == cells[..k - 1];
      var a, b := Start(cells, k), Start(cells, k - 1);
      SuffixInTwo(p.content, a, b);
    }
  }

  lemma StartOfNothing(cells: seq<seq<Byte>>)
    ensures Start(cells, 0) == MaxPageContentV2
  {
  }

  lemma SuffixInTwo<T>(s: seq<T>, a: nat, b: nat)
    requires a <= b <= |s|
    ensures s[a..] == s[a..b] + s[b..]
  {
  }

  // ---------------------------------------------------------------- the page object

  // Go embeds the content array in the page struct by value, so a page is one object and
  // its buffer is a field that the methods splice.
  class PageV2 {
    var header: PageHeader
    var content: Content

    function View(): Page
      reads this
    {
      Page(header, content)
    }

    constructor (pageID: UInt64, pageType: Byte)
      ensures View() == Page(NewHeader(pageID, pageType), seq(MaxPageContentV2, _ => 0))
    {
      header := NewHeader(pageID, pageType);
      content := seq(MaxPageContentV2, _ => 0);
    }

    method FromBytes(data: seq<Byte>) returns (ok: bool)
      modifies this
      ensures ok <==> ParsePage(data).Ok?
      ensures ok ==> View() == ParsePage(data).value
      ensures !ok ==> unchanged(this)
    {
      if |data| != PageSize16KB {
        return false;
      }
      header := ParseHeader(data);
      content := data[PageHeaderSizeV2..];
      ok := true;
    }

    method UpdateChecksum(crc: seq<Byte> -> UInt32)
      modifies this
      ensures View() == Page(old(header).(checksum := crc(old(content))), old(content))
    {
      header := header.(checksum := crc(content));
    }

    method SetCellPointer(index: nat, cellOffset: UInt16)
      requires 2 * index + 2 <= MaxPageContentV2
      modifies this
      ensures View() == old(View()).WithPointer(index, cellOffset)
    {
      var offset := index * 2;
      content := content[offset := cellOffset % 256][offset + 1 := cellOffset / 256];
    }

    method AddCellPointer(cellOffset: UInt16)
      requires 2 * header.cellCount + 2 <= MaxPageContentV2
      modifies this
      ensures header == old(header).(cellCount := old(header.cellCount) + 1)
      ensures content == old(View()).WithPointer(old(header.cellCount), cellOffset).content
    {
      SetCellPointer(header.cellCount, cellOffset);
      header := header.(cellCount := header.cellCount + 1);
    }

    // A refused row leaves the page as it was.
    method InsertRowToPage(rowID: nat, row: Row) returns (r: Result<nat, StorageError>)
      requires View().InBounds()
      requires View().CanInsert(|EncodedRow(rowID, row)|) ==> View().CanPlace(|EncodedRow(rowID, row)|)
      modifies this
      ensures r.Ok? <==> old(View()).CanInsert(|EncodedRow(rowID, row)|)
      ensures r.Ok? ==> View() == old(View()).PutCell(EncodedRow(rowID, row)) && r.value == header.cellCount - 1
      ensures r.Ok? ==>
                && header == old(header).(cellCount := old(header.cellCount) + 1, freeSpace := header.freeSpace,
                                          flags := header.flags)
                && Marked(old(header.flags), header.flags)
      ensures !r.Ok? ==> unchanged(this)
    {
      hide EncodedRow, SetDirty, Page.CanInsert, Marked;
      var rowData := EncodeRow(rowID, row);
      var rowSize := |rowData|;
      if !View().CanInsert(rowSize) {
        return Err(PageFull);
      }
      var cellOffset: UInt16 := (header.freeSpace - rowSize) % U16;
      var copied := if MaxPageContentV2 - cellOffset < rowSize then MaxPageContentV2 - cellOffset else rowSize;
      content := content[..cellOffset] + rowData[..copied] + content[cellOffset + copied..];
      AddCellPointer(cellOffset);
      header := header.(freeSpace := cellOffset);
      header := header.(flags := SetDirty(header.flags));
      r := Ok(header.cellCount - 1);
    }

    method GetRowFromPage(index: int) returns (r: Result<RowWithID, StorageError>)
      requires View().InBounds()
      ensures r == View().GetRow(index)
    {
      if index < 0 || index >= header.cellCount {
        return Err(NoRow);
      }
      var cellStart := View().GetCellPointer(index);
      if cellStart == 0 || cellStart >= MaxPageContentV2 {
        return Err(NoRow);
      }
      var cellEnd: UInt16 := MaxPageContentV2;
      if index != 0 {
        cellEnd := View().GetCellPointer(index - 1);
        if cellEnd == 0 || cellEnd >= MaxPageContentV2 {
          return Err(NoRow);
        }
      }
      if cellStart >= cellEnd {
        return Err(NoRow);
      }
      r := DecodeRow(content[cellStart..cellEnd]);
    }

    method DeleteRowFromPage(index: int) returns (ok: bool)
      requires View().InBounds()
      modifies this
      ensures ok <==> old(View()).CanDelete(index)
      ensures ok ==> View() == old(View()).WithoutCell(index)
      ensures ok ==>
                && header == old(header).(fragmented := header.fragmented, flags := header.flags)
                && Marked(old(header.flags), header.flags)
      ensures !ok ==> unchanged(this)
    {
      hide SetDirty, Marked;
      if index < 0 || index >= header.cellCount {
        return false;
      }
      var cellStart := View().GetCellPointer(index);
      if cellStart == 0 {
        return false;
      }
      var cellEnd: UInt16 := MaxPageContentV2;
      if index != 0 {
        cellEnd := View().GetCellPointer(index - 1);
      }
      if cellStart >= cellEnd {
        return false;
      }
      var cellSize := cellEnd - cellStart;
      header := header.(fragmented := (header.fragmented + cellSize) % U16);
      SetCellPointer(index, 0);
      header := header.(flags := SetDirty(header.flags));
      ok := true;
    }
  }

  // Storing an encoded row and reading its slot gives the row's normal form exactly when the
  // row is faithful, and stays so through every later insert (InsertKeepsSlots).
  lemma StoredRowReadsBack(p: Page, cells: seq<seq<Byte>>, i: nat, rowID: nat, row: Row)
    requires Holds(p, cells, {}) && i < |cells| && cells[i] == EncodedRow(rowID, row) && rowID < U64
    ensures p.GetRow(i) == DecodedRow(EncodedRow(rowID, row))
    ensures p.GetRow(i) == Ok(RowWithID(rowID, NormalRow(row))) <==> FaithfulRow(row)
  {
    SlotReadable(p, cells, {}, i);
    RowRoundTrip(rowID, row, []);
    assert EncodedRow(rowID, row) + [] == EncodedRow(rowID, row);
  }
}
