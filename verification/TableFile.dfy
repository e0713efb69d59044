// The table file of storage/tablefile.go: rows are appended to the last data page or to a
// new one, scanned along the page chain, and read through the page cache.

module TableFiles {
  import opened Bytes
  import opened Collections
  import opened RowFormat
  import opened RowCodec
  import opened SlottedPage
  import opened Caching
  import opened TableLayout

  // The part of the storage object a table file uses: the shared id counter.
  class IdCounter {
    var nextID: UInt64

    constructor ()
      ensures nextID == 1
    {
      nextID := 1;
    }
  }

  // The parts of the header that stay with the table.
  predicate SameTable(h: TableHeader, h': TableHeader) {
    && h'.version == h.version && h'.tableID == h.tableID && h'.pageSize == h.pageSize
    && h'.rootPage == h.rootPage && h'.columns == h.columns
  }

  // The rows of each data page after `r` went to the last page or to a new one.
  function Recorded(stored: seq<seq<RowWithID>>, reused: bool, r: RowWithID): seq<seq<RowWithID>>
    requires reused ==> stored != []
  {
    if reused then stored[|stored| - 1 := stored[|stored| - 1] + [r]] else stored + [[r]]
  }

  lemma FlattenRecorded(stored: seq<seq<RowWithID>>, reused: bool, r: RowWithID)
    requires reused ==> stored != []
    ensures Flatten(Recorded(stored, reused, r)) == Flatten(stored) + [r]
  {
    var more := Recorded(stored, reused, r);
    if reused {
      var n := |stored| - 1;
      assert more[..n] == stored[..n];
      Assoc(Flatten(stored[..n]), stored[n], [r]);
    } else {
      assert more[..|stored|] == stored;
    }
  }

  // The file and the header in memory represent the rows in `stored`.
  ghost predicate GoodImage(file: seq<seq<Byte>>, h: TableHeader, stored: seq<seq<RowWithID>>, dirty: bool,
                            nextID: nat, crc: seq<Byte> -> UInt32)
  {
    && Layout(file, h, stored, crc)
    && GoodRows(Flatten(stored), nextID)
    && h.rowCount == |Flatten(stored)|
    && (!dirty ==> file[0] == HeaderPage(h))
  }

  lemma ImageFacts(file: seq<seq<Byte>>, h: TableHeader, stored: seq<seq<RowWithID>>, dirty: bool,
                   nextID: nat, crc: seq<Byte> -> UInt32)
    requires GoodImage(file, h, stored, dirty, nextID, crc)
    ensures Layout(file, h, stored, crc) && h.rowCount <= nextID
    ensures |file| == |stored| + 1 == h.pageCount
    ensures forall i | 0 <= i < |file| :: |file[i]| == PageSize16KB
    ensures GoodImage(file, h, stored, dirty, nextID + 1, crc)
  {
    RowCountFitsIds(Flatten(stored), nextID);
  }

  lemma ImageNamed(file: seq<seq<Byte>>, h: TableHeader, stored: seq<seq<RowWithID>>, crc: seq<Byte> -> UInt32)
    requires Layout(file, h, stored, crc)
    ensures PagesNamed(file)
  {
    hide Holds;
    forall i | 1 <= i < |file|
      ensures PageIn(file, i).header.pageID == i
    {
      assert GoodPage(PageIn(file, i), i, NextOf(|stored|, i), stored[i - 1], crc);
    }
  }

  class TableFile {
    var file: seq<seq<Byte>> // the file, in pages of 16 KB
    var header: TableHeader
    var dirty: bool // the header in memory is newer than page 0
    const storage: IdCounter
    const cache: PageCache
    const crc: seq<Byte> -> UInt32

    ghost var stored: seq<seq<RowWithID>> // the rows of each data page

    // The cached page at `id`, if any, equals the page in the file at that position.
    ghost predicate Agrees(id: nat)
      reads this`file, cache`pages, cache`lruList, cache`lruMap, cache.pages.Values
    {
      id in cache.pages ==>
        1 <= id < |file| && |file[id]| == PageSize16KB
        && cache.pages[id].header.pageID == id && cache.pages[id].View() == PageIn(file, id)
    }

    ghost predicate CachedExcept(x: nat)
      reads this`file, cache`pages, cache`lruList, cache`lruMap, cache.pages.Values
    {
      && PagesNamed(file)
      && cache.Valid()
      && (forall id: nat | id != x :: Agrees(id))
    }

    ghost predicate Coherent()
      reads this`file, cache`pages, cache`lruList, cache`lruMap, cache.pages.Values
    {
      0 !in cache.pages && CachedExcept(0)
    }

    ghost predicate Valid()
      reads this, storage, cache, cache.pages.Values
    {
      Coherent() && GoodImage(file, header, stored, dirty, storage.nextID, crc)
    }

    // The abstract table: the rows inserted since it was created or last cleared.
    ghost function Contents(): seq<RowWithID>
      reads this
    {
      Flatten(stored)
    }

    // The pages now in the cache were there before or are new objects.
    twostate predicate CacheFrame()
      reads cache
    {
      forall id | id in cache.pages :: fresh(cache.pages[id]) || cache.pages[id] in old(cache.pages.Values)
    }

    // CreateTableFile
    constructor (storage: IdCounter, tableID: UInt64, columns: seq<Byte>, maxPages: int, crc: seq<Byte> -> UInt32)
      ensures Valid() && Contents() == [] && !dirty
      ensures header == TableHeader(1, tableID, 16384, 1, 0, 0, 0, 0, 0, columns)
      ensures this.storage == storage && this.crc == crc && fresh(cache)
    {
      var c := new PageCache(maxPages);
      var h := TableHeader(1, tableID, PageSize16KB, 1, 0, 0, 0, 0, 0, columns);
      this.storage := storage;
      this.crc := crc;
      cache := c;
      header := h;
      file := [HeaderPage(h)];
      dirty := false;
      stored := [];
    }

    // OpenTableFile, once the header has been read. `stored` names the rows of the image.
    constructor Open(storage: IdCounter, file: seq<seq<Byte>>, h: TableHeader, maxPages: int, crc: seq<Byte> -> UInt32,
                     ghost stored: seq<seq<RowWithID>>)
      requires GoodImage(file, h, stored, false, storage.nextID, crc)
      ensures Valid() && !dirty && header == h && this.file == file && this.stored == stored
      ensures this.storage == storage && this.crc == crc && fresh(cache)
    {
      ImageFacts(file, h, stored, false, storage.nextID, crc);
      ImageNamed(file, h, stored, crc);
      hide Layout, Flatten, GoodRows, PagesNamed;
      var c := new PageCache(maxPages);
      this.storage := storage;
      this.crc := crc;
      cache := c;
      header := h;
      this.file := file;
      dirty := false;
      this.stored := stored;
    }

    method ReadPage(pageID: nat) returns (page: PageV2?)
      requires Coherent() && pageID >= 1
      modifies cache
      ensures Coherent() && CacheFrame()
      ensures page == null <==> pageID >= |file|
      ensures page != null ==> page.View() == PageIn(file, pageID)
      ensures page != null ==> if pageID in old(cache.pages) then page == old(cache.pages)[pageID] else fresh(page)
    {
      hide ParsePage;
      page := cache.Get(pageID);
      forall id: nat | id != 0
        ensures Agrees(id)
      {
        assert old(Agrees(id));
      }
      if page != null {
        assert Agrees(pageID);
        return;
      }
      if pageID >= |file| {
        return null;
      }
      ParseSucceeds(file[pageID]);
      page := new PageV2(0, 0);
      var ok := page.FromBytes(file[pageID]);
      assert page.View() == PageIn(file, pageID);
      var _ := cache.Put(page);
      forall id: nat | id != 0
        ensures Agrees(id)
      {
        assert old(Agrees(id));
      }
    }

    method WritePageToFile(page: PageV2)
      requires 1 <= page.header.pageID <= |file|
      modifies this`file, page
      ensures page.View() == Summed(old(page.View()), crc)
      ensures file == WriteAt(old(file), page.header.pageID, PageBytes(page.View()))
    {
      page.UpdateChecksum(crc);
      file := WriteAt(file, page.header.pageID, PageBytes(page.View()));
    }

    // writePage and writePageToFileWithCache: afterwards the cache agrees with the file even
    // when Put evicted pages or failed.
    method WritePage(page: PageV2, clearDirty: bool)
      requires CachedExcept(page.header.pageID) && 0 !in cache.pages
      requires 1 <= page.header.pageID <= |file|
      modifies this`file, cache, page
      ensures Coherent()
      ensures page.View() == Summed(old(page.View()), crc)
      ensures file == WriteAt(old(file), page.header.pageID, PageBytes(page.View()))
      ensures forall id | id in cache.pages ::
                cache.pages[id] == page || (id in old(cache.pages) && cache.pages[id] == old(cache.pages)[id])
    {
      ghost var id := page.header.pageID;
      forall other: nat | other != id && other in cache.pages
        ensures cache.pages[other] != page
      {
        assert Agrees(other);
      }
      WriteAtNamed(file, id, Summed(page.View(), crc));
      hide PageIn, PagesNamed, PageBytes;
      WritePageToFile(page);
      var _ := cache.Put(page);
      if clearDirty {
        cache.ClearDirty(page.header.pageID);
      }
      forall other: nat | other != 0
        ensures Agrees(other)
      {
        if other != id {
          assert old(Agrees(other));
        }
      }
    }

    method AllocatePage() returns (page: PageV2)
      requires Coherent() && header.pageCount == |file| < U32 - 1 && header.freePageList == 0
      modifies this`file, this`header, this`dirty, cache
      ensures Coherent() && dirty && fresh(page)
      ensures header == old(header).(pageCount := old(header.pageCount) + 1)
      ensures page.View() == Summed(Page(NewHeader(|old(file)|, PageTypeData), page.content), crc)
      ensures file == old(file) + [PageBytes(page.View())]
      ensures forall id | id in cache.pages ::
                cache.pages[id] == page || (id in old(cache.pages) && cache.pages[id] == old(cache.pages)[id])
    {
      var pageID := header.pageCount;
      page := new PageV2(pageID, PageTypeData);
      header := header.(pageCount := header.pageCount + 1);
      dirty := true;
      forall other: nat | other != pageID
        ensures Agrees(other)
      {
        assert other != 0 ==> old(Agrees(other));
      }
      hide PageIn, PageBytes, PagesNamed;
      WritePage(page, false);
    }

    ghost function CachedAt(id: nat): set<PageV2>
      reads cache
    {
      if id in cache.pages then {cache.pages[id]} else {}
    }

    // The previous last page gets a link to the page appended after it.
    method LinkPage(n: nat, pageID: UInt64)
      requires Coherent() && 1 <= n < |file|
      modifies this`file, cache, CachedAt(n)
      ensures Coherent() && CacheFrame()
      ensures |old(file)[n]| == PageSize16KB
      ensures file == old(file)[n := PageBytes(Linked(PageIn(old(file), n), pageID, crc))]
    {
      var lastPage := ReadPage(n);
      assert lastPage.header.pageID == n;
      label beforeLink:
      hide PageIn, PageBytes, ParsePage;
      lastPage.header := lastPage.header.(rightPage := pageID);
      forall other: nat | other != n
        ensures Agrees(other)
      {
        assert other != 0 ==> old@beforeLink(Agrees(other));
      }
      hide PagesNamed;
      WritePage(lastPage, true);
    }

    // A new page at the end of the file, linked from the previous last page.
    method AddDataPage() returns (page: PageV2)
      requires Coherent() && Layout(file, header, stored, crc) && header.pageCount < U32 - 1
      modifies this`file, this`header, this`dirty, cache, cache.pages.Values
      ensures Coherent() && CacheFrame() && dirty && fresh(page)
      ensures header == WithNewPage(old(header))
      ensures page.View() == Summed(Page(NewHeader(|old(file)|, PageTypeData), page.content), crc)
      ensures forall i | 0 <= i < |old(file)| :: |old(file)[i]| == PageSize16KB
      ensures file == Extended(old(file), page.View(), crc)
    {
      hide GoodPage, PageBytes, ParsePage;
      ghost var file0 := file;
      page := AllocatePage();
      var pageID := page.header.pageID;
      if header.firstDataPage == 0 {
        header := header.(firstDataPage := pageID);
      }
      if header.lastDataPage > 0 {
        SamePage(file0, file, header.lastDataPage);
        assert Agrees(header.lastDataPage) && Agrees(pageID);
        LinkPage(header.lastDataPage, pageID);
      }
      header := header.(lastDataPage := pageID);
      dirty := true;
    }

    // The page InsertRow writes to: the last data page if the row fits it, a new page otherwise.
    method FindPage(ghost entry: RowWithID, rowSize: nat) returns (page: PageV2, ghost reused: bool)
      requires Coherent() && Layout(file, header, stored, crc) && header.pageCount < U32 - 1
      requires rowSize == |EncodedRow(entry.id, entry.row)| <= MaxRowSize
      modifies this`file, this`header, this`dirty, cache, cache.pages.Values
      ensures Coherent() && CacheFrame()
      ensures fresh(page) || page in old(cache.pages.Values)
      ensures page.View().InBounds() && page.View().CanInsert(rowSize)
      ensures page.header.pageID == LocatedID(stored, reused) < |file|
      ensures Located(old(file), old(header), stored, page.View(), reused, crc, file, header)
    {
      hide GoodPage, PageBytes, ParsePage, EncodedRow, Holds, Page.CanInsert;
      ghost var file0 := file;
      reused := false;
      if header.lastDataPage > 0 {
        LastPageReady(file, header, stored, crc);
        var last := ReadPage(header.lastDataPage);
        if last.View().CanInsert(rowSize) {
          return last, true;
        }
      }
      page := AddDataPage();
      FreshPageReady(|file0|, page.content, entry, crc);
      ExtendedReplaced(file0, page.View(), page.View(), crc);
    }

    // Puts the row into the located page and writes the page.
    method StoreRow(page: PageV2, entry: RowWithID)
      requires Coherent() && 1 <= page.header.pageID < |file| && header.rowCount < U64 - 1
      requires |EncodedRow(entry.id, entry.row)| <= MaxRowSize
      requires page.View().InBounds() && page.View().CanInsert(|EncodedRow(entry.id, entry.row)|)
      modifies this`file, this`header, this`dirty, cache, page
      ensures Coherent() && dirty
      ensures header == old(header).(rowCount := old(header.rowCount) + 1)
      ensures file == WriteAt(old(file), old(page.header.pageID), PageBytes(Grown(old(page.View()), entry, crc)))
      ensures forall id | id in cache.pages ::
                cache.pages[id] == page || (id in old(cache.pages) && cache.pages[id] == old(cache.pages)[id])
    {
      hide PageBytes, PageIn, EncodedRow, Page.CanInsert;
      var inserted := page.InsertRowToPage(entry.id, entry.row);
      forall other: nat | other != page.header.pageID
        ensures Agrees(other)
      {
        assert other != 0 ==> old(Agrees(other));
      }
      WritePage(page, true);
      header := header.(rowCount := header.rowCount + 1);
      dirty := true;
    }

    method InsertRow(row: Row) returns (r: Result<nat, StorageError>)
      requires Valid() && storage.nextID < U64 - 1 && header.pageCount < U32 - 1
      modifies this, storage, cache, cache.pages.Values
      ensures Valid() && CacheFrame() && storage.nextID == old(storage.nextID) + 1
      ensures r.Ok? <==> |EncodedRow(old(storage.nextID), row)| <= 16252
      ensures r.Ok? ==> r.value == old(storage.nextID)
                        && Contents() == old(Contents()) + [RowWithID(old(storage.nextID), row)]
                        && header.pageCount <= old(header.pageCount) + 1 && SameTable(old(header), header)
      ensures !r.Ok? ==> Contents() == old(Contents()) && file == old(file)
      ensures !r.Ok? ==> header == old(header) && dirty == old(dirty)
    {
      ImageFacts(file, header, stored, dirty, storage.nextID, crc);
      hide GoodImage, Layout, Flatten, EncodedRow;
      hide TableFile.Agrees, TableFile.CachedExcept, TableFile.Coherent;
      var rowID := storage.nextID;
      storage.nextID := storage.nextID + 1;
      var rowData := EncodeRow(rowID, row);
      var rowSize := |rowData|;
      if rowSize > MaxPageContentV2 - 100 {
        return Err(RowTooLarge);
      }
      var entry := RowWithID(rowID, row);
      AppendRow(entry, rowSize);
      r := Ok(rowID);
    }

    // Locates a page, puts the row into it and writes it.
    method PlaceRow(entry: RowWithID, rowSize: nat) returns (ghost reused: bool)
      requires Coherent() && GoodImage(file, header, stored, dirty, entry.id, crc)
      requires header.pageCount < U32 - 1 && entry.id < U64 - 1
      requires rowSize == |EncodedRow(entry.id, entry.row)| <= MaxRowSize
      modifies this`file, this`header, this`dirty, cache, cache.pages.Values
      ensures Coherent() && CacheFrame()
      ensures reused ==> stored != []
      ensures GoodImage(file, header, Recorded(stored, reused, entry), dirty, entry.id + 1, crc)
      ensures header.pageCount <= old(header.pageCount) + 1 && SameTable(old(header), header)
    {
      hide GoodImage, Layout, PageBytes, PageIn, EncodedRow, WriteAt, Recorded, Page.CanInsert;
      hide TableFile.Agrees, TableFile.CachedExcept, TableFile.Coherent;
      ghost var file0, header0, dirty0 := file, header, dirty;
      ImageFacts(file, header, stored, dirty, entry.id, crc);
      var targetPage;
      targetPage, reused := FindPage(entry, rowSize);
      ghost var before := targetPage.View();
      ghost var file1, header1 := file, header;
      assert SameTable(header0, header1);
      hide Located, Grown, Page.InBounds;
      StoreRow(targetPage, entry);
      InsertKeepsImage(file0, header0, stored, dirty0, before, reused, entry, crc, file1, header1);
    }

    method AppendRow(entry: RowWithID, rowSize: nat)
      requires Coherent() && GoodImage(file, header, stored, dirty, entry.id, crc)
      requires header.pageCount < U32 - 1 && entry.id < U64 - 1 && storage.nextID == entry.id + 1
      requires rowSize == |EncodedRow(entry.id, entry.row)| <= MaxRowSize
      modifies this, cache, cache.pages.Values
      ensures Valid() && CacheFrame()
      ensures Contents() == old(Contents()) + [entry] && header.pageCount <= old(header.pageCount) + 1
      ensures SameTable(old(header), header)
    {
      hide GoodImage, EncodedRow, Flatten, Recorded;
      hide TableFile.Agrees, TableFile.CachedExcept, TableFile.Coherent;
      ghost var reused := PlaceRow(entry, rowSize);
      FlattenRecorded(stored, reused, entry);
      stored := Recorded(stored, reused, entry);
    }

    // Truncates the file to its header page. The header on disk is stale until the next flush.
    method Clear()
      requires Valid()
      modifies this, cache
      ensures Valid() && Contents() == [] && dirty && |file| == 1
      ensures SameTable(old(header), header)
      ensures cache.pages == map[]
    {
      ImageFacts(file, header, stored, dirty, storage.nextID, crc);
      header := header.(firstDataPage := 0, lastDataPage := 0, rowCount := 0, freePageList := 0);
      dirty := true;
      cache.Clear();
      file := file[..1];
      header := header.(pageCount := 1);
      stored := [];
    }

    // Flushes cached dirty pages, which the file already holds, and the header.
    method Flush()
      requires Valid()
      modifies this`file, this`dirty, cache, cache.pages.Values
      ensures Valid() && !dirty && file[0] == HeaderPage(header)
      ensures file[1..] == old(file)[1..]
      ensures cache.pages == old(cache.pages)
    {
      ImageFacts(file, header, stored, dirty, storage.nextID, crc);
      hide Layout, Flatten, HeaderPage, PageIn, PagesNamed, GoodRows, TableFile.Agrees, TableFile.CachedExcept;
      var ok, written := cache.Flush({});
      var i := 0;
      while i < |written|
        invariant 0 <= i <= |written| && cache.pages == old(cache.pages)
        invariant Coherent() && cache.Valid() && file == old(file) && dirty == old(dirty)
                  && Ids(written) <= cache.pages.Keys
      {
        assert written[i] in Ids(written);
        assert cache.pages[written[i]] in old(cache.pages.Values);
        RewritePage(written[i]);
        i := i + 1;
      }
      if dirty {
        WriteHeader();
      }
    }

    // Writing a page that agrees with the file changes neither.
    method RewritePage(id: nat)
      requires Coherent() && Layout(file, header, stored, crc) && id in cache.pages
      modifies this`file, cache.pages[id]
      ensures Coherent() && file == old(file)
    {
      var page := cache.pages[id];
      assert Agrees(id);
      assert GoodPage(PageIn(file, id), id, NextOf(|stored|, id), stored[id - 1], crc);
      forall other: nat | other != id && other in cache.pages
        ensures cache.pages[other] != page
      {
        assert Agrees(other);
      }
      BytesOfPage(file, id);
      hide PageBytes, PageIn, GoodPage, Layout;
      WritePageToFile(page);
      assert file == old(file);
      forall other: nat | other != 0
        ensures Agrees(other)
      {
        assert old(Agrees(other));
      }
    }

    method WriteHeader()
      requires Valid()
      modifies this`file, this`dirty
      ensures Valid() && !dirty && file == old(file)[0 := HeaderPage(header)]
    {
      var headerData := HeaderPage(header);
      ghost var file0 := file;
      file := file[0 := headerData];
      dirty := false;
      HeaderKeepsPages(file0, header, stored, headerData, crc);
      hide PageIn, Layout, HeaderPage;
      forall other: nat | other != 0
        ensures Agrees(other)
      {
        assert old(Agrees(other));
      }
    }
  }

  lemma HeaderKeepsPages(file: seq<seq<Byte>>, h: TableHeader, stored: seq<seq<RowWithID>>, data: seq<Byte>,
          crc: seq<Byte> -> UInt32)
    requires Layout(file, h, stored, crc) && PagesNamed(file) && |data| == PageSize16KB
    ensures var file' := file[0 := data];
            && Layout(file', h, stored, crc) && PagesNamed(file')
            && forall i | 1 <= i < |file| :: PageIn(file', i) == PageIn(file, i)
  {
    hide PageIn, GoodPage;
    var file' := file[0 := data];
    forall i | 1 <= i < |file|
      ensures PageIn(file', i) == PageIn(file, i)
    {
      SamePage(file, file', i);
    }
  }

  function LocatedID(stored: seq<seq<RowWithID>>, reused: bool): nat {
    if reused then |stored| else |stored| + 1
  }

  // FindPage went from the image `file`, `h` to `file1`, `h1` and located `page`: the last
  // page as it is, or a new, empty one.
  ghost predicate Located(file: seq<seq<Byte>>, h: TableHeader, stored: seq<seq<RowWithID>>, page: Page, reused: bool,
                          crc: seq<Byte> -> UInt32, file1: seq<seq<Byte>>, h1: TableHeader)
  {
    && file != [] && |file| < U64
    && (forall i | 0 <= i < |file| :: |file[i]| == PageSize16KB)
    && h.pageCount < U32 - 1
    && h1.rowCount == h.rowCount
    && LocatedID(stored, reused) < |file1|
    && if reused then
         stored != [] && |stored| < |file| && page == PageIn(file, |stored|) && file1 == file && h1 == h
       else
         page == Summed(Page(NewHeader(|file|, PageTypeData), page.content), crc)
         && file1 == Extended(file, page, crc) && h1 == WithNewPage(h)
  }

  // The image InsertRow leaves behind when the grown page is written.
  lemma InsertKeepsImage(file: seq<seq<Byte>>, h: TableHeader, stored: seq<seq<RowWithID>>, dirty: bool,
                         page: Page, reused: bool, entry: RowWithID, crc: seq<Byte> -> UInt32,
                         file1: seq<seq<Byte>>, h1: TableHeader)
    requires GoodImage(file, h, stored, dirty, entry.id, crc) && entry.id < U64 - 1
    requires Located(file, h, stored, page, reused, crc, file1, h1)
    requires |EncodedRow(entry.id, entry.row)| <= MaxRowSize
    requires page.InBounds() && page.CanInsert(|EncodedRow(entry.id, entry.row)|)
    ensures h1.rowCount < U64 - 1 && LocatedID(stored, reused) < |file1| && (reused ==> stored != [])
    ensures GoodImage(WriteAt(file1, LocatedID(stored, reused), PageBytes(Grown(page, entry, crc))),
                      h1.(rowCount := h1.rowCount + 1), Recorded(stored, reused, entry), true, entry.id + 1, crc)
    ensures h1.pageCount <= h.pageCount + 1
  {
    hide Layout, Extended, WriteAt, PageBytes, PageIn, EncodedRow, Grown, Page.CanInsert;
    GoodRowsGrow(Flatten(stored), entry);
    FlattenRecorded(stored, reused, entry);
    ImageFacts(file, h, stored, dirty, entry.id, crc);
    hide GoodRows, Flatten, Recorded;
    if reused {
      ReusedKeepsLayout(file, h, stored, entry, crc);
    } else {
      FreshKeepsLayout(file, h, stored, page, entry, crc);
    }
  }

  lemma ReusedKeepsLayout(file: seq<seq<Byte>>, h: TableHeader, stored: seq<seq<RowWithID>>, entry: RowWithID,
          crc: seq<Byte> -> UInt32)
    requires Layout(file, h, stored, crc) && stored != [] && h.rowCount < U64 - 1
    requires |EncodedRow(entry.id, entry.row)| <= MaxRowSize
    requires PageIn(file, |stored|).InBounds() && PageIn(file, |stored|).CanInsert(|EncodedRow(entry.id, entry.row)|)
    ensures Layout(WriteAt(file, |stored|, PageBytes(Grown(PageIn(file, |stored|), entry, crc))),
                   h.(rowCount := h.rowCount + 1), Recorded(stored, true, entry), crc)
  {
    hide GoodPage, PageBytes, PageIn, EncodedRow, Grown, Page.CanInsert;
    LayoutAppends(file, h, stored, entry, crc);
  }

  lemma FreshKeepsLayout(file: seq<seq<Byte>>, h: TableHeader, stored: seq<seq<RowWithID>>, page: Page,
                         entry: RowWithID, crc: seq<Byte> -> UInt32)
    requires Layout(file, h, stored, crc) && h.pageCount < U32 - 1 && h.rowCount < U64 - 1
    requires |EncodedRow(entry.id, entry.row)| <= MaxRowSize
    requires page.InBounds() && page.CanInsert(|EncodedRow(entry.id, entry.row)|)
    requires page == Summed(Page(NewHeader(|file|, PageTypeData), page.content), crc)
    ensures |Extended(file, page, crc)| == |file| + 1
    ensures Layout(WriteAt(Extended(file, page, crc), |file|, PageBytes(Grown(page, entry, crc))),
                   WithNewPage(h).(rowCount := h.rowCount + 1), Recorded(stored, false, entry), crc)
  {
    hide GoodPage, PageBytes, PageIn, EncodedRow, Grown, Page.CanInsert;
    FreshPageReady(|file|, page.content, entry, crc);
    ExtendedReplaced(file, page, Grown(page, entry, crc), crc);
    LayoutExtends(file, h, stored, Grown(page, entry, crc), [entry], crc);
  }

  lemma GoodRowsGrow(rows: seq<RowWithID>, r: RowWithID)
    requires GoodRows(rows, r.id) && |EncodedRow(r.id, r.row)| <= MaxRowSize
    ensures GoodRows(rows + [r], r.id + 1)
  {
    hide EncodedRow;
  }

  // Reading a flushed file again gives the same table. HeaderRoundTrip says that the header
  // comes back exactly when the column JSON fits page 0.
  method Reopen(tf: TableFile, maxPages: int) returns (again: TableFile)
    requires tf.Valid() && !tf.dirty && |tf.header.columns| <= MaxColumnJson
    ensures fresh(again) && again.Valid() && !again.dirty
    ensures again.header == tf.header && again.Contents() == tf.Contents()
  {
    ImageFacts(tf.file, tf.header, tf.stored, false, tf.storage.nextID, tf.crc);
    HeaderRoundTrip(tf.header);
    var h := ParseHeaderPage(tf.file[0]).value;
    hide Layout, Flatten, GoodRows, HeaderPage, ParseHeaderPage, PageIn;
    again := new TableFile.Open(tf.storage, tf.file, h, maxPages, tf.crc, tf.stored);
  }

  lemma PageFacts(file: seq<seq<Byte>>, h: TableHeader, stored: seq<seq<RowWithID>>, crc: seq<Byte> -> UInt32, id: nat)
    requires Layout(file, h, stored, crc) && 1 <= id < |file|
    ensures var p, rows := PageIn(file, id), stored[id - 1];
            && p.InBounds() && p.header.cellCount == |rows|
            && p.header.rightPage == NextOf(|stored|, id)
            && forall i | 0 <= i < |rows| :: p.GetCellPointer(i) > 0
                 && p.GetRow(i) == DecodedRow(EncodedRow(rows[i].id, rows[i].row))
  {
    var p, rows := PageIn(file, id), stored[id - 1];
    assert GoodPage(p, id, NextOf(|stored|, id), rows, crc);
    forall i | 0 <= i < |rows|
      ensures p.GetCellPointer(i) > 0 && p.GetRow(i) == DecodedRow(EncodedRow(rows[i].id, rows[i].row))
    {
      PointersOf(p, Cells(rows), {}, i);
      SlotReadable(p, Cells(rows), {}, i);
    }
  }

  // The slots of `p` hold the rows of the table from position `first`.
  ghost predicate ShowsRows(p: Page, rows: seq<RowWithID>, first: nat) {
    && p.InBounds()
    && first + p.header.cellCount <= |rows|
    && forall i | 0 <= i < p.header.cellCount :: ShowsRow(p, rows, first, i)
  }

  ghost predicate ShowsRow(p: Page, rows: seq<RowWithID>, first: nat, i: nat)
    requires p.InBounds() && first + i < |rows|
  {
    p.GetCellPointer(i) > 0 && p.GetRow(i) == DecodedRow(EncodedRow(rows[first + i].id, rows[first + i].row))
  }

  lemma RowShown(p: Page, rows: seq<RowWithID>, first: nat, i: nat)
    requires ShowsRows(p, rows, first) && i < p.header.cellCount
    ensures p.InBounds() && first + i < |rows|
    ensures p.GetCellPointer(i) > 0
    ensures p.GetRow(i) == DecodedRow(EncodedRow(rows[first + i].id, rows[first + i].row))
  {
    assert ShowsRow(p, rows, first, i);
  }

  // Where the rows of data page `id` lie in the table.
  lemma PageRows(file: seq<seq<Byte>>, h: TableHeader, stored: seq<seq<RowWithID>>, dirty: bool, nextID: nat,
                 crc: seq<Byte> -> UInt32, id: nat)
    requires GoodImage(file, h, stored, dirty, nextID, crc) && 1 <= id <= |stored|
    ensures |stored| < |file| && |file[id]| == PageSize16KB
    ensures PageIn(file, id).header.cellCount == |stored[id - 1]|
    ensures PageIn(file, id).header.rightPage == NextOf(|stored|, id)
    ensures ShowsRows(PageIn(file, id), Flatten(stored), |Flatten(stored[..id - 1])|)
    ensures id < |stored| ==> |Flatten(stored[..id])| == |Flatten(stored[..id - 1])| + |stored[id - 1]|
    ensures id == |stored| ==> |Flatten(stored)| == |Flatten(stored[..id - 1])| + |stored[id - 1]|
  {
    hide PageIn, DecodedRow, EncodedRow, GoodRows, Page.GetRow, Page.GetCellPointer;
    PageFacts(file, h, stored, crc, id);
    FlattenPrefix(stored, id - 1);
    assert stored[..|stored|] == stored;
    hide Flatten, Layout, GoodImage;
    var p, rows, first := PageIn(file, id), Flatten(stored), |Flatten(stored[..id - 1])|;
    forall i: nat | i < p.header.cellCount
      ensures ShowsRow(p, rows, first, i)
    {
      FlattenAt(stored, id - 1, i);
    }
  }

  lemma FlattenAt(stored: seq<seq<RowWithID>>, k: nat, i: nat)
    requires k < |stored| && i < |stored[k]|
    ensures |Flatten(stored[..k])| + i < |Flatten(stored)|
    ensures Flatten(stored)[|Flatten(stored[..k])| + i] == stored[k][i]
  {
    FlattenPrefix(stored, k);
    hide Flatten;
    var first := |Flatten(stored[..k])|;
    var part := Flatten(stored)[first..first + |stored[k]|];
    assert part[i] == Flatten(stored)[first + i];
  }

  // The same for a table file object.
  lemma PageOfTable(tf: TableFile, id: nat)
    requires tf.Valid() && 1 <= id <= |tf.stored|
    ensures |tf.file| == |tf.stored| + 1 && |tf.file[id]| == PageSize16KB
    ensures PageIn(tf.file, id).header.cellCount == |tf.stored[id - 1]|
    ensures PageIn(tf.file, id).header.rightPage == NextOf(|tf.stored|, id)
    ensures ShowsRows(PageIn(tf.file, id), tf.Contents(), |Flatten(tf.stored[..id - 1])|)
    ensures |Flatten(tf.stored[..id - 1])| + |tf.stored[id - 1]| <= |tf.Contents()|
    ensures id < |tf.stored| ==> |Flatten(tf.stored[..id])| == |Flatten(tf.stored[..id - 1])| + |tf.stored[id - 1]|
    ensures id == |tf.stored| ==> |tf.Contents()| == |Flatten(tf.stored[..id - 1])| + |tf.stored[id - 1]|
  {
    hide GoodImage, PageIn, Flatten, ShowsRows, TableFile.Coherent;
    ImageFacts(tf.file, tf.header, tf.stored, tf.dirty, tf.storage.nextID, tf.crc);
    FlattenPrefix(tf.stored, id - 1);
    hide Layout;
    PageRows(tf.file, tf.header, tf.stored, tf.dirty, tf.storage.nextID, tf.crc, id);
  }

  // Walks the chain of data pages. Reads cannot fail here, so the error field is left out.
  class RowIterator {
    const tf: TableFile
    var pageID: nat
    var cellIdx: nat
    var page: PageV2?
    var started: bool // whether the current page has delivered a row
    ghost var pos: nat // rows delivered so far

    ghost function Before(id: nat): nat
      reads tf
      requires 1 <= id <= |tf.stored|
    {
      |Flatten(tf.stored[..id - 1])|
    }

    ghost predicate Valid()
      reads this, tf, tf.storage, tf.cache, tf.cache.pages.Values, page
    {
      && tf.Valid()
      && if page == null then
           if pageID == 0 then pos == |tf.Contents()|
           else pageID == 1 <= |tf.stored| && pos == 0 && !started
         else OnRow()
    }

    // The iterator stands on the row it delivered last.
    ghost predicate OnRow()
      reads this, tf, page
    {
      && page != null && 1 <= pageID < |tf.file| == |tf.stored| + 1
      && |tf.file[pageID]| == PageSize16KB && page.View() == PageIn(tf.file, pageID)
      && started && cellIdx < |tf.stored[pageID - 1]|
      && pos == Before(pageID) + cellIdx + 1
    }

    // ScanRows
    constructor (tf: TableFile)
      requires tf.Valid()
      ensures Valid() && this.tf == tf && pos == 0
    {
      ImageFacts(tf.file, tf.header, tf.stored, tf.dirty, tf.storage.nextID, tf.crc);
      this.tf := tf;
      pageID := tf.header.firstDataPage;
      cellIdx := 0;
      page := null;
      started := false;
      pos := 0;
      new;
      hide GoodImage, PageIn;
    }

    // The iterator stands before the first row of data page `pageID`.
    ghost predicate AtPageStart()
      reads this, tf, page
    {
      && page != null && 1 <= pageID < |tf.file| == |tf.stored| + 1
      && |tf.file[pageID]| == PageSize16KB && page.View() == PageIn(tf.file, pageID)
      && !started && cellIdx == 0 && pos == Before(pageID)
    }

    method LoadPage()
      requires tf.Valid() && 1 <= pageID <= |tf.stored| && pos == Before(pageID)
      modifies this`page, this`cellIdx, this`started, tf.cache
      ensures tf.Valid() && AtPageStart() && tf.CacheFrame()
    {
      hide GoodImage, Layout, PageIn, Flatten, TableFile.Coherent;
      ImageFacts(tf.file, tf.header, tf.stored, tf.dirty, tf.storage.nextID, tf.crc);
      page := tf.ReadPage(pageID);
      cellIdx := 0;
      started := false;
    }

    method Next() returns (more: bool)
      requires Valid()
      modifies this, tf.cache
      ensures Valid() && tf.CacheFrame()
      ensures more <==> old(pos) < |tf.Contents()|
      ensures pos == if more then old(pos) + 1 else old(pos)
      ensures more ==> page != null
    {
      hide GoodImage, Layout, PageIn, Flatten, ShowsRows, Page.InBounds, TableFile.Valid;
      FlattenNothing(tf.stored);
      if page == null && pageID > 0 {
        LoadPage();
      }
      if page == null {
        return false;
      }
      while true
        invariant tf.Valid() && (AtPageStart() || OnRow()) && tf.CacheFrame()
        invariant pos == old(pos)
        decreases |tf.stored| - pageID
      {
        more := NextOnPage();
        if more {
          return;
        }
        pageID := page.header.rightPage;
        if pageID == 0 {
          page := null;
          return false;
        }
        LoadPage();
      }
    }

    // The inner part of Next: the next cell of the current page, if there is one.
    method NextOnPage() returns (more: bool)
      requires tf.Valid() && (AtPageStart() || OnRow())
      modifies this`cellIdx, this`started, this`pos
      ensures tf.Valid() && page != null && 1 <= pageID <= |tf.stored|
      ensures more ==> OnRow() && pos == old(pos) + 1 <= |tf.Contents()|
      ensures !more ==> pos == old(pos) && page.header.rightPage == NextOf(|tf.stored|, pageID)
      ensures !more && pageID < |tf.stored| ==> pos == Before(pageID + 1)
      ensures !more && pageID == |tf.stored| ==> pos == |tf.Contents()|
    {
      hide PageIn, Flatten, ShowsRows, Page.InBounds, TableFile.Valid;
      PageOfTable(tf, pageID);
      if started {
        cellIdx := cellIdx + 1;
      } else {
        started := true;
      }
      // a deleted cell would be skipped here; the table holds none
      if cellIdx < page.header.cellCount {
        pos := pos + 1;
        return true;
      }
      more := false;
    }

    method Row() returns (r: Result<RowWithID, StorageError>)
      requires Valid() && page != null
      ensures 0 < pos <= |tf.Contents()|
      ensures r == DecodedRow(EncodedRow(tf.Contents()[pos - 1].id, tf.Contents()[pos - 1].row))
    {
      hide GoodImage, Flatten, PageIn, DecodedRow, EncodedRow, ShowsRows, Page.GetRow, Page.GetCellPointer;
      hide Page.InBounds;
      hide TableFile.Valid;
      PageOfTable(tf, pageID);
      RowShown(page.View(), tf.Contents(), Before(pageID), cellIdx);
      r := page.GetRowFromPage(cellIdx);
    }
  }

  // GetAllRowsWithIDs: the stored rows as they read back, in insertion order.
  method GetAllRowsWithIDs(tf: TableFile) returns (r: Result<seq<RowWithID>, StorageError>)
    requires tf.Valid()
    modifies tf.cache
    ensures tf.Valid() && tf.CacheFrame()
    ensures r == ReadBack(tf.Contents())
  {
    hide DecodedRow, EncodedRow, ReadBack, TableFile.Valid, TableFile.Contents, RowIterator.Before, PageIn;
    ghost var contents := tf.Contents();
    ReadBackStart(contents);
    var rows: seq<RowWithID> := [];
    var iter := new RowIterator(tf);
    var more := iter.Next();
    while more
      invariant iter.Valid() && iter.tf == tf && fresh(iter) && tf.Contents() == contents
      invariant iter.pos <= |contents| && tf.CacheFrame()
      invariant more ==> iter.page != null && iter.pos > 0 && ReadBack(contents[..iter.pos - 1]) == Ok(rows)
      invariant !more ==> iter.pos == |contents| && ReadBack(contents[..iter.pos]) == Ok(rows)
      decreases |contents| - iter.pos, more
    {
      ghost var k := iter.pos - 1;
      var row := iter.Row();
      ReadBackStep(contents, k);
      match row {
        case Err(e) =>
          return Err(e);
        case Ok(entry) =>
          rows := rows + [entry];
      }
      more := iter.Next();
    }
    assert contents[..iter.pos] == contents;
    r := Ok(rows);
  }

  lemma ReadBackStart(rows: seq<RowWithID>)
    ensures ReadBack(rows[..0]) == Ok([])
  {
  }

  // Scanning row k after the rows before it were read.
  lemma ReadBackStep(rows: seq<RowWithID>, k: nat)
    requires k < |rows|
    ensures var d := DecodedRow(EncodedRow(rows[k].id, rows[k].row));
            ReadBack(rows[..k]).Ok? ==>
              if d.Err? then ReadBack(rows) == Err(d.error)
              else ReadBack(rows[..k + 1]) == Ok(ReadBack(rows[..k]).value + [d.value])
  {
    hide DecodedRow, EncodedRow;
    assert rows[..k + 1][..k] == rows[..k];
    if DecodedRow(EncodedRow(rows[k].id, rows[k].row)).Err? && ReadBack(rows[..k]).Ok? {
      ReadBackStops(rows, k);
    }
  }

  lemma FlattenNothing(stored: seq<seq<RowWithID>>)
    ensures Flatten(stored[..0]) == []
  {
  }

  lemma {:induction false} ReadBackStops(rows: seq<RowWithID>, k: nat)
    requires k < |rows| && ReadBack(rows[..k]).Ok?
    requires DecodedRow(EncodedRow(rows[k].id, rows[k].row)).Err?
    ensures ReadBack(rows) == Err(DecodedRow(EncodedRow(rows[k].id, rows[k].row)).error)
    decreases |rows|
  {
    hide DecodedRow, EncodedRow;
    var n := |rows| - 1;
    if k < n {
      assert rows[..n][..k] == rows[..k];
      ReadBackStops(rows[..n], k);
    }
  }
}
