# XxLdb in Dafny

XxLdb is a small SQL database written in Go. This project models its four intricate parts and
proves what they are for.

**Page-based table store.** `Bytes`, `RowFormat`, `RowCodec`, `SlottedPage`, `Caching` (in `PageCache.dfy`),
`TableLayout`, `TableFiles` (in `TableFile.dfy`) and `TableRuns` follow the storage stack from
little-endian integers up to a table file read and written through an LRU cache. A table file
stands for a list of (row id, row) pairs, `Contents()`. Every method is tied to that list, and
`TableRuns.RunAndScan` says that after any run of inserts, clears, flushes and scans, whatever the
cache capacity, a scan returns that list as the row codec reads it back. The page object embeds
its content array by value in Go, so a page is one object whose buffer is a sequence field.

**Log, row-list store and cipher.** `StoreState` says what each statement does to the in-memory
row lists and which records it logs; `Store.Storage` is the object with the same loops over mutable
maps, proved against it. `StoredValues` tells the statements in terms of the values given: what a
stored row holds of them, and which value stops a statement. `StoreInvariant` shows what every run keeps (column constraints, ids,
counts), `RowUpdates` what an UPDATE does row by row and in every order of its update map,
`Sequences` what runs do to sequence columns, `ColumnLengths` when stored values keep to the length
of their column, and `Replay` that replaying the log over the snapshot gives the live tables, row
ids and rows. `AfterRecovery` says what replay does not restore: row
counts, the id counter and the sequences. `WalLog` is the byte framing, and `Recovery` puts it
together with replay. `Cipher` is the TXDEF cipher in its one-shot and streaming forms.

**Full-text index.** `IndexState` and `InvertedIndex` model indexing and deleting; `SearchSpec`
what a search should return; `TextAgreement` and `TextTable` a table whose INSERT, UPDATE and
DELETE keep the index in step, queried by MATCH; `Highlight` the marking of found words.

**Query front end.** `ExprAst`, `ExprGrammar`, `ExprParser`, `ExprLanguage`, `ExprNames` and
`ExprRoundTrip` cover the recursive-descent expression parser: a parser object with a cursor, and
what it computes as functions. `ExprLanguage` says which tokens spell which tree, with operands
split in any way that fits; the parser, which never goes back, returns a tree for a whole token
sequence if and only if the tokens spell it (`ExprLanguage.ParserAcceptsTheLanguage`), so no tokens
spell two trees. `ExprNames` is about keywords used as names, and `ExprRoundTrip` about a
minimal-parenthesis printer that the parser inverts. `Like` is the backtracking matcher, `ValueOrder`
and `OrderBy` the comparison of values and the insertion sort. `Collections` holds the lists and
options that all modules share.

Where the code does not meet a property for all inputs, the model keeps the code's behaviour and
a theorem gives the exact condition:

- A string is matched correctly by every LIKE pattern if and only if it contains no `%`
  (`Like.CorrectExactlyWithoutPercent`). For every string and pattern, the matcher accepts if and
  only if the string can be cut into one piece per pattern character such that a `%` takes no piece
  but `%` itself from where the string has a `%` at that point (`Like.AcceptsEagerly`).
- Sorting any rows of a pool puts them in order if and only if the comparison is transitive on the
  pool (`OrderBy.SortsExactlyWhenTransitive`); texts that look like numbers, mixed with texts that
  do not, break it (`ValueOrder.MixedKindsCycle`).
- A column survives the row codec if and only if it is not a fractional, negative or huge float
  and not an inline blob whose length is 254 modulo 256 (`RowCodec.ColumnRoundTrip`).
- Another password opens an encrypted file to its content if and only if it has a filler of the same
  length and shifts every byte alike (`Cipher.OtherPassword`); for passwords of the same byte sum, if
  and only if they agree, repeated, over the length of the data (`Cipher.SameSumPassword`).
- The one-shot cipher gives back its input if and only if that is not an empty slice
  (`Cipher.EncryptThenDecrypt`).
- An UPDATE keeps the text index in agreement if and only if no row before the first one it
  refuses has its indexed text emptied, and that first refusing row gets no other text before the
  refused value (`TextAgreement.UpdateAgrees`). Go walks the update map in random order; the
  statement is harmless in every order if and only if, besides, no accepted value of the first
  refusing row is another text (`TextAgreement.HarmlessInEveryOrder`).
- After an UPDATE that fails, replay meets the live table if and only if every value assigned to
  the first refusing row before the refused one is what the row already holds
  (`Replay.AbortedUpdateReplays`); in every order of the map if and only if no accepted value
  would alter that row (`Replay.AbortedUpdateReplaysInEveryOrder`).
- Replay takes "" for "no such table" and skips the records of a table with that name. It meets all
  live tables if and only if that table ended the run as it was in the snapshot, or was dropped
  (`Replay.ReplayIsLive`); it would do so after every statement if and only if no statement changes
  that table: no INSERT into it is accepted, no UPDATE alters a row of it, no DELETE selects one
  (`Replay.RecoverableExactly`; `Replay.UnnamedInsertIsLost` is the shortest such run).
- Replay restores tables, row ids and rows, but leaves row counts, the id counter and the sequences
  as they were in the snapshot. The recovered ids lie below the id counter, as they must to stay
  unique, if and only if every row inserted since was deleted, or its table dropped, again, or went
  into the table named "" (`AfterRecovery.RecoveredIDsSound`; otherwise see `RecoveryReusesIDs`).
  The row counts are right if and only if each table has as many rows as in the snapshot
  (`RecoveredRowCounts`). A sequence stands right if and only if no accepted insert took a value of
  it (`RecoveredSequences`); the first insert afterwards repeats the values handed out then
  (`RecoveryRepeatsSequences`).
- Dropping one table loses no sequence of another, and creating it leaves them where they stand, if
  and only if neither name continues the other behind an underscore
  (`Sequences.DropSparesExactly`, `Sequences.CreateSparesExactly`), since a sequence goes by table
  name, underscore and column name. With a column c of table a_b and a column b_c of table a, a row
  of a_b inserted before and one inserted after CREATE TABLE a get the same value
  (`Sequences.CreateRepeatsValue`). Sequence values increase over every run that spares such names
  (`Sequences.SequenceValuesIncrease`).
- From a new store on, every stored value keeps to the length of its column if and only if no
  accepted INSERT draws a sequence value out of its column's range
  (`ColumnLengths.NewStoreMeasured`): such a value fits if and only if it is below ten to the power
  of the length, and for a fixed length greater than one not below the power before
  (`ColumnLengths.InsertedSequenceFits`).
- A page cache within capacity stays so after every operation of a run if and only if no Resize of
  it fails (`Caching.RunKeepsSize`); a failed one has already lowered the capacity, and a Put of a
  cached page then succeeds above it (`Caching.PutAboveCapacity`).
- The size estimate of a row is its encoded length if and only if the columns of generic types take
  the guessed ten bytes on average (`RowCodec.EstimateIsExact`).
- Clearing the text of an indexed row leaves it indexed if and only if its column does not pad the
  empty text with spaces (`TextAgreement.ClearedTextStaysIndexed`).
- The space check of a page is right for every row below 65534 bytes, and for a longer one if and
  only if its size modulo 65536 happens not to fit either (`SlottedPage.CanInsertExact`); among the
  rows it lets through, the slots survive exactly those below 65534 bytes
  (`SlottedPage.InsertKeepsSlotsExactly`). No statement gets there: a table file refuses rows above
  16252 bytes first (`TableFiles.TableFile.InsertRow`).
- The ranges found in the folded text fit the text itself, for every word, if and only if folding
  does not make it longer (`Highlight.HitsFitExactly`); U+023A grows from two bytes to three
  (`Highlight.FoldedTextGrows`). The search loop moves on or ends if and only if the word is not
  empty or its folded form does not occur (`Highlight.ScanAdvancesExactly`), and a custom dictionary
  may hold an empty word, which occurs everywhere.
- One search returns all matching rows if and only if no more than 1000 match
  (`TextTable.PageHoldsAll`).
- A log cut after k bytes is readable if and only if the cut falls between two frames
  (`WalLog.CutLog`).
- The table header survives a write and a read if and only if its column JSON fits page 0
  (`TableLayout.HeaderRoundTrip`).
- A tree survives printing and parsing if and only if the parser can build it; multiplication is
  not such a tree, since the lexer delivers `*` as a token of its own
  (`ExprRoundTrip.RoundTripExactlyWhenWellFormed`).

One further finding is that NULL needs a VARCHAR of length 4 or no limit, since it is measured as
the text `NULL` (`StoreState.NullInVarchar`).

Checksums, JSON, decryption inside the log, tokenisation, case folding, WHERE conditions and update
expressions are function parameters. Random filler bytes, the pieces a reader delivers and the set
of pages whose write fails are inputs. A file is a sequence of 16 KB pages or of bytes.

`dafny verify dfyconfig.toml` checks the project.

## Model

| member | source | states |
|---|---|---|
| Bytes.LEByte | storage/page.go:142-160 | byte i of a fixed-width integer is its i-th digit to the base 256, least significant first |
| RowCodec.EncodeRow | storage/page.go:230-260 | the encoding loop produces row id, column count and columns in order |
| RowCodec.DecodeRow | storage/page.go:366-399 | the decoding loop is the reference decoder, errors included |
| RowCodec.ColumnBytes | storage/page.go:263-363 | the bytes of every kind of column, with tags, widths and signs written out |
| RowCodec.RowBytes | storage/page.go:230-260 | eight bytes of row id, two of column count, then the columns one after the other |
| RowCodec.DecodeMeans | storage/page.go:402-487 | for any bytes, what a column decodes to and how many bytes it takes, or which error it gives, by its tag byte |
| RowCodec.ColumnReadsBack | storage/page.go:263-487 | which value each kind of column reads back as, and exactly which floats, blobs and references do not come back |
| RowCodec.RowReadsBack | storage/page.go:230-487 | the same for each column of an encoded row |
| RowCodec.ColumnRoundTrip | storage/page.go:263-487 | a column followed by any bytes decodes to its normal form if and only if it is faithful, and then consumes exactly its own bytes |
| RowCodec.RefRoundTrip | storage/page.go:263-300 | a blob reference keeps id and size as long as the id fits 64 bits |
| RowCodec.InlineBlob | storage/page.go:402-430 | an inline blob decodes as a reference exactly when its length is 254 modulo 256 |
| RowCodec.RowRoundTrip | storage/page.go:230-487 | an encoded row followed by any bytes decodes to its id and normal form if and only if every column is faithful and there are fewer than 65536 columns |
| RowCodec.NormalFormIsStable | storage/page.go:402-487 | normalising twice changes nothing and keeps faithfulness |
| RowCodec.NormalFormSize | storage/page.go:230-487 | a row that was read back takes as much space as the row that was stored |
| RowCodec.EstimateRowSize | storage/page.go:621-651 | the loop adds up the per-column estimates |
| RowCodec.EstimateIsExact | storage/page.go:621-651 | the estimate is the encoded length if and only if the generic columns take ten bytes each on average, as they do when there are none |
| SlottedPage.PageRoundTrip | storage/page.go:142-185 | a page written to 16384 bytes parses back to itself, and exactly the full-sized buffers parse |
| SlottedPage.PageFields | storage/page.go:142-161 | at which offsets each header field and the content stand |
| SlottedPage.NewHeaderFields | storage/page.go:84-97 | the fields of a new header: version 1, 16352 bytes free, all else zero |
| SlottedPage.NewPageHoldsNothing | storage/page.go:84-97 | a new page satisfies the slot invariant with no cells |
| SlottedPage.CanInsertExact | storage/page.go:100-118 | the space check says whether cell and pointer fit what is left if and only if the row is below 65534 bytes or its size modulo 65536, with the pointer, does not fit either |
| SlottedPage.CanInsertWraps | storage/page.go:114-118 | the same on an empty page, where 65534 and 65546 bytes both pass |
| SlottedPage.AvailableSpaceIsSafe | storage/page.go:100-111 | the recorded space never exceeds the gap between pointers and cells |
| SlottedPage.PutCellWrites | storage/page.go:500-516 | a row that fits is written just below the free-space mark, its pointer is appended, and no other pointer or cell byte changes |
| SlottedPage.InsertKeepsSlots | storage/page.go:491-517 | inserting a row that fits appends a cell and leaves every earlier slot as it was |
| SlottedPage.InsertKeepsSlotsExactly | storage/page.go:491-517 | of the rows the space check lets through, exactly those below 65534 bytes become a cell that leaves the earlier slots as they were |
| SlottedPage.SlotReadable | storage/page.go:524-556 | a slot reads back its cell if and only if neither it nor its predecessor was deleted |
| SlottedPage.CanDeleteExact | storage/page.go:559-592 | a slot can be deleted if and only if it and its predecessor are live |
| SlottedPage.DeleteKeepsSlots | storage/page.go:559-592 | deleting a slot keeps all cells in place and only marks the slot dead |
| SlottedPage.StepRefines | storage/page.go:491-592 | each insert or delete on the bytes is the same step on the list of slots, refusals included |
| SlottedPage.RunRefines | storage/page.go:84-592 | every run of inserts and deletes on a fresh page keeps the slot invariant |
| SlottedPage.CellsTileThePage | storage/page.go:491-517 | the cells are exactly the bytes from FreeSpace to the end |
| SlottedPage.PointersOf | storage/page.go:190-208 | pointers decrease strictly and each cell lies between its pointer and the previous one |
| SlottedPage.StoredRowReadsBack | storage/page.go:524-556 | the slot of an encoded row reads the row's normal form if and only if the row is faithful |
| SlottedPage.PageV2.constructor | storage/page.go:84-97 | an empty page with zeroed content |
| SlottedPage.PageV2.FromBytes | storage/page.go:164-185 | parses a full-sized buffer and leaves the page alone otherwise |
| SlottedPage.PageV2.UpdateChecksum | storage/page.go:127-134 | stores the checksum of the content and nothing else |
| SlottedPage.PageV2.SetCellPointer | storage/page.go:199-202 | writes one little-endian pointer |
| SlottedPage.PageV2.AddCellPointer | storage/page.go:205-208 | appends a pointer and counts it |
| SlottedPage.PageV2.InsertRowToPage | storage/page.go:491-517 | succeeds exactly when the space check does, and then writes cell, pointer and header in 16-bit arithmetic and sets the dirty bit alone among the flags, for rows of any size whose offset and pointer lie in the page; a refused row changes nothing |
| SlottedPage.PageV2.GetRowFromPage | storage/page.go:524-556 | reads the row of a slot with all bounds errors |
| SlottedPage.PageV2.DeleteRowFromPage | storage/page.go:559-592 | clears the pointer, counts the bytes as fragmented and sets the dirty bit, or changes nothing |
| Caching.TouchKeeps | storage/pagecache.go:204-208 | touching keeps the same ids without repeats |
| Caching.TouchMoves | storage/pagecache.go:150-208 | touching a cached page puts it in front of the others, which keep their order; removing it leaves them in order |
| Caching.MakeRoomKeepsDirty | storage/pagecache.go:211-235 | eviction drops clean pages oldest first, fails exactly when a dirty one would have to go, and never drops a dirty page |
| Caching.MakeRoomStops | storage/pagecache.go:211-235 | when eviction fails, the least recent pages up to the first dirty one are gone, and that one is in front |
| Caching.PutIsSafe | storage/pagecache.go:82-114 | a successful put caches the page first, and is within capacity if and only if the page was not cached or the cache was within capacity before; a put never drops a dirty page |
| Caching.PutOrders | storage/pagecache.go:82-114 | a successful put of a new page has it in front of the pages that were most recently used, in their order, as many as fit |
| Caching.StepKeepsDirty | storage/pagecache.go:65-301 | no operation but Remove, Clear and ClearDirty of that page, or a flush that wrote it, loses a cached dirty page |
| Caching.DirtyPagesSurvive | storage/pagecache.go:65-301 | the same over every run of cache operations, flushes included |
| Caching.StepKeepsSize | storage/pagecache.go:65-301 | from within capacity one operation leaves the cache within capacity if and only if it is not a Resize that fails, for a dirty page it would have to evict or a negative capacity |
| Caching.RunKeepsSize | storage/pagecache.go:65-301 | a cache that is within capacity stays so after every step of a run if and only if no Resize of the run fails |
| Caching.PutAboveCapacity | storage/pagecache.go:82-114 | a run of five operations with a failing Resize, after which a put succeeds with three pages cached and capacity one |
| Caching.PageCache.constructor | storage/pagecache.go:53-61 | an empty cache of the given capacity |
| Caching.PageCache.TouchPage | storage/pagecache.go:204-208 | moves a cached page to the front |
| Caching.PageCache.Get | storage/pagecache.go:65-78 | returns the cached page or nil, touches it, and counts a hit or a miss |
| Caching.PageCache.EvictLRU | storage/pagecache.go:211-235 | removes the least recently used page if it is clean, else moves it to the front and fails |
| Caching.PageCache.EvictDownTo | storage/pagecache.go:100-105 | the eviction loop is the reference eviction |
| Caching.PageCache.Put | storage/pagecache.go:82-114 | page map, LRU map and list stay in step; other pages are the ones cached before |
| Caching.PageCache.MarkDirty | storage/pagecache.go:117-121 | adds one dirty mark |
| Caching.PageCache.ClearDirty | storage/pagecache.go:131-135 | removes one dirty mark |
| Caching.PageCache.Remove | storage/pagecache.go:150-161 | forgets one page everywhere, its dirty mark included |
| Caching.PageCache.Clear | storage/pagecache.go:164-172 | forgets everything |
| Caching.PageCache.Resize | storage/pagecache.go:287-301 | on success at most the new capacity is cached |
| Caching.PageCache.Flush | storage/pagecache.go:238-261 | hands each cached dirty page to the writer once; it succeeds exactly if no write fails, and then nothing is dirty; it is a flush step of the runs |
| Caching.PageCache.FlushPage | storage/pagecache.go:264-284 | writes a cached dirty page and clears its mark unless the write fails; it is a flush step of the runs |
| TableLayout.HeaderRoundTrip | storage/tablefile.go:155-222 | the header page reads back if and only if the column JSON fits page 0 |
| TableLayout.HeaderFields | storage/tablefile.go:190-222 | at which offsets of page 0 each header field and the column JSON stand |
| TableLayout.HeaderRefused | storage/tablefile.go:155-187 | a page is refused exactly for a wrong size, a wrong magic or a column length that reaches past it |
| TableLayout.BytesOfPage | storage/page.go:142-185 | a full-sized page is the serialization of what it parses to |
| TableLayout.LayoutAppends | storage/tablefile.go:385-428 | a row added to the last page keeps the page chain |
| TableLayout.LayoutExtends | storage/tablefile.go:396-418 | a page appended and linked keeps the page chain, ids rising along it |
| TableLayout.FreshPageTakesRow | storage/tablefile.go:376-402 | a row within the size limit always fits an empty page |
| TableLayout.ReadBackIsNormal | storage/tablefile.go:735-752 | a scan gives every row in normal form if and only if every stored row is faithful |
| TableFiles.TableFile.constructor | storage/tablefile.go:84-129 | a new file holds its header page, version 1 with page size 16384, and no rows |
| TableFiles.TableFile.Open | storage/tablefile.go:53-81 | opening an image gives the rows it represents |
| TableFiles.TableFile.ReadPage | storage/tablefile.go:286-313 | returns the page stored in the file, from the cache or not, and keeps the cache coherent |
| TableFiles.TableFile.WritePageToFile | storage/tablefile.go:359-363 | updates the checksum and writes the page at its id |
| TableFiles.TableFile.WritePage | storage/tablefile.go:316-356 | afterwards every cached page equals the page in the file, even when the cache evicts or refuses |
| TableFiles.TableFile.AllocatePage | storage/tablefile.go:232-269 | appends an empty page with the next id |
| TableFiles.TableFile.LinkPage | storage/tablefile.go:408-415 | sets the right link of the previous last page in cache and file |
| TableFiles.TableFile.AddDataPage | storage/tablefile.go:396-418 | appends a linked data page and updates first and last page |
| TableFiles.TableFile.FindPage | storage/tablefile.go:382-418 | the last page if the row fits it, else a new one |
| TableFiles.TableFile.StoreRow | storage/tablefile.go:420-432 | puts the row into the page, writes it and counts it |
| TableFiles.TableFile.InsertRow | storage/tablefile.go:367-435 | appends (next id, row) to the table exactly if the encoded row is at most 16252 bytes; a refused row changes nothing but the id counter |
| TableFiles.TableFile.Clear | storage/tablefile.go:808-833 | leaves an empty table and an empty cache, keeping columns and table id |
| TableFiles.TableFile.Flush | storage/tablefile.go:767-788 | brings the header page up to date and changes no data page and no row |
| TableFiles.TableFile.WriteHeader | storage/tablefile.go:190-222 | writes page 0 and keeps the data pages |
| TableFiles.InsertKeepsImage | storage/tablefile.go:367-435 | the image with the grown page represents the old rows and the new one |
| TableFiles.Reopen | storage/tablefile.go:53-81 | a flushed file whose column JSON fits opens to the same header and rows, for any cache capacity |
| TableFiles.RowIterator.constructor | storage/tablefile.go:623-630 | the iterator starts before the first row |
| TableFiles.RowIterator.Next | storage/tablefile.go:643-693 | advances by one row, across pages, until all rows were delivered |
| TableFiles.RowIterator.Row | storage/tablefile.go:696-702 | decodes the row the iterator stands on |
| TableFiles.GetAllRowsWithIDs | storage/tablefile.go:735-752 | returns the stored rows as they read back, in insertion order |
| TableRuns.RunAndScan | storage/tablefile.go:367-833 | after any run of inserts, clears, flushes and scans the scan returns the rows inserted since the last clear, in order, independently of the cache |
| TableRuns.Step | storage/tablefile.go:367-833 | each operation is one step on the list of rows |
| TableRuns.Rewrite | storage/storage.go:1500-1511 | clear and re-insert keeps the rows up to the first that is too large |
| TableRuns.DeleteRows | storage/storage.go:1485-1513 | deletes exactly the selected rows; no other row is lost, since what was read back fits again |
| TableRuns.DecodedColumnsFit | storage/page.go:402-487 | decoding never makes a row longer |
| StoredValues.DigitsAre | types/types.go:339-360 | the decimal digits of a number read back as the number, without leading zeros |
| StoredValues.ShownIs | types/types.go:339-360 | the text form of a value: NULL, a signed decimal number, or the text itself |
| StoredValues.StoredAsKeeps | storage/storage.go:780-806 | a stored value is the value given, unless that is shorter than its CHAR(n): then it is a text of length n that begins with the value's text and goes on with spaces; it is accepted exactly if it is not longer than CHAR(n) or VARCHAR(n) and not a forbidden null |
| StoredValues.FillDraws | storage/storage.go:814-824 | each sequence column takes the next number of its sequence, from the left, and every sequence moves by the number of columns that draw from it |
| StoredValues.InsertedRowIs | storage/storage.go:774-824 | the row an INSERT appends, told column by column from the values given and the sequences, and where these stand afterwards |
| StoredValues.LastIs | storage/storage.go:814-824 | the last insert id is the value of the last sequence column, or zero |
| StoredValues.AssignedIs | storage/update_callback.go:69-80 | after the assignments of a row the assigned columns hold what they are given and the others what they held; of a refused row some assigned columns may do so already |
| StoredValues.UpdateIs | storage/update_callback.go:66-101 | the same for all rows of an UPDATE, which fails exactly if a selected row is given a value that is not allowed |
| Store.UpdateComplaintIs | storage/update_callback.go:29-80 | the error is about the first value that is not allowed in the first row that has one: too long, or a forbidden null |
| Store.Storage.constructor | storage/storage.go:141-172 | an empty store with id counter 1 |
| Store.Storage.WriteWAL | storage/wal.go:336-376 | appends the record under the next sequence number, or does nothing without a disk |
| Store.Storage.ProcessValue | storage/update_callback.go:29-64 | accepts exactly the values that fit and pads CHAR |
| Store.Storage.ProcessInserted | storage/storage.go:780-806 | the same for INSERT, where auto-increment columns may be null |
| Store.Storage.ProcessRow | storage/storage.go:774-812 | accepts exactly the acceptable rows; otherwise the first refused column is reported |
| Store.Storage.FillRow | storage/storage.go:814-824 | fills every auto-increment column from its sequence |
| Store.Storage.InsertRow | storage/storage.go:765-886 | on the row-list path all effects of an accepted row, and none of a refused one. A row is accepted exactly if no value is too long or a forbidden null; each column that is not a sequence then holds the value given, padded to a CHAR(n); each sequence column, from the left, the next number of its sequence, and no other sequence moves; and the last insert id is that of the last sequence column. Otherwise the first bad column is reported, and whether it is too long or null |
| Store.Storage.AssignRow | storage/update_callback.go:71-80 | assigns in order up to the first refused value, which is the one it reports |
| Store.Storage.UpdateRowsWithCallback | storage/update_callback.go:13-110 | rows, log records, callback calls and count of a statement, also when it fails midway. It succeeds exactly if no selected row is given a value that is not allowed; the rows before hold what they are given in the assigned columns and else what they held, the rows after are untouched, other tables too; the error names the first bad value of the first such row |
| Store.Storage.DeleteRowsWithCallback | storage/delete_callback.go:13-72 | keeps the two lists filtered alike and logs and reports each deleted row |
| Store.Storage.DropTable | storage/storage.go:551-600 | removes the table, its rows, ids and sequences and nothing else; fails exactly for an unknown name |
| Store.Storage.CreateTable | storage/storage.go:484-548 | adds an empty table under the next id and zeroes its sequences; fails exactly for a name in use |
| Store.Storage.FindTable | storage/wal.go:474-481 | the search through the tables gives the name of the table with that id, or "" if there is none |
| Store.Storage.ReplayRecord | storage/wal.go:402-537 | one INSERT, UPDATE, DELETE or DROP TABLE record has the effect of the reference replay, which skips the table named "" |
| Store.Storage.RecoverFromWAL | storage/wal.go:402-541 | replays all records in order; the sequence number afterwards is the largest of the old one and those of the records |
| StoreState.StoredHolds | storage/storage.go:780-806 | an accepted value, once padded, satisfies its column |
| StoreState.NullInVarchar | storage/storage.go:795-806 | a nullable VARCHAR(n) accepts NULL exactly for n at least 4 or no limit |
| StoreInvariant.FillSets | storage/storage.go:814-824 | each auto-increment column gets a value above its sequence and no other column changes |
| StoreInvariant.InsertKeepsGood | storage/storage.go:765-886 | an insert keeps column constraints, id order, id bounds and row counts |
| StoreInvariant.InsertAddsOnePair | storage/storage.go:765-886 | after an insert exactly the pairs of id and row are stored that were before and, if every value is acceptable, the new one |
| StoreInvariant.UpdateKeepsGood | storage/update_callback.go:66-101 | an update, complete or aborted, keeps all of these |
| StoreInvariant.AssignIsSimultaneous | storage/update_callback.go:69-80 | the update map's order does not matter: success depends on each value alone and each column gets its own new value |
| RowUpdates.AssignedColumn | storage/update_callback.go:69-80 | after the assignments of a row, failed or not, each column assigned before the first refused value holds its new value and any other its old one |
| RowUpdates.AssignLeavesRow | storage/update_callback.go:69-80 | they leave the row as it is if and only if none before the first refused value would alter it |
| RowUpdates.AssignFails | storage/update_callback.go:69-80 | whether they fail depends on the set of assignments, not on their order |
| RowUpdates.UpdatedRowsAre | storage/update_callback.go:66-101 | an update, complete or not, assigns exactly the selected rows up to the first refusing one and reports those before it in order |
| RowUpdates.FailureLeavesRow | storage/update_callback.go:66-101 | the first refusing row is as before if and only if no value assigned to it before the refused one is new |
| RowUpdates.KeptInEveryOrder | storage/update_callback.go:66-101 | it is as before in every order of the update map if and only if no accepted value would alter it |
| RowUpdates.LosesItFirst | storage/update_callback.go:66-101 | in the order that takes such a value first it is assigned before the update fails |
| RowUpdates.UpdateLeavesRows | storage/update_callback.go:66-101 | an update leaves all rows as they are if and only if no assignment it makes, up to the refused one, alters its row |
| RowUpdates.UntouchedInEveryOrder | storage/update_callback.go:66-101 | it does in every order of the update maps if and only if no accepted value would alter a selected row up to the first refusing one |
| StoreInvariant.KeptStayIncreasing | storage/delete_callback.go:28-55 | the kept ids stay in increasing order |
| StoreInvariant.KeptAre | storage/delete_callback.go:34-55 | the kept rows are those that do not meet the condition |
| StoreInvariant.KeptPairs | storage/delete_callback.go:28-55 | rows and ids stay paired through the filter |
| StoreInvariant.DeleteKeepsGood | storage/delete_callback.go:13-72 | a delete keeps all of these |
| StoreInvariant.CreateKeepsGood | storage/storage.go:484-548 | so does creating a table |
| StoreInvariant.DropKeepsGood | storage/storage.go:551-600 | so does dropping one |
| StoreInvariant.StepKeepsGood | storage/storage.go:484-886 | every statement keeps the constraint and id invariant |
| StoreInvariant.RunKeepsGood | storage/storage.go:484-886 | so does every run, failed statements included |
| StoreInvariant.NewStoreKeepsGood | storage/storage.go:141-886 | from a new store on, every run of statements keeps all of these |
| Sequences.SharedKeys | storage/storage.go:814-820 | two tables can have a sequence of the same name if and only if one table name continues the other behind an underscore |
| Sequences.DropSparesExactly | storage/storage.go:572-577 | dropping a table loses no sequence of another, after whatever statements on a new store and whatever their columns, if and only if their names do not clash in that way |
| Sequences.DropLosesShared | storage/storage.go:551-577 | for any two tables with a sequence of the same name, three statements on a new store after which one of them has lost its sequence |
| Sequences.CreateSparesExactly | storage/storage.go:507-512 | creating a table leaves every sequence of another where it stands, after whatever statements on a new store and whatever their columns, if and only if their names do not clash |
| Sequences.CreateRepeatsValue | storage/storage.go:507-512 | for any two tables with a sequence of the same name, a row inserted before the other table is created and one inserted after it get the same value |
| Sequences.ClashingNames | storage/storage.go:814-820 | column c of table a_b and column b_c of table a are such tables |
| Sequences.FillMoves | storage/storage.go:814-824 | filling a row raises exactly the sequences of its table |
| Sequences.StepSpares | storage/storage.go:484-886 | a statement that spares clashing names moves a sequence of the table if and only if it is an accepted insert that takes a value of it |
| Sequences.RunGrowsSequences | storage/storage.go:484-886 | over a run that spares clashing names a sequence never falls, and grows if and only if an accepted insert took a value |
| Sequences.SequenceValuesIncrease | storage/storage.go:814-824 | between two accepted inserts into a table the value of a sequence column strictly increases, whatever ran in between, DROP and CREATE of tables with other than clashing names included |
| ColumnLengths.DigitsLength | types/types.go:339-357 | a number has at most n digits if and only if it is below ten to the n |
| ColumnLengths.SequenceValueFits | storage/storage.go:780-806 | a sequence value satisfies the length of its VARCHAR or CHAR column if and only if it is in the range of that length |
| ColumnLengths.InsertedSequenceFits | storage/storage.go:814-824 | a sequence column gets the value after its sequence, which fits the column if and only if it is in range |
| ColumnLengths.StepMeasured | storage/storage.go:484-886 | where every stored value keeps to the length of its column, a statement keeps this if and only if it is not an accepted INSERT that draws a sequence value out of range |
| ColumnLengths.NewStoreMeasured | storage/storage.go:141-886 | from a new store on, every stored value keeps to its length after every statement if and only if no accepted INSERT of the run draws such a value |
| Replay.ReplayedInTwo | storage/wal.go:402-541 | replaying two logs in a row is replaying their concatenation |
| Replay.InsertReplays | storage/wal.go:473-492 | replaying an insert's record copies the inserted row and its id; for the table named "" it does nothing |
| Replay.DropReplays | storage/wal.go:467-472 | replaying the record of a dropped table removes the same table, rows and ids |
| Replay.UpdatesReplay | storage/wal.go:493-516 | replaying the update records gives copies of the updated rows and leaves a failing row as it was |
| Replay.UpdateReplays | storage/wal.go:493-516 | a complete update, or one whose first refusing row is not altered before the refused value, is replayed faithfully; for the table named "" replay does nothing |
| Replay.AbortedUpdateReplays | storage/update_callback.go:66-101 | replay meets the live table after an update if and only if the first refusing row, if any, is given no new value before the refused one; for the table named "" if and only if no row is altered |
| Replay.AbortedUpdateReplaysInEveryOrder | storage/update_callback.go:66-101 | it does in every order of the update maps if and only if no accepted value would alter the first refusing row; for the table named "" also no value of a selected row before it |
| Replay.DeletionsReplay | storage/wal.go:517-535 | removing rows one by one by id removes exactly what the filter removed |
| Replay.DeleteReplays | storage/wal.go:517-535 | replaying a delete's records removes the same rows and ids; for the table named "" it does nothing |
| Replay.StepKeepsSound | storage/storage.go:551-886 | statements keep the unique ids that replay relies on |
| Replay.StepReplays | storage/wal.go:402-541 | the records of any logged statement replay to its effect on tables, row ids and rows, that on the table named "" aside |
| Replay.ReplayIsLive | storage/wal.go:402-541 | replaying the log of any run over its snapshot gives the live tables, row order and row ids, and each row either as the live row or as its image in the log, for every table but the one named ""; for that one if and only if it ended as in the snapshot or was dropped; the entries of the tables, row counts included, are those of the snapshot |
| Replay.UnnamedInsertIsLost | storage/wal.go:473-492 | an accepted and logged INSERT into the table named "" is not replayed |
| Replay.TouchesExactly | storage/storage.go:765-886 | a statement changes the rows or ids of the table named "" if and only if it is an accepted INSERT into it, an UPDATE that alters a row of it, or a DELETE that selects one |
| Replay.RecoverableExactly | storage/wal.go:402-541 | when the log carries values unchanged, replay meets the live tables after every statement of a run if and only if no statement changes the table named "" |
| Replay.CopyIsExact | storage/wal.go:547-645 | when the log carries the values unchanged the recovered rows and row ids are exactly the live ones |
| Replay.ReplayKeepsCounters | storage/wal.go:402-541 | replay changes neither the id counter nor the sequences |
| AfterRecovery.RecoveryFromAnySnapshot | storage/wal.go:402-541 | from a new store through any statements to a snapshot and from there through any logged run, replay gives the live tables, row ids and rows, for the table named "" if and only if the run kept or dropped it |
| AfterRecovery.LiveIDs | storage/storage.go:826-828 | every live row was in the snapshot or inserted since, under an id the snapshot had not given out |
| AfterRecovery.RecoveredIDsSound | storage/wal.go:402-541 | the recovered row ids lie below the recovered id counter if and only if no row inserted since the snapshot is live in a table that replay finds |
| AfterRecovery.RecoveryReusesIDs | storage/wal.go:402-541 | the first insert after recovery gets the id of the first row inserted since the snapshot, and that id is taken if and only if that row is still live in a table that replay finds |
| AfterRecovery.RecoveredRowCounts | storage/wal.go:402-541 | the recovered tables equal the live ones, row counts included, if and only if each has as many rows as in the snapshot |
| AfterRecovery.RecoveredIsGood | storage/wal.go:402-541 | the recovered state keeps the constraint and id invariant if and only if no inserted row is live and the tables have their old sizes, the table named "" aside, which is as in the snapshot |
| AfterRecovery.RecoveredSequences | storage/wal.go:402-541 | a recovered sequence stands where the live one does if and only if no accepted insert took a value of it |
| AfterRecovery.RecoveryRepeatsSequences | storage/wal.go:402-541 | the first insert after recovery repeats the sequence values of the first insert after the snapshot |
| WalLog.ReadsFrame | storage/wal.go:212-268 | a good frame in front of anything yields its record and the rest |
| WalLog.FrameFields | storage/wal.go:336-376 | sequence number, length and checksum stand at fixed offsets in front of the bytes |
| WalLog.ReadsFrames | storage/wal.go:212-268 | frames in front of anything are read one by one |
| WalLog.WrittenIsRead | storage/wal.go:212-268 | the concatenation of written frames reads back as exactly the records |
| WalLog.CorruptFrameStops | storage/wal.go:242-246 | a complete frame with a wrong checksum ends the reading with exactly the prefix, whatever follows |
| WalLog.UnreadableFrame | storage/wal.go:248-262 | a frame that cannot be decrypted ends the reading with the prefix; one that cannot be parsed is an error |
| WalLog.TornFrameFails | storage/wal.go:227-240 | a strict non-empty prefix of a frame is an error |
| WalLog.CutLog | storage/wal.go:212-268 | a cut log is readable if and only if the cut falls between frames, and then holds the records before it |
| WalLog.LogFile.constructor | storage/wal.go:314-333 | an empty log |
| WalLog.LogFile.WriteWAL | storage/wal.go:336-376 | appends one frame under the next sequence number; numbers strictly increase along the file |
| WalLog.LogFile.Truncate | storage/wal.go:271-289 | empties the log and restarts the numbering |
| WalLog.LogFile.ReadAll | storage/wal.go:212-268 | returns exactly the written records of a readable log |
| WalLog.LogFile.ReadFrom | storage/wal.go:212-268 | the reading loop is the reference reader, stops and errors included |
| Recovery.Recover | storage/wal.go:379-541 | a readable log is replayed over the snapshot; an unreadable one leaves the snapshot |
| Recovery.RecoveredFromDisk | storage/wal.go:336-541 | from the snapshot and the bytes a run logged, recovery gives the live tables, row ids and rows, for the table named "" if and only if the run kept or dropped it; a damaged frame behind them changes nothing |
| Cipher.SumBytes | storage/crypto/crypto.go:268-274 | the 32-bit sum of the password bytes |
| Cipher.SumIs | storage/crypto/crypto.go:268-274 | the running 32-bit sum is the sum of the bytes modulo 2^32 |
| Cipher.SealedMeans | storage/crypto/crypto.go:36-75 | with p the password, or xxldb if it is empty, and S its byte sum modulo 2^32: magic, S % 5 + 2 bytes of filler, and body byte i is the data byte plus p[i % len(p)] plus i + 1 plus filler byte S % (S % 5 + 2), modulo 256 |
| Cipher.OpenedMeans | storage/crypto/crypto.go:78-116 | for any bytes and password: which error is given exactly when, and otherwise the byte that has to be shifted to give each byte of the body |
| Cipher.OtherPassword | storage/crypto/crypto.go:26-116 | a second password opens what the first sealed if and only if its filler is as long and it shifts every byte of the data alike |
| Cipher.SameSumPassword | storage/crypto/crypto.go:26-116 | a second password of the same byte sum opens it if and only if the two agree, repeated, over the length of the data |
| Cipher.EncryptData | storage/crypto/crypto.go:26-75 | magic, filler and shifted bytes, computed from password and input as in `Cipher.SealedMeans`; nil and empty input pass through |
| Cipher.DecryptData | storage/crypto/crypto.go:78-116 | recovers what was sealed, with the errors for a missing magic and a short body |
| Cipher.ByteRoundTrip | storage/crypto/crypto.go:71-112 | shifting a byte and shifting it back modulo 256 |
| Cipher.OpenedSealed | storage/crypto/crypto.go:26-116 | opening what was sealed gives the data for every password and filler, the empty data included |
| Cipher.EncryptThenDecrypt | storage/crypto/crypto.go:26-116 | the one-shot pair gives back its input if and only if that is not an empty slice |
| Cipher.EncryptInPieces | storage/crypto/crypto.go:155-184 | a body may be encrypted piece by piece with a running position |
| Cipher.DecryptInPieces | storage/crypto/crypto.go:223-252 | the same for decrypting |
| Cipher.EncryptStream | storage/crypto/crypto.go:119-187 | whatever pieces the reader gives, the output is the sealed form of the whole input, byte for byte as in `Cipher.SealedMeans` |
| Cipher.DecryptStream | storage/crypto/crypto.go:190-255 | succeeds exactly where the one-shot form does, with the same bytes |
| Cipher.Reader.Read | storage/crypto/crypto.go:155-184 | a reader gives any next piece and reports the end at the end |
| Cipher.EveryPair | storage/crypto/crypto.go:26-255 | each decrypter undoes each encrypter; the two encrypters differ on empty input alone |
| IndexState.RemoveFirstMembers | fts/fts.go:1214-1221 | removing a row id from postings without repeats removes that id and no other |
| IndexState.RemovedKeepsInv | fts/fts.go:563-600 | removing a document keeps the index consistent and leaves no trace of it |
| IndexState.AddedKeepsInv | fts/fts.go:537-553 | adding a document keeps the index consistent |
| IndexState.IndexedKeepsInv | fts/fts.go:461-553 | indexing and re-indexing keep it consistent; the document gets its tokens' terms and no other document changes |
| IndexState.IndexedPositions | fts/fts.go:489-535 | after indexing, the document has a stored position for each token, with its position, level and source, if positions are kept, and no other; those of other documents stay |
| IndexState.IndexedContents | fts/fts.go:461-553 | the stored text of the document is the new one, or none if it has no tokens |
| IndexState.DeleteUndoesIndex | fts/fts.go:461-600 | deleting a newly indexed document restores postings, positions and counters |
| IndexState.RunKeepsInv | fts/fts.go:461-605 | the index is consistent after every run of indexing and deleting |
| InvertedIndex.InvertedIndex.constructor | fts/fts.go:427-444 | an empty index |
| InvertedIndex.InvertedIndex.IndexDocument | fts/fts.go:461-553 | the new index is the reference indexing of the content; the weight of a term is the largest of its tokens in multi-level mode and one otherwise; weights stay positive |
| InvertedIndex.InvertedIndex.AddDocument | fts/fts.go:467-553 | the part after the removal |
| InvertedIndex.InvertedIndex.ReadTokens | fts/fts.go:475-535 | term set, weights and positions of the tokens; in multi-level mode the largest weight of a term is kept |
| InvertedIndex.InvertedIndex.AddTerms | fts/fts.go:537-544 | adds the row to the postings of its terms |
| InvertedIndex.InvertedIndex.RemoveDocument | fts/fts.go:563-600 | the new index is the reference removal |
| InvertedIndex.InvertedIndex.RemoveTerms | fts/fts.go:569-591 | clears postings and positions of the document's terms |
| InvertedIndex.InvertedIndex.DeleteDocument | fts/fts.go:556-561 | the same removal |
| InvertedIndex.InvertedIndex.Candidates | fts/fts.go:640-669 | intersecting postings gives exactly the documents that contain all terms |
| InvertedIndex.InvertedIndex.CalculateScore | fts/fts.go:879-931 | the score loop is the sum over matching terms |
| InvertedIndex.InvertedIndex.Rank | fts/fts.go:671-684 | every candidate once, with its own score, by falling score |
| InvertedIndex.InvertedIndex.QueryTermsAre | fts/fts.go:615-638 | in single-level mode the terms searched are exactly the words of the query; in multi-level mode term i is that of level token i of the query, read without synonyms |
| InvertedIndex.InvertedIndex.DocumentWords | fts/fts.go:475-535 | in single-level mode a text is indexed under its words, token i at position i, level 1 and weight one; in multi-level mode under the level tokens of the text |
| InvertedIndex.InvertedIndex.SelectedIsMatching | fts/fts.go:640-669 | the documents that have every word of the query, if it has one, are those that contain all query terms |
| InvertedIndex.InvertedIndex.ReadQuery | fts/fts.go:615-638 | query terms and, in multi-level mode, the largest weight of each |
| InvertedIndex.LargestWeightsAre | fts/fts.go:620-631 | the weight of a query term is one of its tokens and no token of the term weighs more |
| InvertedIndex.InvertedIndex.Search | fts/fts.go:608-697 | before paging exactly the documents that have every word of the query, if it has one, once, each with the score computed from its terms and the query weights, by falling score; the result is the requested page of them, with positive scores when the weights are positive |
| InvertedIndex.InvertedIndex.Paged | fts/fts.go:686-696 | the page is the results from the offset on, as many as the limit allows |
| InvertedIndex.InvertedIndex.LevelCandidates | fts/fts.go:801-850 | exactly the rows that have every term at the level, all of which contain all terms |
| InvertedIndex.InvertedIndex.LevelTermsAre | fts/fts.go:781-795 | the terms of a level search are the words of the query at that level |
| InvertedIndex.InvertedIndex.SelectedAtIs | fts/fts.go:801-850 | a document is selected at a level if and only if every word of the query at that level, and there is one, has a stored position at that level in it, or, if no positions of the word are kept, is in the document |
| InvertedIndex.InvertedIndex.ScoringIs | fts/fts.go:700-876 | level 0 scores the query terms with the largest weights of the query tokens, another level the terms of the level with the stored weights |
| InvertedIndex.InvertedIndex.SearchWithLevel | fts/fts.go:700-876 | level 0 gives what Search gives; another level exactly the rows with every term at that level, scored with the stored term weights; both by falling and, for positive weights, positive score |
| SearchSpec.ScoreIs | fts/fts.go:879-931 | each query term that the document has adds one over the number of its terms, times documents over documents with the term, times stored weight, times query weight; missing weights count as one, and so does a stored weight of zero |
| SearchSpec.ScorePositive | fts/fts.go:879-931 | a document with all query terms scores above zero when all weights are positive |
| SearchSpec.PageScoresPositive | fts/fts.go:671-696 | every score on a page of documents that have all query terms is above zero when all weights are positive |
| SearchSpec.SortByScore | fts/fts.go:681-684 | a permutation by falling score |
| SearchSpec.MatchingStep | fts/fts.go:640-669 | one more posting list narrows the result to the documents that also have that term |
| SearchSpec.PageOf | fts/fts.go:686-696 | which results a page holds: those from the offset on, as many as the limit allows |
| TextAgreement.InsertAgrees | executor/executor_dml.go:34-46 | indexing a new row keeps every row indexed with its own text |
| TextAgreement.UpdatedDocs | executor/executor_dml.go:179-190 | after an update changed rows were re-indexed and no other document moved |
| TextAgreement.UpdateAgrees | executor/executor_dml.go:141-202 | an update keeps the agreement if and only if no row before the first refusing one has its indexed text emptied, and the first refusing row is not given another text before the refused value |
| TextAgreement.HarmlessInEveryOrder | executor/executor_dml.go:141-202 | this holds in every order of the update maps if and only if no indexed text is emptied and no accepted value is another text of the first refusing row |
| TextAgreement.DeleteAgrees | executor/executor_dml.go:205-246 | a delete always keeps the agreement |
| TextAgreement.StepAgrees | executor/executor_dml.go:19-246 | one statement keeps the agreement if and only if it is harmless in that sense |
| TextAgreement.RunAgrees | executor/executor_dml.go:19-246 | so does every run of harmless statements in which the indexed table is not dropped |
| TextAgreement.ClearedTextStaysIndexed | executor/executor_dml.go:179-190 | clearing the text of an indexed row breaks the agreement if and only if its column does not pad the empty text |
| TextTable.TextTable.IndexExistingRows | executor/executor_dml.go:600-644 | indexing the rows of a table establishes the agreement |
| TextTable.TextTable.IndexRow | executor/executor_dml.go:34-46 | the callback sets the document of one row |
| TextTable.TextTable.RemoveRow | executor/executor_dml.go:226-234 | the delete callback removes the document of one row |
| TextTable.TextTable.ExecuteInsert | executor/executor_dml.go:75-100 | rows before a refused one stay, and the agreement is kept |
| TextTable.TextTable.ExecuteUpdate | executor/executor_dml.go:141-202 | the table is updated and the agreement kept exactly for harmless updates |
| TextTable.TextTable.ExecuteDelete | executor/executor_dml.go:205-246 | the table is filtered and the agreement kept |
| TextTable.RowFound | executor/executor.go:1558-1609 | in agreement, a row's id is found exactly when its words, split by the tokenizer, include every word of the query |
| TextTable.FoundAreAnswering | executor/executor.go:1558-1609 | in agreement as many ids are found as rows of the table answer the query |
| TextTable.PageHoldsAll | executor/executor.go:1583-1604 | the first page of 1000 holds every match if and only if at most 1000 rows match |
| TextTable.TextTable.EvalMatch | executor/executor.go:1558-1609 | MATCH never accepts a row outside the documents that have every word of the query, and accepts each of them while at most 1000 match |
| TextTable.TextTable.SelectMatch | executor/executor.go:938-946 | while the index agrees with the table, SELECT with MATCH returns rows whose words include every query word only, in table order, and all of them if at most 1000 rows of the table answer |
| TextTable.TextTable.Execute | executor/executor_dml.go:19-246 | one INSERT, UPDATE or DELETE is its step on the store and keeps the agreement if it is harmless |
| TextTable.TextTable.RunAndSelect | executor/executor_dml.go:19-246 | after any statements on the table, none of them harmful, a SELECT with MATCH returns rows of the final table whose words include every query word only, in table order, and all of them if at most 1000 answer |
| Highlight.HitsAreOccurrences | fts/fts.go:1016-1026 | every hit is an occurrence of the word |
| Highlight.OccurrencesMeetHits | fts/fts.go:1016-1026 | every occurrence starts in a hit |
| Highlight.HitsInOrder | fts/fts.go:1016-1026 | the hits come from left to right and do not overlap |
| Highlight.ScanAdvancesExactly | fts/fts.go:1016-1026 | the search position moves on or the search ends from everywhere if and only if the word is not empty or its folded form does not occur |
| Highlight.HitsFitExactly | fts/fts.go:1013-1064 | the ranges found in the folded text fit the text, whatever the word, if and only if folding does not make it longer |
| Highlight.FoldedTextGrows | fts/fts.go:1013-1064 | a text of three bytes whose folded form has four, with a range beyond its end |
| Highlight.KeepingLengths | fts/fts.go:1013-1026 | words that are not empty and keep their length and a text that does not grow are enough for the code to end normally |
| Highlight.Scan | fts/fts.go:1016-1026 | the search loop ends with exactly the hits, whatever the length of word and folded word, as long as it does not slice behind the end |
| Highlight.CollectWord | fts/fts.go:1007-1027 | one word's ranges cover its hits if the row has a position of the word; there are none otherwise |
| Highlight.Collect | fts/fts.go:995-1028 | the ranges cover exactly the hits of the query words |
| Highlight.SortByStart | fts/fts.go:1034-1037 | a permutation sorted by start |
| Highlight.Merge | fts/fts.go:1039-1053 | the merged ranges are sorted, do not touch, and cover exactly what the ranges covered |
| Highlight.Build | fts/fts.go:1055-1067 | the output is the content cut at the ranges, with prefix and suffix around them |
| Highlight.RenderMeans | fts/fts.go:1055-1067 | a marked piece stands between prefix and suffix, another as it is |
| Highlight.ErasedIsContent | fts/fts.go:1055-1067 | erasing prefixes and suffixes gives the content back |
| Highlight.FlagsAreCover | fts/fts.go:1039-1067 | a character is marked exactly when a range covers it |
| Highlight.Highlight | fts/fts.go:969-1068 | the output is the content with marks around exactly the characters that lie in hits of query words the row has a position for |
| ExprGrammar.POr | parser/parser.go:523-539 | from lexer output only trees the parser may build, and the rest is shorter |
| ExprGrammar.PAnd | parser/parser.go:542-558 | the same for AND |
| ExprGrammar.PNot | parser/parser.go:561-571 | the same for NOT |
| ExprGrammar.PComparison | parser/parser.go:574-618 | the same for comparisons, IS, IN, BETWEEN and LIKE |
| ExprGrammar.PIn | parser/parser.go:621-657 | the same for IN lists |
| ExprGrammar.PBetween | parser/parser.go:660-676 | the same for BETWEEN |
| ExprGrammar.PAdditive | parser/parser.go:679-704 | the same for additive operators |
| ExprGrammar.PMultiplicative | parser/parser.go:707-723 | the same for multiplicative operators |
| ExprGrammar.PUnary | parser/parser.go:726-736 | the same for signs |
| ExprGrammar.PPrimary | parser/parser.go:739-782 | the same for literals, names, parentheses and CASE |
| ExprGrammar.PCall | parser/parser.go:892-931 | the same for calls |
| ExprGrammar.PCase | parser/parser.go:976-1025 | the same for CASE |
| ExprParser.Parser.ParseExpression | parser/parser.go:518-520 | the parser object does what the grammar says and stops where it stops |
| ExprParser.Parser.ParseOrExpr | parser/parser.go:523-539 | the OR loop against the grammar |
| ExprParser.Parser.ParseAndExpr | parser/parser.go:542-558 | the AND loop against the grammar |
| ExprParser.Parser.ParseNotExpr | parser/parser.go:561-571 | NOT against the grammar |
| ExprParser.Parser.ParseComparisonExpr | parser/parser.go:574-618 | comparisons against the grammar |
| ExprParser.Parser.ParseInExpr | parser/parser.go:621-657 | IN lists against the grammar |
| ExprParser.Parser.ParseBetweenExpr | parser/parser.go:660-676 | BETWEEN against the grammar |
| ExprParser.Parser.ParseAdditiveExpr | parser/parser.go:679-704 | the additive loop against the grammar |
| ExprParser.Parser.ParseMultiplicativeExpr | parser/parser.go:707-723 | the multiplicative loop against the grammar |
| ExprParser.Parser.ParseUnaryExpr | parser/parser.go:726-736 | signs against the grammar |
| ExprParser.Parser.ParsePrimaryExpr | parser/parser.go:739-782 | primaries against the grammar |
| ExprParser.Parser.ParseIdentOrFunction | parser/parser.go:889-945 | names and calls against the grammar |
| ExprParser.Parser.ParseArguments | parser/parser.go:901-924 | the argument loop against the grammar |
| ExprParser.Parser.ParseParenExpr | parser/parser.go:948-973 | parentheses against the grammar |
| ExprParser.Parser.ParseCaseExpr | parser/parser.go:976-1025 | CASE against the grammar |
| ExprLanguage.OrSound | parser/parser.go:518-1025 | whatever the parser reads, the tokens it took spell the tree it returns |
| ExprLanguage.OrRead | parser/parser.go:518-1025 | tokens that spell a tree and are followed by nothing that continues an expression are read as that tree, and no further |
| ExprLanguage.ParserAcceptsTheLanguage | parser/parser.go:518-1025 | the parser returns a tree for a whole token sequence if and only if the tokens spell that tree: precedences, associativity, redundant parentheses, keywords as names and the special places of NOT, WHEN, DISTINCT and the star included |
| ExprLanguage.LanguageIsUnambiguous | parser/parser.go:518-1025 | no tokens spell two trees |
| ExprNames.KeywordSpelling | parser/lexer.go:258-275 | the text of the keyword token for a word is the word, whichever it is |
| ExprNames.KeywordIsName | parser/parser.go:739-782 | at the start of an operand a keyword is read like a name with the same spelling, unless it is NULL, TRUE, FALSE, CASE, EXISTS or MATCH |
| ExprNames.KeywordIsColumn | parser/parser.go:933-941 | behind a dot every keyword is read as the column of that name |
| ExprNames.NameCalled | parser/parser.go:889-931 | a call gets the name in upper case |
| ExprNames.KeywordsParseAsNames | parser/parser.go:518-1025 | two token sequences that differ only in whether names are name tokens or keyword tokens of the same spelling parse to the same tree, and stop at the same token |
| ExprRoundTrip.ParserInvertsPrinter | parser/parser.go:518-1025 | parsing the printed tokens of a well-formed tree followed by any non-continuing rest gives back the tree and stops at the rest |
| ExprRoundTrip.RoundTripExactlyWhenWellFormed | parser/parser.go:518-1025 | a tree survives printing and parsing if and only if it is well-formed |
| ExprRoundTrip.ParserImage | parser/parser.go:518-1025 | the trees the parser can return from lexer output are exactly the well-formed ones |
| ExprRoundTrip.PrintedFormsAreUnambiguous | parser/parser.go:518-1025 | two well-formed trees with the same printed tokens, also in front of more tokens, are the same |
| ExprRoundTrip.MultiplicationIsNotParsed | parser/lexer.go:194-202 | the parser stops before the star of 2 * 3 |
| Like.MatchLikeRunes | executor/executor.go:1465-1489 | the loops and the recursion compute the reference matcher, and terminate by pattern left, then string left |
| Like.MatchLike | executor/executor.go:1455-1462 | never accepts wrongly, is exact on strings without '%', and for every string and pattern accepts exactly the eager cuts of `Like.AcceptsEagerly` |
| Like.AcceptedMatches | executor/executor.go:1465-1489 | whatever is accepted can be cut into one piece per pattern character |
| Like.AcceptsEagerly | executor/executor.go:1465-1489 | a string is accepted if and only if it can be cut into one piece per pattern character in which a '%' of the pattern takes just the '%' of the string when it stands before one |
| Like.MatchIsAccepted | executor/executor.go:1465-1489 | on a string without '%' every such match is accepted |
| Like.MissedMatch | executor/executor.go:1465-1478 | for every string with a '%' a pattern whose match is missed |
| Like.CorrectExactlyWithoutPercent | executor/executor.go:1465-1489 | a string is matched correctly by every pattern if and only if it contains no '%' |
| ValueOrder.CompareMeans | types/types.go:590-635 | null comes first and equals null; two numbers compare by value, with the infinities at the ends and NaN equal to all; else two times by time; else the text forms by the first character that differs, or a prefix first |
| ValueOrder.CompareAntisymmetric | types/types.go:590-635 | comparing the other way round gives the opposite sign |
| ValueOrder.CompareTransitive | types/types.go:590-635 | values of one kind, nulls aside, compare transitively |
| ValueOrder.MixedKindsCycle | types/types.go:590-635 | mixed kinds can go round in a circle |
| ValueOrder.NaNIsEqualToAll | types/types.go:604-613 | NaN compares equal to every number |
| ValueOrder.ShouldSwap | executor/executor.go:1074-1099 | the first clause that tells two rows apart decides |
| ValueOrder.KeyIs | executor/executor.go:1074-1090 | the sort key of a row: the value of the expression or of the named column; the first column for an unknown name |
| ValueOrder.SwapMeans | executor/executor.go:1074-1099 | two rows are to be swapped if and only if the first clause whose keys differ finds the first row's key greater, or smaller under DESC |
| ValueOrder.RowCompareAntisymmetric | executor/executor.go:1074-1099 | the swap test is asymmetric |
| ValueOrder.AlikeIsTransitive | executor/executor.go:1074-1099 | with each sort key of one kind the row comparison is transitive |
| OrderBy.SortRows | executor/executor.go:1051-1071 | the in-place loops compute the reference insertion sort |
| OrderBy.MoveLeft | executor/executor.go:1060-1068 | the inner loop inserts one row and leaves the rows behind it |
| OrderBy.SortedIsPermutation | executor/executor.go:1051-1071 | the result is a permutation |
| OrderBy.SortedNeighbours | executor/executor.go:1051-1071 | no two neighbours of the result should be swapped, for any comparison |
| OrderBy.SortsExactlyWhenTransitive | executor/executor.go:1051-1071 | all rows of a pool sort into order if and only if the comparison is transitive on it |
| OrderBy.SortedAndStable | executor/executor.go:1051-1071 | with each sort key of one kind the result is in order and ties keep their places |
| OrderBy.SortedByClauses | executor/executor.go:1051-1099 | with each sort key of one kind, of any two rows of the result that agree on the clauses before, the earlier one's key compares not greater, or not smaller under DESC |
| OrderBy.NeighboursByClauses | executor/executor.go:1051-1099 | the same for neighbours, for any rows |
| OrderBy.SortedNumbers | executor/executor.go:1051-1099 | rows sorted by a column of numbers have them in rising order, and under DESC in falling order |

## Left out

- One cache shared by several tables: the code keys it by page id only, so pages of different tables collide; each table file of the model has its own cache.
- `TableFile.GetRow`, `UpdateRow`, `DeleteRow`, the free-page list, overflow and B-tree pages: not reached from SQL; the scan's skipping of deleted cells is therefore not exercised.
- UPDATE and DELETE statements on page-based tables: the callback forms find no row list there and report zero rows; only the page-based `DeleteRows` is modelled.
- `UpdateRows`, `UpdateRowsWithFunc`, `RenameTable`, `TruncateTable`: easier relatives of the modelled statements; replay ignores the records of the last two.
- Exhaustion of 64-bit row ids, log numbers and row counts and of 32-bit page numbers: methods require room for one more.
- Columns of 4 GiB and more, whose 32-bit length wraps, and float NaN or infinities in the row codec: payloads are bounded by their type.
- `RowCodec.EncodeRow`: a float is a real number, and the conversion of values outside the unsigned 64-bit range follows amd64.
- Failing reads and writes of files, fsync, temporary files and directories, and the metadata file; only the cache's flush callback and the log reader have failure cases.
- `Caching.PageCache.Flush`: the writer callback is represented by the set of pages whose write fails and the list of pages written.
- `readLastLSN` and the timestamp and transaction fields of log records.
- External blob storage on INSERT and the conversion of values through JSON, which `Replay` takes as a parameter.
- Replay over metadata saved after the records were written, which repeats inserts.
- `Store.Storage.CreateTable`: the page-file branch of a database on disk is modelled by `TableFiles` instead.
- `Store.Storage.ReplayRecord`: CREATE TABLE records are not modelled; they are written for page-file tables only.
- `Replay.InsertReplays`: row counts are not compared, because replay leaves those of the snapshot (`Replay.ReplayIsLive`); `AfterRecovery.RecoveredRowCounts` says when they are right all the same.
- `Replay.DeleteReplays`: the same.
- `Replay.StepReplays`: the same.
- `Replay.CopyIsExact`: the same.
- `AfterRecovery.RecoveryFromAnySnapshot`: the same.
- `Recovery.RecoveredFromDisk`: the same.
- `Store.Storage.InsertRow`: a row too short for an auto-increment column makes the code panic, so the column must lie inside the row.
- `InvertedIndex.InvertedIndex.Search`: scores are real numbers, and a negative offset, on which the code panics, is excluded.
- `TextTable.TextTable.ExecuteInsert`: evaluation of the VALUES expressions and INSERT ... SELECT; the rows are given.
- Several text indexes on one table, index names that differ in case, MATCH restricted to a level, DROP TABLE with an index left behind, saving an index to disk.
- The segmenter, synonym expansion and term splitting: tokenisation is an arbitrary function.
- `Highlight.Highlight`: texts and words on which the code loops forever or slices out of range are excluded (`Highlight.ScanAdvancesExactly`, `Highlight.HitsFitExactly`). When the folded text is shorter, the marks stand at the positions of the folded text, as in the code.
- `Highlight.Collect`: the same.
- `RowCodec.EstimateIsExact`: a text column holding a byte slice, which is stored in its printed form but estimated by its length, is not represented.
- `SlottedPage.PageV2.InsertRowToPage`: a row of 65534 bytes or more whose wrapped offset or pointer lies outside the page makes the code panic and is excluded.
- `ExprGrammar.PIn`: a subquery after the parenthesis is an error in the model.
- `ExprGrammar.PPrimary`: EXISTS, MATCH and parenthesised subqueries are errors in the model.
- `ExprParser.Parser.ParseInExpr`: a subquery after the parenthesis is an error in the model.
- `ExprParser.Parser.ParsePrimaryExpr`: EXISTS and MATCH are errors in the model.
- `ExprParser.Parser.ParseParenExpr`: a parenthesised subquery is an error in the model.
- Subqueries, EXISTS and MATCH ... AGAINST inside expressions, on which the modelled parser stops with an error; number literals carry the result of their conversion; upper-casing is ASCII only.
- `ExprRoundTrip.ParserInvertsPrinter`: holds for the expression grammar without multiplication, which the parser does not accept.
- Statements other than expressions in the parser; evaluation of expressions other than LIKE and MATCH; LIMIT, GROUP BY, DISTINCT, UNION and JOIN.
- The unused regular expression that LIKE also builds.
- Locks and goroutines: every statement runs under the engine lock.
- Network servers, authentication, importers, the command line, remote file systems, image, file and date functions.
