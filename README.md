# mdb, modelled in Dafny

mdb is a small embedded relational database written in Java. A client
sends SQL text to a server; each connection's executor parses the
statement and runs it through a stack of managers, each built on the one
below:

- the **transaction manager** (TM) keeps one status byte per transaction
  id (xid) in an xid file behind an 8-byte counter;
- the **data manager** (DM) stores records (`[valid][size][data]` data
  items) in 8 KiB pages: page 1 carries a clean-shutdown stamp, the other
  pages a free-offset header and packed records. Pages go through a
  reference-counted cache, free space is indexed in 41 buckets, and every
  insert and update is first written to a checksummed log, which recovery
  replays (redo of finished transactions, then undo of unfinished ones);
- the **version manager** (VM) adds multi-version concurrency control:
  each entry carries the xid that created it (`xmin`) and the one that
  deleted it (`xmax`); visibility rules for read committed and repeatable
  read decide what a transaction sees, and a lock table with deadlock
  detection orders concurrent deletes;
- the **index manager** (IM) is a B+ tree of fixed-size nodes kept as
  records, with a boot record pointing at the root;
- the **table manager** (TBM) keeps table and field descriptors as a
  linked list of records, turns `where` clauses into key ranges on
  indexed columns, and runs insert, read, update and delete;
- the **parser** turns a token stream into statement values, the
  **executor** keeps each connection's open transaction, and the
  **encoder** frames replies with a flag byte.

The model follows the Java classes one by one. Classes whose fields the
engine updates in place (the cache, the xid file, pages, the page index,
the log file, data items, entries, the lock table, the version manager,
the B+ tree, tables, the table manager, the tokenizer and the executor)
are Dafny classes with `modifies` clauses; their methods are proved
against functions on values (byte images, maps, token sequences), and the
properties the engine relies on are lemmas about those functions. Files
are byte sequences; every exception the engine throws is an `Err` value
of one `Result` type. `Panic.panic`, which stops the engine, is the error
it is given when that is one of the engine's `Error` constants (the
data manager's `DataTooLarge` and `DatabaseBusy`, `MemTooSmall`,
`BadLogFile`, `BadXidFile`), and the `Panic` error when it passes on an
exception it caught. Java's
`short`, `int` and `long` are bounded integers, with wrap-around written
out where the code depends on it (the log checksum, `v + 1` in key
ranges, the `(short)` size cast).

Where the engine's code and the behaviour its comments or callers intend
differ, the model keeps both: a member that follows the code as written,
with a lemma naming an input that shows the difference, and a corrected
member, proved to have the intended property, which the rest of the
model uses (see "## Findings"). Every member that runs such a corrected
definition where the engine runs its code as written is named under
"## Left out", with the lemma that states where the two part.

## Model

| member | source | states |
|---|---|---|
| `ArrayUtil.Flatten` | src/main/java/com/mxp/mdb/backend/utils/ArrayUtil.java:11-24 | the concatenation has the summed length of the parts; no parts give nothing, one part gives that part |
| `ArrayUtil.FlattenAt` | src/main/java/com/mxp/mdb/backend/utils/ArrayUtil.java:18-22 | byte `j` of part `i` lands at the sum of the lengths before part `i` plus `j` |
| `ArrayUtil.FlattenSplit` | src/main/java/com/mxp/mdb/backend/utils/ArrayUtil.java:11-24 | concatenating is associative over any split of the parts |
| `ArrayUtil.Concat` | src/main/java/com/mxp/mdb/backend/utils/ArrayUtil.java:11-24 | the two loops (sum the lengths, copy each part at the running position) fill a fresh array with exactly the concatenation |
| `ArrayUtil.CopyInto` | src/main/java/com/mxp/mdb/backend/utils/ArrayUtil.java:20 | copying a part to `pos` writes it there and leaves what lies before `pos` alone |
| `ArrayUtil.ToArray` | src/main/java/com/mxp/mdb/backend/utils/ArrayUtil.java:26-32 | the fresh array has the list's size and its elements in order |
| `Encoder.MessageOf` | src/main/java/com/mxp/mdb/transport/Encoder.java:23-27 | an error without a message is sent as the fixed default text, otherwise as its own message |
| `Encoder.Encode` | src/main/java/com/mxp/mdb/transport/Encoder.java:20-33 | an error wins over data and is sent behind flag 1, data behind flag 0, each with the exact length; a package with neither fails with a null dereference |
| `Encoder.Decode` | src/main/java/com/mxp/mdb/transport/Encoder.java:35-45 | an empty frame or a flag other than 0/1 is rejected (both directions); flag 0 gives the rest as data, flag 1 the rest as the error's message |
| `Encoder.DataRoundTrip` | src/main/java/com/mxp/mdb/transport/Encoder.java:20-45 | data sent without an error decodes to the same package |
| `Encoder.ErrorRoundTrip` | src/main/java/com/mxp/mdb/transport/Encoder.java:20-45 | an error decodes to an error without data carrying the text sent for it, whatever data travelled beside it |
| `Encoder.FrameRoundTrip` | src/main/java/com/mxp/mdb/transport/Encoder.java:20-45 | every frame decode accepts is re-encoded to exactly the same bytes, an error's text being kept as its bytes (see "## Left out") |
| `AbstractCache.Cache.constructor` | src/main/java/com/mxp/mdb/backend/common/AbstractCache.java:38-45 | a new cache is empty, holds no references, counts nothing and keeps its capacity |
| `AbstractCache.Cache.Reserve` | src/main/java/com/mxp/mdb/backend/common/AbstractCache.java:52-81 | a hit returns the cached value and takes one more reference; a miss on a full cache (capacity > 0 and count = capacity) fails leaving everything alone; any other miss counts the key and marks it as being loaded |
| `AbstractCache.Cache.CancelLoad` | src/main/java/com/mxp/mdb/backend/common/AbstractCache.java:86-95 | a failed load gives its count back and caches nothing |
| `AbstractCache.Cache.Install` | src/main/java/com/mxp/mdb/backend/common/AbstractCache.java:97-105 | a successful load is cached with exactly one reference and the count kept |
| `AbstractCache.Cache.Get` | src/main/java/com/mxp/mdb/backend/common/AbstractCache.java:52-106 | hit, full cache and miss as three cases: the value returned, the reference and count changes, and a loader failure passed on with nothing cached and the count restored |
| `AbstractCache.Cache.Release` | src/main/java/com/mxp/mdb/backend/common/AbstractCache.java:112-127 | dropping the last reference evicts the key, hands its value to the evict hook and decrements the count; otherwise one reference is dropped and nothing else changes |
| `AbstractCache.Cache.Close` | src/main/java/com/mxp/mdb/backend/common/AbstractCache.java:132-145 | every cached value goes to the evict hook in iteration order, the cache and reference maps end empty, and the count is left as it was |
| `Transactions.NewTransaction` | src/main/java/com/mxp/mdb/backend/vm/Transaction.java:27-36 | the transaction keeps its xid and level, carries no error, and has a snapshot exactly when its level is not 0 and an active map is given, that snapshot being the map's key set |
| `Transactions.IsInSnapshot` | src/main/java/com/mxp/mdb/backend/vm/Transaction.java:38-43 | the super xid is never in a snapshot; any other xid is in it exactly when the snapshot contains it |
| `Transactions.SnapshotOfActive` | src/main/java/com/mxp/mdb/backend/vm/Transaction.java:27-43 | a transaction begun above level 0 over active xids sees exactly the non-super ones among them as in its snapshot |
| `Visibility.ReadCommitted` | src/main/java/com/mxp/mdb/backend/vm/Visibility.java:95-115 | own undeleted versions are seen; a version deleted by the reader is not; an uncommitted creator's version is seen only when it is the reader's own and undeleted; a committed creator's version is seen when undeleted, or deleted by another xid exactly when that deleter has not committed |
| `Visibility.RepeatableReadAsWritten` | src/main/java/com/mxp/mdb/backend/vm/Visibility.java:63-79 | the rule as written: own undeleted versions are seen, and nothing by an uncommitted or later creator |
| `Visibility.RepeatableRead` | src/main/java/com/mxp/mdb/backend/vm/Visibility.java:43-79 | the documented rule: own undeleted versions are seen; nothing the reader deleted; nothing whose creator is uncommitted, later, or in the reader's snapshot |
| `Visibility.IsVisible` | src/main/java/com/mxp/mdb/backend/vm/Visibility.java:36-41 | level 0 reads committed; every other level reads by the documented repeatable-read rule `RepeatableRead`, not the rule as written (see "## Left out") |
| `Visibility.RepeatableReadStable` | src/main/java/com/mxp/mdb/backend/vm/Visibility.java:43-79 | repeatable read is repeatable: commits of xids the reader cannot see (later ones, ones in its snapshot) change no answer |
| `Visibility.RepeatableReadAsWrittenNotStable` | src/main/java/com/mxp/mdb/backend/vm/Visibility.java:69 | the creator test made on the reader's own xid lets a creator that was active at the reader's start become visible once it commits |
| `Visibility.VersionSkipAsWritten` | src/main/java/com/mxp/mdb/backend/vm/Visibility.java:21-27 | the skip test as written: never at level 0, and only for a committed deleter |
| `Visibility.IsVersionSkip` | src/main/java/com/mxp/mdb/backend/vm/Visibility.java:14-27 | the intended test: never at level 0; above it, a skip exactly when the deleter committed and is later than the reader or in its snapshot (the source tests the reader instead, see "## Left out") |
| `Visibility.VisibleCommittedDeleteIsSkip` | src/main/java/com/mxp/mdb/backend/vm/Visibility.java:14-79 | above level 0, a version the reader sees that another transaction deleted and committed is always a version skip |
| `Visibility.OwnXidNotInSnapshot` | src/main/java/com/mxp/mdb/backend/vm/Transaction.java:27-43 | a transaction begun over the registered xids, itself not among them, is never in its own snapshot |
| `Visibility.RepeatableReadAgrees` | src/main/java/com/mxp/mdb/backend/vm/Visibility.java:43-79 | for a reader not in its own snapshot, the documented rule sees a version exactly when the rule as written does and the creator is not in the snapshot |
| `Visibility.VersionSkipAgrees` | src/main/java/com/mxp/mdb/backend/vm/Visibility.java:14-27 | for a reader not in its own snapshot, the intended skip test holds exactly when the test as written does or the committed deleter is in the snapshot |
| `Visibility.VersionSkipAsWrittenMisses` | src/main/java/com/mxp/mdb/backend/vm/Visibility.java:26 | the snapshot test on the reader's own xid misses a deleter that was active at the reader's start and has since committed |
| `TransactionManager.XidPositionSlot` | src/main/java/com/mxp/mdb/backend/tm/MDBTransactionManager.java:198-200 | an issued xid's status byte is at 8 + (xid - 1), past the 8-byte counter header |
| `TransactionManager.CheckXidCounter` | src/main/java/com/mxp/mdb/backend/tm/MDBTransactionManager.java:168-191 | a file is accepted exactly when it holds the header and its length is where the slot after the last counted xid starts; the counter read is then the number of slots; anything else is a bad xid file |
| `TransactionManager.CounterEnd` | src/main/java/com/mxp/mdb/backend/tm/MDBTransactionManager.java:187-188 | the position of xid counter + 1 equals the file length exactly when the length is header + counter |
| `TransactionManager.CreatedFileOpens` | src/main/java/com/mxp/mdb/backend/tm/MDBTransactionManager.java:225-241 | writing eight zero bytes over a missing or short file gives a file that opens with counter 0; over a longer leftover file the open check refuses it |
| `TransactionManager.ExactlyOneStatus` | src/main/java/com/mxp/mdb/backend/tm/MDBTransactionManager.java:143-156 | in a well-formed file every issued xid is active, committed or rolled back |
| `TransactionManager.SuperXidReadsCounter` | src/main/java/com/mxp/mdb/backend/tm/MDBTransactionManager.java:198-218 | the super xid 0 has no slot: its position is 7 and its status is the low byte of the counter |
| `TransactionManager.BeginsFromCreate` | src/main/java/com/mxp/mdb/backend/tm/MDBTransactionManager.java:69-121 | every begin on a created file appends one active slot and counts it in the header, so the file keeps opening with the right counter and well-formed statuses |
| `TransactionManager.XidFile.Open` | src/main/java/com/mxp/mdb/backend/tm/MDBTransactionManager.java:56-61 | opening keeps the file and reads the counter as the number of slots |
| `TransactionManager.XidFile.Begin` | src/main/java/com/mxp/mdb/backend/tm/MDBTransactionManager.java:69-79 | the new xid is counter + 1; the file gets its active slot appended and the new counter in the header; well-formed statuses stay well formed |
| `TransactionManager.XidFile.UpdateXid` | src/main/java/com/mxp/mdb/backend/tm/MDBTransactionManager.java:86-102 | one status byte is written at the xid's position |
| `TransactionManager.XidFile.Commit` | src/main/java/com/mxp/mdb/backend/tm/MDBTransactionManager.java:124-131 | status 1 is written at the xid's position; for an issued xid exactly its slot changes and the file stays valid |
| `TransactionManager.XidFile.Rollback` | src/main/java/com/mxp/mdb/backend/tm/MDBTransactionManager.java:134-141 | status 2 is written at the xid's position; for an issued xid exactly its slot changes and the file stays valid |
| `TransactionManager.SuperXidFollowsCounter` | src/main/java/com/mxp/mdb/backend/tm/MDBTransactionManager.java:198-218 | as written, after n begins on a created file the super xid's status is n mod 256: active on a fresh file, committed after one begin |
| `TransactionManager.BegunStatuses` | src/main/java/com/mxp/mdb/backend/tm/MDBTransactionManager.java:14-18 | with the super xid special-cased, it is committed after any number of begins while every issued xid is active |
| `Bytes.Wrap16` | src/main/java/com/mxp/mdb/backend/im/Node.java:49 | the `(short)` cast leaves a value that fits unchanged |
| `Bytes.Wrap64` | src/main/java/com/mxp/mdb/backend/tm/MDBTransactionManager.java:198-200 | `long` arithmetic leaves a result that fits unchanged |
| `Bytes.LongRoundTrip` | src/main/java/com/mxp/mdb/backend/im/Node.java:56-62 | a long written as eight big-endian bytes parses back to itself |
| `Bytes.LongBytesRoundTrip` | src/main/java/com/mxp/mdb/backend/tm/MDBTransactionManager.java:186 | any eight bytes parsed as a long are rewritten to the same bytes |
| `Bytes.IntRoundTrip` | src/main/java/com/mxp/mdb/backend/tbm/Field.java:141-177 | an int written as four bytes parses back to itself |
| `Bytes.ShortRoundTrip` | src/main/java/com/mxp/mdb/backend/im/Node.java:48-54 | a short written as two bytes parses back to itself |
| `Bytes.LongToBytesInjective` | src/main/java/com/mxp/mdb/backend/vm/Entry.java:46-47 | distinct longs have distinct encodings |
| `Bytes.BigEndianZero` | src/main/java/com/mxp/mdb/backend/tbm/Booter.java:46 | zero is written as all zero bytes |
| `Bytes.WriteAt` | src/main/java/com/mxp/mdb/backend/tm/MDBTransactionManager.java:86-102 | a positioned channel write puts the data at the position, keeps every other byte, zero-fills a gap and grows the file to cover the write |
| `Pages.Page.constructor` | src/main/java/com/mxp/mdb/backend/dm/page/PageImpl.java:33-38 | a page keeps its number and buffer and starts clean |
| `CommonPage.SetFreeOffset` | src/main/java/com/mxp/mdb/backend/dm/page/CommonPage.java:35-37 | the free offset reads back as the value written and the data area is untouched |
| `CommonPage.Overwrite` | src/main/java/com/mxp/mdb/backend/dm/page/CommonPage.java:61 | copying a record into a page puts it at the offset and changes no byte before or after it |
| `CommonPage.InitRaw` | src/main/java/com/mxp/mdb/backend/dm/page/CommonPage.java:24-28 | an empty page has free offset 2 (right after the header) and zero data |
| `CommonPage.InitRawFreeSpace` | src/main/java/com/mxp/mdb/backend/dm/page/CommonPage.java:22-28 | an empty page has exactly `MAX_FREE_SPACE` free bytes |
| `CommonPage.InsertImageProperties` | src/main/java/com/mxp/mdb/backend/dm/page/CommonPage.java:59-65 | an insert places the record at the old free offset, moves the free offset past it, lowers the free space by its length and changes no other byte |
| `CommonPage.RecoverInsertProperties` | src/main/java/com/mxp/mdb/backend/dm/page/CommonPage.java:80-88 | redoing an insert writes the record back and leaves the free offset at the larger of where it was and the record's end |
| `CommonPage.RecoverInsertIdempotent` | src/main/java/com/mxp/mdb/backend/dm/page/CommonPage.java:80-88 | redoing an insert twice leaves the page as redoing it once |
| `CommonPage.RecoverUpdateKeepsHeader` | src/main/java/com/mxp/mdb/backend/dm/page/CommonPage.java:96-99 | redoing an update rewrites the record and keeps the free offset |
| `CommonPage.CopyInto` | src/main/java/com/mxp/mdb/backend/dm/page/CommonPage.java:61 | the page buffer becomes the old bytes with the record copied in at the offset |
| `CommonPage.WriteFreeOffset` | src/main/java/com/mxp/mdb/backend/dm/page/CommonPage.java:35-37 | the page buffer becomes the old bytes with the new free offset |
| `CommonPage.Insert` | src/main/java/com/mxp/mdb/backend/dm/page/CommonPage.java:59-65 | returns the old free offset, leaves the buffer as the insert image and marks the page dirty |
| `CommonPage.RecoverInsert` | src/main/java/com/mxp/mdb/backend/dm/page/CommonPage.java:80-88 | the buffer becomes the redo-insert image and the page is dirty |
| `CommonPage.RecoverUpdate` | src/main/java/com/mxp/mdb/backend/dm/page/CommonPage.java:96-99 | the buffer gets the record at the logged offset and the page is dirty |
| `FirstPage.InitRaw` | src/main/java/com/mxp/mdb/backend/dm/page/FirstPage.java:23-27 | a new first page is zero except for the open stamp at bytes 100..107 |
| `FirstPage.CloseProperties` | src/main/java/com/mxp/mdb/backend/dm/page/FirstPage.java:38-56 | closing makes the valid check pass, closing again changes nothing, and only bytes 108..115 change |
| `FirstPage.OpenThenCheck` | src/main/java/com/mxp/mdb/backend/dm/page/FirstPage.java:29-56 | after a new open stamp the check passes exactly when the stamp equals the previous close copy; only bytes 100..107 change |
| `FirstPage.SetValidCheckOpen` | src/main/java/com/mxp/mdb/backend/dm/page/FirstPage.java:29-36 | the buffer gets the stamp at bytes 100..107 and the page is dirty |
| `FirstPage.SetValidCheckClose` | src/main/java/com/mxp/mdb/backend/dm/page/FirstPage.java:38-45 | the buffer gets bytes 100..107 copied onto 108..115 and the page is dirty |
| `PageCache.PageOffsetLayout` | src/main/java/com/mxp/mdb/backend/dm/pageCache/PageCacheImpl.java:55-57 | page n starts at (n - 1) * PAGE_SIZE: pages are aligned and consecutive pages do not overlap |
| `PageCache.ReadPage` | src/main/java/com/mxp/mdb/backend/dm/pageCache/PageCacheImpl.java:66-79 | reading a page gives exactly PAGE_SIZE bytes, zero past the end of the file |
| `PageCache.ReadPageWithinFile` | src/main/java/com/mxp/mdb/backend/dm/pageCache/PageCacheImpl.java:66-79 | a page lying wholly inside the file reads as its bytes there |
| `PageCache.InitialPageNumber` | src/main/java/com/mxp/mdb/backend/dm/pageCache/PageCacheImpl.java:47 | the page counter at start-up is the file length divided by PAGE_SIZE |
| `PageCache.WriteThenReadPage` | src/main/java/com/mxp/mdb/backend/dm/pageCache/PageCacheImpl.java:97-110 | a page flushed and then read back gives the bytes flushed |
| `PageCache.WritePageReads` | src/main/java/com/mxp/mdb/backend/dm/pageCache/PageCacheImpl.java:97-110 | flushing page n changes what page n reads and no other page |
| `PageCache.TruncateImage` | src/main/java/com/mxp/mdb/backend/dm/pageCache/PageCacheImpl.java:148-156 | truncation leaves exactly maxPageNo pages, keeping the bytes that were there and zero-filling any growth |
| `PageCache.TruncateKeepsPages` | src/main/java/com/mxp/mdb/backend/dm/pageCache/PageCacheImpl.java:148-156 | every page up to the new last page reads as before truncation |
| `PageCache.Present` | src/main/java/com/mxp/mdb/backend/dm/pageCache/PageCacheImpl.java:132-145 | the keys iterated by close are exactly the cached ones, each once |
| `PageCache.WriteBackReads` | src/main/java/com/mxp/mdb/backend/dm/pageCache/PageCacheImpl.java:86-91 | after write-back a page held dirty reads back the bytes it held and a page not held dirty reads as before |
| `PageCache.PageCache.constructor` | src/main/java/com/mxp/mdb/backend/dm/pageCache/PageCacheImpl.java:32-48 | the cache starts empty over the file with the start-up page counter |
| `PageCache.PageCache.Open` | src/main/java/com/mxp/mdb/backend/dm/pageCache/PageCacheImpl.java:32-36 | a capacity below MEM_MIN_LIM (10 pages) stops the engine; any other opens an empty cache |
| `PageCache.PageCache.GetForCache` | src/main/java/com/mxp/mdb/backend/dm/pageCache/PageCacheImpl.java:66-79 | a miss loads a fresh clean page with the file's bytes for that number |
| `PageCache.PageCache.Flush` | src/main/java/com/mxp/mdb/backend/dm/pageCache/PageCacheImpl.java:97-110 | the page's whole buffer is written at its offset |
| `PageCache.PageCache.ReleaseForCache` | src/main/java/com/mxp/mdb/backend/dm/pageCache/PageCacheImpl.java:86-91 | a dirty page is written back and becomes clean; a clean page changes nothing |
| `PageCache.PageCache.NewPage` | src/main/java/com/mxp/mdb/backend/dm/pageCache/PageCacheImpl.java:118-123 | the page counter is incremented and the initial bytes are written at once at the new page's offset, uncached |
| `PageCache.PageCache.GetPage` | src/main/java/com/mxp/mdb/backend/dm/pageCache/PageCacheImpl.java:134-136 | a cached page is returned with one more reference; a miss on a full cache fails; any other miss loads the page from the file and caches it |
| `PageCache.PageCache.Release` | src/main/java/com/mxp/mdb/backend/dm/pageCache/PageCacheImpl.java:143-145 | one reference is dropped; the last one evicts the page, writing it back when dirty |
| `PageCache.PageCache.TruncateByBgno` | src/main/java/com/mxp/mdb/backend/dm/pageCache/PageCacheImpl.java:148-156 | the file is cut or zero-extended to maxPageNo whole pages and the counter set to maxPageNo |
| `PageCache.PageCache.ReleaseAll` | src/main/java/com/mxp/mdb/backend/dm/pageCache/PageCacheImpl.java:132-145 | each listed page goes through write-back in turn and is left clean |
| `PageCache.PageCache.Close` | src/main/java/com/mxp/mdb/backend/dm/pageCache/PageCacheImpl.java:132-145 | every cached page is written back in iteration order if dirty and left clean, the cache ends empty and the count is kept |
| `PageCache.PageCache.FlushPage` | src/main/java/com/mxp/mdb/backend/dm/pageCache/PageCacheImpl.java:164-166 | the page is written whatever its dirty flag, which is left alone |
| `PageIndex.ThresholdIsPageShare` | src/main/java/com/mxp/mdb/backend/dm/pageIndex/PageIndex.java:19-20 | the bucket width 204 is PAGE_SIZE / 40, rounded down |
| `PageIndex.BucketRange` | src/main/java/com/mxp/mdb/backend/dm/pageIndex/PageIndex.java:36 | every amount a page can have free falls in one of the 41 buckets, between that bucket's bounds |
| `PageIndex.FirstNonEmpty` | src/main/java/com/mxp/mdb/backend/dm/pageIndex/PageIndex.java:51-58 | the scan stops at the first non-empty bucket from its start, and finds none exactly when all of them are empty |
| `PageIndex.TotalUpdate` | src/main/java/com/mxp/mdb/backend/dm/pageIndex/PageIndex.java:37 | replacing one bucket changes the record count by the change in that bucket's size |
| `PageIndex.AddProperties` | src/main/java/com/mxp/mdb/backend/dm/pageIndex/PageIndex.java:33-41 | add files exactly one record, under the bucket of its free space |
| `PageIndex.TakeFirstProperties` | src/main/java/com/mxp/mdb/backend/dm/pageIndex/PageIndex.java:51-58 | taking from the first non-empty bucket keeps records filed and removes exactly one exactly when it returns one |
| `PageIndex.SelectFits` | src/main/java/com/mxp/mdb/backend/dm/pageIndex/PageIndex.java:43-62 | below the top bucket, the page select returns has more free space than requested |
| `PageIndex.SelectTopBucketShortfall` | src/main/java/com/mxp/mdb/backend/dm/pageIndex/PageIndex.java:46-49 | a request in the top bucket is served from the top bucket's head, which can have less room than asked (8170 free for 8180) |
| `PageIndex.FirstFitting` | src/main/java/com/mxp/mdb/backend/dm/pageIndex/PageIndex.java:51-58 | the first record with room for the request, none exactly when no record from there on has room |
| `PageIndex.SelectFittingFits` | src/main/java/com/mxp/mdb/backend/dm/pageIndex/PageIndex.java:43-62 | the corrected select only returns a record with room for the request (strictly more below the top bucket), keeps records filed and takes exactly one when it returns one |
| `PageIndex.TakeFirstFits` | src/main/java/com/mxp/mdb/backend/dm/pageIndex/PageIndex.java:47-56 | below the top bucket, the record taken lies in a higher bucket than the request |
| `PageIndex.TopFittingProperties` | src/main/java/com/mxp/mdb/backend/dm/pageIndex/PageIndex.java:47-56 | from the top bucket the corrected select takes a record with room, keeps records filed and takes one |
| `PageIndex.SelectFittingFindsTop` | src/main/java/com/mxp/mdb/backend/dm/pageIndex/PageIndex.java:47-56 | a top-bucket record with room for the request is always found |
| `PageIndex.SelectFittingAgrees` | src/main/java/com/mxp/mdb/backend/dm/pageIndex/PageIndex.java:43-62 | the corrected select returns the same record and leaves the same buckets as `select` exactly unless a top-bucket request meets a top-bucket head without room |
| `PageIndex.FirstNonEmptyFrom` | src/main/java/com/mxp/mdb/backend/dm/pageIndex/PageIndex.java:51-58 | a non-empty bucket at or after the start is always found by the scan |
| `PageIndex.PageIndex.constructor` | src/main/java/com/mxp/mdb/backend/dm/pageIndex/PageIndex.java:25-31 | the index starts with 41 empty buckets |
| `PageIndex.PageIndex.Add` | src/main/java/com/mxp/mdb/backend/dm/pageIndex/PageIndex.java:33-41 | the record is appended to the end of the bucket its free space falls in |
| `PageIndex.PageIndex.TakeFirst` | src/main/java/com/mxp/mdb/backend/dm/pageIndex/PageIndex.java:51-58 | the loop removes and returns the head of the first non-empty bucket from its start, or nothing when all are empty |
| `PageIndex.PageIndex.Select` | src/main/java/com/mxp/mdb/backend/dm/pageIndex/PageIndex.java:43-62 | scans upward from the bucket above the request's (or from the top bucket) and removes the head of the first non-empty bucket |
| `PageIndex.PageIndex.SelectFitting` | src/main/java/com/mxp/mdb/backend/dm/pageIndex/PageIndex.java:43-62 | the corrected select: a returned record always has at least the requested room |
| `DataItem.WrapDataItemRaw` | src/main/java/com/mxp/mdb/backend/dm/dataItem/DataItem.java:30-34 | a wrapped record is three header bytes longer than its payload |
| `DataItem.WrapDataItemFields` | src/main/java/com/mxp/mdb/backend/dm/dataItem/DataItem.java:30-34 | a wrapped record is valid, carries its payload from offset 3, and its size field reads back as the payload length cast to a short (the length itself when it fits) |
| `DataItem.SetDataItemRawInvalid` | src/main/java/com/mxp/mdb/backend/dm/dataItem/DataItem.java:36-38 | the flag byte becomes 1, so the record is no longer valid, and no other byte changes |
| `DataItem.UnBeforeRestores` | src/main/java/com/mxp/mdb/backend/dm/dataItem/DataItemImpl.java:69-80 | saving the record and copying it back after any change confined to the record gives back the page exactly |
| `DataItem.DataItemImpl.constructor` | src/main/java/com/mxp/mdb/backend/dm/dataItem/DataItemImpl.java:35-44 | the item keeps its page, window and uid, with a zeroed save buffer of the record's length |
| `DataItem.DataItemImpl.Data` | src/main/java/com/mxp/mdb/backend/dm/dataItem/DataItemImpl.java:64-67 | the payload view shares the page's buffer and spans from offset 3 of the record to its end |
| `DataItem.DataItemImpl.Before` | src/main/java/com/mxp/mdb/backend/dm/dataItem/DataItemImpl.java:69-74 | the record's current bytes are saved, the page bytes are unchanged and the page is dirty |
| `DataItem.DataItemImpl.UnBefore` | src/main/java/com/mxp/mdb/backend/dm/dataItem/DataItemImpl.java:76-80 | the saved bytes are copied back over the record, which then reads as saved |
| `DataItem.DataItemImpl.After` | src/main/java/com/mxp/mdb/backend/dm/dataItem/DataItemImpl.java:82-86 | one update log record of the saved and the current image under the xid is appended to the log |
| `DataItem.ParseDataItem` | src/main/java/com/mxp/mdb/backend/dm/dataItem/DataItemImpl.java:54-62 | the record at the offset spans its size field plus three; the item gets the page's uid for the offset; an offset or length that leaves the page fails (both directions) |
| `DataItem.WrappedItemEnd` | src/main/java/com/mxp/mdb/backend/dm/dataItem/DataItemImpl.java:57-59 | a record wrapped and inserted at an offset spans exactly its wrapped bytes |
| `Logger.ChecksumConcat` | src/main/java/com/mxp/mdb/backend/dm/logger/LoggerImpl.java:125-130 | hashing two pieces one after the other is hashing their concatenation |
| `Logger.CalCheckSum` | src/main/java/com/mxp/mdb/backend/dm/logger/LoggerImpl.java:125-130 | the loop computes the running hash `h * 16191 + b` in int arithmetic over every byte |
| `Logger.FoldChecksumSnoc` | src/main/java/com/mxp/mdb/backend/dm/logger/LoggerImpl.java:96-102 | the checksum over several payloads continues from the checksum so far |
| `Logger.WrapLog` | src/main/java/com/mxp/mdb/backend/dm/logger/LoggerImpl.java:160-164 | a framed record is eight bytes longer than its payload |
| `Logger.WrapLogFields` | src/main/java/com/mxp/mdb/backend/dm/logger/LoggerImpl.java:160-164 | a framed record's fields read back as the payload's length, its checksum from 0, and the payload |
| `Logger.ReadN` | src/main/java/com/mxp/mdb/backend/dm/logger/LoggerImpl.java:203-206 | a positioned read gives n bytes, the file's bytes when they are all there |
| `Logger.FrameAt` | src/main/java/com/mxp/mdb/backend/dm/logger/LoggerImpl.java:198-234 | a record is returned only when its header and payload fit before the size recorded at open |
| `Logger.FrameAtFields` | src/main/java/com/mxp/mdb/backend/dm/logger/LoggerImpl.java:198-234 | a returned record's size field is its payload's length and its checksum matches the payload |
| `Logger.FrameAtWrapLog` | src/main/java/com/mxp/mdb/backend/dm/logger/LoggerImpl.java:198-234 | a framed record lying before the recorded size reads back as itself |
| `Logger.ScanFrom` | src/main/java/com/mxp/mdb/backend/dm/logger/LoggerImpl.java:96-102 | reading records until the first malformed one fails only as a panic |
| `Logger.ScannedToStart` | src/main/java/com/mxp/mdb/backend/dm/logger/LoggerImpl.java:97 | before the first record is read the whole scan is still to come |
| `Logger.ScanStops` | src/main/java/com/mxp/mdb/backend/dm/logger/LoggerImpl.java:100 | meeting no record ends the whole scan where it stands; meeting a fault fails it |
| `Logger.ScanAdvances` | src/main/java/com/mxp/mdb/backend/dm/logger/LoggerImpl.java:100-101 | meeting a record adds its payload to those read and moves past it |
| `Logger.FramesSnoc` | src/main/java/com/mxp/mdb/backend/dm/logger/LoggerImpl.java:132-147 | appending a payload appends its framed record |
| `Logger.LogImage` | src/main/java/com/mxp/mdb/backend/dm/logger/LoggerImpl.java:251-285 | a log file always holds the four-byte checksum header |
| `Logger.ScanFrames` | src/main/java/com/mxp/mdb/backend/dm/logger/LoggerImpl.java:96-102 | scanning the records of a list of payloads reads that list back and stops right after it |
| `Logger.FramesHead` | src/main/java/com/mxp/mdb/backend/dm/logger/LoggerImpl.java:198-234 | a file ending in records holds the first record, then the records of the rest |
| `Logger.ScanOneFrame` | src/main/java/com/mxp/mdb/backend/dm/logger/LoggerImpl.java:198-234 | a record followed by a scan of the rest makes a scan of the record's payload then the rest |
| `Logger.ScanWrapLogStep` | src/main/java/com/mxp/mdb/backend/dm/logger/LoggerImpl.java:198-234 | meeting a framed record the scan reads its payload and goes on right after it |
| `Logger.ScanRecordStep` | src/main/java/com/mxp/mdb/backend/dm/logger/LoggerImpl.java:198-234 | meeting any well-formed record the scan reads its payload and goes on right after it |
| `Logger.ReopenReadsLogged` | src/main/java/com/mxp/mdb/backend/dm/logger/LoggerImpl.java:96-117 | a log file reads back exactly what was logged, and its header is the checksum of all of it |
| `Logger.LogExtendsImage` | src/main/java/com/mxp/mdb/backend/dm/logger/LoggerImpl.java:132-158 | logging at the end of a log file gives the log file of one more payload |
| `Logger.Truncate` | src/main/java/com/mxp/mdb/backend/dm/logger/LoggerImpl.java:167-174 | truncation cuts the file to x bytes and leaves a shorter file alone |
| `Logger.LogAfterOpenOverwrites` | src/main/java/com/mxp/mdb/backend/dm/logger/LoggerImpl.java:116 | after open rewinds the position to 4, the next record overwrites the first and the header no longer matches, so the next open refuses the file |
| `Logger.StaleSizeYieldsEmptyRecord` | src/main/java/com/mxp/mdb/backend/dm/logger/LoggerImpl.java:91-110 | after a torn tail is cut, the size recorded at open is stale and the cut reads as a well-formed empty record |
| `Logger.LogFile.Attach` | src/main/java/com/mxp/mdb/backend/dm/logger/LoggerImpl.java:59-63 | the two-argument constructor leaves position, size and checksum at their defaults |
| `Logger.LogFile.WithChecksum` | src/main/java/com/mxp/mdb/backend/dm/logger/LoggerImpl.java:65-69 | the three-argument constructor keeps the checksum and positions after the header |
| `Logger.LogFile.Create` | src/main/java/com/mxp/mdb/backend/dm/logger/LoggerImpl.java:251-285 | a created log has a zero checksum header, is positioned after it, and on a missing file is the empty log |
| `Logger.LogFile.Rewind` | src/main/java/com/mxp/mdb/backend/dm/logger/LoggerImpl.java:237-239 | the position goes back to just after the header |
| `Logger.LogFile.InternNext` | src/main/java/com/mxp/mdb/backend/dm/logger/LoggerImpl.java:198-234 | returns the record at the position and moves past it only when it is well formed |
| `Logger.LogFile.Next` | src/main/java/com/mxp/mdb/backend/dm/logger/LoggerImpl.java:177-188 | returns the payload of the record at the position, nothing at the end, and fails on a fault |
| `Logger.LogFile.ScanRecords` | src/main/java/com/mxp/mdb/backend/dm/logger/LoggerImpl.java:96-102 | the loop reads every well-formed record from the first, folding the payloads' checksums, and stops at the end of the scan |
| `Logger.LogFile.CheckAndRemoveTail` | src/main/java/com/mxp/mdb/backend/dm/logger/LoggerImpl.java:96-117 | a checksum mismatch is a bad log file; otherwise the file is cut after the last well-formed record and the position rewound |
| `Logger.LogFile.Init` | src/main/java/com/mxp/mdb/backend/dm/logger/LoggerImpl.java:71-94 | a file shorter than the header is refused; otherwise the header becomes the expected checksum, the size is recorded and the tail checked and cut |
| `Logger.LogFile.Open` | src/main/java/com/mxp/mdb/backend/dm/logger/LoggerImpl.java:287-309 | open attaches and runs init, with the same refusals and the same cut |
| `Logger.LogFile.OpenAtEnd` | src/main/java/com/mxp/mdb/backend/dm/logger/LoggerImpl.java:287-309 | the corrected open: same checks and cut, but positioned and sized at the end of the cut file, where the next record belongs |
| `Logger.LogFile.Log` | src/main/java/com/mxp/mdb/backend/dm/logger/LoggerImpl.java:132-147 | the framed record is written at the position, the position moves past it, and the running checksum takes in the payload and is rewritten in the header |
| `Logger.LogFile.Append` | src/main/java/com/mxp/mdb/backend/dm/logger/LoggerImpl.java:132-158 | logging from the end of a well-formed log keeps it the log of the payloads with one more |
| `Logger.ScanEndsInFile` | src/main/java/com/mxp/mdb/backend/dm/logger/LoggerImpl.java:96-117 | a scan ends neither before its start nor past the recorded size |
| `LogRecords.UidRoundTrip` | src/main/java/com/mxp/mdb/backend/dm/Recover.java:146-149 | the page number and offset are read back out of a uid made from them |
| `LogRecords.LogInsert` | src/main/java/com/mxp/mdb/backend/dm/Recover.java:252-258 | an insert record is 15 header bytes (type, xid, page, offset) followed by the record |
| `LogRecords.LogUpdate` | src/main/java/com/mxp/mdb/backend/dm/Recover.java:242-250 | an update record is 17 header bytes (type, xid, uid) followed by the old and the new image |
| `LogRecords.ParseInsertLog` | src/main/java/com/mxp/mdb/backend/dm/Recover.java:125-132 | a record reaching the raw bytes parses to an insert whose raw part is the rest; a shorter one fails (both directions) |
| `LogRecords.ParseUpdateLog` | src/main/java/com/mxp/mdb/backend/dm/Recover.java:143-154 | a record of 17 bytes or more parses to an update whose two images are each half the rest, rounded down; a shorter one fails (both directions) |
| `LogRecords.InsertRoundTrip` | src/main/java/com/mxp/mdb/backend/dm/Recover.java:125-132 | an insert record parses back to the fields it was written from |
| `LogRecords.InsertBytesRoundTrip` | src/main/java/com/mxp/mdb/backend/dm/Recover.java:125-132 | writing an insert record's parsed fields gives the record back |
| `LogRecords.UpdateRoundTrip` | src/main/java/com/mxp/mdb/backend/dm/Recover.java:143-154 | an update record with two images of equal length parses back to its xid, the page and offset of its uid, and both images |
| `Recover.ParseRecord` | src/main/java/com/mxp/mdb/backend/dm/Recover.java:60-66 | parsing one record fails only as a panic (an empty record, or a record of unknown type with nothing parsed before it) |
| `Recover.ParseRecords` | src/main/java/com/mxp/mdb/backend/dm/Recover.java:60-70 | parsing a log gives one info per record or fails as a panic |
| `Recover.ParseRecordsSnoc` | src/main/java/com/mxp/mdb/backend/dm/Recover.java:60-66 | parsing one more record extends the parse by that record, parsed with the last info at hand |
| `Recover.ParseRecordsExtendErr` | src/main/java/com/mxp/mdb/backend/dm/Recover.java:60-66 | a record that parsing fails on fails every longer log |
| `Recover.EncodeRecords` | src/main/java/com/mxp/mdb/backend/dm/Recover.java:242-258 | one log record per info |
| `Recover.ParseEncodedRecord` | src/main/java/com/mxp/mdb/backend/dm/Recover.java:242-258 | a record the data manager writes parses back to its info, whatever came before it |
| `Recover.ParseEncodedRecords` | src/main/java/com/mxp/mdb/backend/dm/Recover.java:60-66 | every sequence of records the data manager writes is parsed back exactly |
| `Recover.ParsedLog` | src/main/java/com/mxp/mdb/backend/dm/Recover.java:54-70 | a pass over the log fails only as a panic |
| `Recover.ParsedScanPrependErr` | src/main/java/com/mxp/mdb/backend/dm/Recover.java:60-66 | payloads that fail to parse fail the whole pass, whatever follows them |
| `Recover.RecoverReadsLogged` | src/main/java/com/mxp/mdb/backend/dm/Recover.java:54-70 | a log holding the records of some infos is read back as exactly those infos |
| `Recover.ReadRecords` | src/main/java/com/mxp/mdb/backend/dm/Recover.java:54-70 | the pass (rewind, next until null, parse) gives exactly the parsed log |
| `Recover.ReadStops` | src/main/java/com/mxp/mdb/backend/dm/Recover.java:60 | where next returns null the pass is over, and where it meets a fault the pass fails |
| `Recover.ReadAdvances` | src/main/java/com/mxp/mdb/backend/dm/Recover.java:60-66 | where next meets a record its payload is parsed on top of the rest, or the pass fails |
| `Recover.MaxPageNo` | src/main/java/com/mxp/mdb/backend/dm/Recover.java:58-70 | the largest page number is never negative |
| `Recover.MaxPageNoBounds` | src/main/java/com/mxp/mdb/backend/dm/Recover.java:58-70 | no record names a page above the maximum, which is 0 or a page some record names |
| `Recover.MaxPageNumber` | src/main/java/com/mxp/mdb/backend/dm/Recover.java:58-70 | the loop computes the largest page number any record names, from 0 |
| `Recover.RedoList` | src/main/java/com/mxp/mdb/backend/dm/Recover.java:81-98 | collecting the records of inactive xids fails only as a panic |
| `Recover.ActiveList` | src/main/java/com/mxp/mdb/backend/dm/Recover.java:156-178 | collecting the records of active xids fails only as a panic |
| `Recover.StatusSplit` | src/main/java/com/mxp/mdb/backend/dm/Recover.java:81-178 | both passes succeed exactly when every record's status slot can be read, and then every record goes to exactly one of them, redo taking the inactive ones and undo the active ones |
| `Recover.StatusReadable` | src/main/java/com/mxp/mdb/backend/dm/Recover.java:95-171 | both lists are built exactly when every status slot can be read |
| `Recover.StatusPartition` | src/main/java/com/mxp/mdb/backend/dm/Recover.java:95-171 | every record goes to exactly one of the lists |
| `Recover.StatusSorted` | src/main/java/com/mxp/mdb/backend/dm/Recover.java:95-171 | redo takes only records of inactive xids and undo only those of active ones |
| `Recover.OfXidMembers` | src/main/java/com/mxp/mdb/backend/dm/Recover.java:171-177 | a group keeps exactly the records of its xid |
| `Recover.GroupsByXid` | src/main/java/com/mxp/mdb/backend/dm/Recover.java:158-178 | a group is there exactly for an xid with active records, and holds that xid's records in log order |
| `Recover.Reverse` | src/main/java/com/mxp/mdb/backend/dm/Recover.java:183 | the undo order of a group is its records backwards |
| `Recover.UndoListMembers` | src/main/java/com/mxp/mdb/backend/dm/Recover.java:180-190 | the undo pass replays an active record exactly when the iteration order lists its xid |
| `Recover.UndoCoversActive` | src/main/java/com/mxp/mdb/backend/dm/Recover.java:180-190 | when the order lists every group the undo pass replays exactly the active records |
| `Recover.Step` | src/main/java/com/mxp/mdb/backend/dm/Recover.java:193-232 | the corrected replay of one record: it succeeds exactly when its page number is positive, an undone insert is not empty and the image (an undone insert flagged invalid) fits the page at its offset; failure is a panic |
| `Recover.ReplayCons` | src/main/java/com/mxp/mdb/backend/dm/Recover.java:100-106 | replaying a record then more is its step, then the rest from where it left the file |
| `Recover.Replay` | src/main/java/com/mxp/mdb/backend/dm/Recover.java:100-106 | a replay fails only as a panic |
| `Recover.WriteAtTwice` | src/main/java/com/mxp/mdb/backend/dm/Recover.java:218 | writing the same span twice leaves the second write |
| `Recover.WriteBackUnchanged` | src/main/java/com/mxp/mdb/backend/dm/Recover.java:204 | writing back a page's own bytes changes nothing |
| `Recover.StepKeepsOtherPages` | src/main/java/com/mxp/mdb/backend/dm/Recover.java:193-222 | a step leaves every page other than its own as it was |
| `Recover.StepWritesImage` | src/main/java/com/mxp/mdb/backend/dm/Recover.java:193-222 | a corrected step writes its image at its offset in its page, an undone insert flagged invalid |
| `Recover.RedoIdempotent` | src/main/java/com/mxp/mdb/backend/dm/Recover.java:193-222 | redoing a record twice leaves the file as redoing it once |
| `Recover.UpdateUndoRestores` | src/main/java/com/mxp/mdb/backend/dm/Recover.java:208-222 | undoing an update redone over the bytes it replaced gives back the file |
| `Recover.UndoInsertKeepsRecordValid` | src/main/java/com/mxp/mdb/backend/dm/Recover.java:199-201 | as written, undoing an insert flags only the parsed copy, so a crashed transaction's record on disk stays valid |
| `Recover.UndoInsertInvalidates` | src/main/java/com/mxp/mdb/backend/dm/Recover.java:193-206 | undoing an insert as intended leaves the record in its page flagged invalid, its other bytes as logged |
| `Recover.ReplayAsWritten` | src/main/java/com/mxp/mdb/backend/dm/Recover.java:180-205 | the replay as written, undone inserts leaving their pages unchanged, fails only as a panic |
| `Recover.ReplayAgrees` | src/main/java/com/mxp/mdb/backend/dm/Recover.java:180-222 | the replay as written and the corrected one give the same outcome on every redo pass and on every undo pass without inserts |
| `Recover.UndoAgrees` | src/main/java/com/mxp/mdb/backend/dm/Recover.java:164-190 | on a log whose active records are all updates the undo pass as written and the corrected one give the same file |
| `Recover.ReplayKeepsLength` | src/main/java/com/mxp/mdb/backend/dm/Recover.java:100-106 | replaying records whose pages lie in the file keeps its length |
| `Recover.ReplayKeepsOtherPages` | src/main/java/com/mxp/mdb/backend/dm/Recover.java:100-106 | replaying leaves every page no replayed record names as it was |
| `Recover.RecoverFileShape` | src/main/java/com/mxp/mdb/backend/dm/Recover.java:54-79 | after recovery the file holds exactly the truncation target's pages, and a page up to it that no record names reads as before |
| `Recover.ReplayShape` | src/main/java/com/mxp/mdb/backend/dm/Recover.java:100-190 | replaying records of the log on the cut file keeps its length and leaves alone every page no record names |
| `Recover.ReplayedFromLog` | src/main/java/com/mxp/mdb/backend/dm/Recover.java:81-190 | both passes replay only records of the log |
| `Recover.RedoFromLog` | src/main/java/com/mxp/mdb/backend/dm/Recover.java:81-106 | the redo pass replays only records of the log |
| `Recover.UndoFromLog` | src/main/java/com/mxp/mdb/backend/dm/Recover.java:156-190 | the undo pass replays only records of the log |
| `Recover.DoStep` | src/main/java/com/mxp/mdb/backend/dm/Recover.java:193-222 | fetching, changing and releasing the page leaves the file as the corrected step's image (an undone insert written flagged invalid), or reports the failure |
| `Recover.CollectRedo` | src/main/java/com/mxp/mdb/backend/dm/Recover.java:81-98 | the loop collects exactly the redo list |
| `Recover.CollectUndo` | src/main/java/com/mxp/mdb/backend/dm/Recover.java:156-178 | the loop builds exactly the groups of the active records |
| `Recover.RedoAll` | src/main/java/com/mxp/mdb/backend/dm/Recover.java:99-106 | the loop replays the redo list in log order |
| `Recover.RedoNext` | src/main/java/com/mxp/mdb/backend/dm/Recover.java:100-105 | one record of the redo loop continues the replay from the new file |
| `Recover.UndoAll` | src/main/java/com/mxp/mdb/backend/dm/Recover.java:180-190 | the loops replay each group backwards in the map's order, with the corrected undo of inserts |
| `Recover.UndoNext` | src/main/java/com/mxp/mdb/backend/dm/Recover.java:181-189 | one xid of the undo loop continues the corrected replay with the xids after it |
| `Recover.UndoGroup` | src/main/java/com/mxp/mdb/backend/dm/Recover.java:183-189 | the inner loop replays one xid's records from its last back to its first, with the corrected undo of inserts |
| `Recover.RecoverDb` | src/main/java/com/mxp/mdb/backend/dm/Recover.java:54-79 | recovery cuts the file to the truncation target, redoes the inactive records in log order, then undoes the active ones group by group with the corrected undo of inserts; it succeeds exactly when the image is defined |
| `DataManager.PageView` | src/main/java/com/mxp/mdb/backend/dm/DataManagerImpl.java:136-139 | what a reader sees of a page is a full page: the cached copy if there is one, else the file's bytes |
| `DataManager.SelectLoopProperties` | src/main/java/com/mxp/mdb/backend/dm/DataManagerImpl.java:123-130 | with the corrected select, the selection loop never takes a page without room, keeps the index filed, and gives up only after filing one empty page per attempt |
| `DataManager.EmptyPageBucket` | src/main/java/com/mxp/mdb/backend/dm/DataManagerImpl.java:128-129 | an empty page (8190 bytes free) is filed in the top bucket |
| `DataManager.SelectLoopStep` | src/main/java/com/mxp/mdb/backend/dm/DataManagerImpl.java:124-130 | an attempt that finds no page files a new empty page and leaves one attempt fewer |
| `DataManager.SelectLoopTakes` | src/main/java/com/mxp/mdb/backend/dm/DataManagerImpl.java:125-126 | an attempt that finds a page ends the loop with what it found |
| `DataManager.SelectLoopServes` | src/main/java/com/mxp/mdb/backend/dm/DataManagerImpl.java:123-134 | with the corrected select, a record that fits an empty page is placed by the second attempt at the latest, so the `DatabaseBusy` stop cannot happen |
| `DataManager.AddWithin` | src/main/java/com/mxp/mdb/backend/dm/DataManagerImpl.java:129 | filing a page that exists keeps every indexed page number in the file |
| `DataManager.SelectFittingWithin` | src/main/java/com/mxp/mdb/backend/dm/DataManagerImpl.java:125 | what selection returns and leaves names only pages of the file |
| `DataManager.AppendOne` | src/main/java/com/mxp/mdb/backend/dm/DataManagerImpl.java:128 | writing one more empty page extends the appended pages by one |
| `DataManager.EmptyPagesRead` | src/main/java/com/mxp/mdb/backend/dm/DataManagerImpl.java:123-130 | the appended pages read as empty common pages and every other page reads as before |
| `DataManager.IndexImage` | src/main/java/com/mxp/mdb/backend/dm/DataManagerImpl.java:84-96 | indexing keeps one bucket list per bucket |
| `DataManager.IndexImageFiles` | src/main/java/com/mxp/mdb/backend/dm/DataManagerImpl.java:84-96 | after indexing every page from 2 to the last is filed under its free space |
| `DataManager.IndexImageKeeps` | src/main/java/com/mxp/mdb/backend/dm/DataManagerImpl.java:84-96 | indexing only appends: a record already filed stays where it is |
| `DataManager.ClosedFileReads` | src/main/java/com/mxp/mdb/backend/dm/DataManagerImpl.java:155-167 | after close, page one reads its close image whichever of its release or the cache's write-back wrote it, and pages write-back did not touch read as before |
| `DataManager.DataManager.constructor` | src/main/java/com/mxp/mdb/backend/dm/DataManagerImpl.java:34-40 | a data manager starts over the cache and log it is given with an empty page index and no page one |
| `DataManager.DataManager.InitPageOne` | src/main/java/com/mxp/mdb/backend/dm/DataManagerImpl.java:59-67 | a fresh first page with the open stamp is appended to the file and pinned as page one; the engine stops when it cannot be pinned |
| `DataManager.DataManager.CheckPageOneOnLoad` | src/main/java/com/mxp/mdb/backend/dm/DataManagerImpl.java:72-79 | page 1 is pinned as page one and the result says whether its open and close stamps agree; the engine stops when it cannot be pinned |
| `DataManager.DataManager.StampPageOne` | src/main/java/com/mxp/mdb/backend/dm/DataManagerImpl.java:194-196 | page one gets a new open stamp and is written to the file |
| `DataManager.DataManager.Create` | src/main/java/com/mxp/mdb/backend/dm/DataManagerImpl.java:173-179 | below MEM_MIN_LIM pages of memory the engine stops; otherwise the file gets a first page with the open stamp, pinned as page one |
| `DataManager.DataManager.LoadPageOne` | src/main/java/com/mxp/mdb/backend/dm/DataManagerImpl.java:181-189 | page one is pinned and checked, and the file is recovered from the log (with the corrected undo of inserts) exactly when the check fails |
| `DataManager.DataManager.IndexAndStamp` | src/main/java/com/mxp/mdb/backend/dm/DataManagerImpl.java:191-196 | the index is filled from pages 2 onwards, then page one is stamped afresh and written out |
| `DataManager.DataManager.Open` | src/main/java/com/mxp/mdb/backend/dm/DataManagerImpl.java:181-198 | open recovers (with the corrected undo of inserts) exactly when the last run did not close cleanly, fills the index from the (recovered) file, and stamps and writes page one |
| `DataManager.DataManager.ReleasePageOne` | src/main/java/com/mxp/mdb/backend/dm/DataManagerImpl.java:160-161 | page one gets its close stamp, which makes the valid check pass, and is released |
| `DataManager.DataManager.Close` | src/main/java/com/mxp/mdb/backend/dm/DataManagerImpl.java:155-167 | after close page one on disk passes the valid check, so the next open does not recover, and pages that were not cached read as before |
| `DataManager.DataManager.GetForCache` | src/main/java/com/mxp/mdb/backend/dm/DataManagerImpl.java:42-49 | the uid's page is pinned and the data item parsed at its offset; a page number below 1 stops the engine |
| `DataManager.DataManager.Read` | src/main/java/com/mxp/mdb/backend/dm/DataManagerImpl.java:106-114 | returns the data item at the uid, parsed afresh from its pinned page, or nothing when it is flagged invalid, in which case the cache is left as it was |
| `DataManager.DataManager.InitPageIndex` | src/main/java/com/mxp/mdb/backend/dm/DataManagerImpl.java:84-96 | pages 2 to the last are filed in order under their free space, each pinned and released in turn |
| `DataManager.DataManager.IndexPage` | src/main/java/com/mxp/mdb/backend/dm/DataManagerImpl.java:87-94 | one page is pinned, filed under its free space and released; the engine stops when it cannot be pinned |
| `DataManager.DataManager.Unpin` | src/main/java/com/mxp/mdb/backend/dm/DataManagerImpl.java:144 | releasing the reference a read took leaves the cache as before the read |
| `DataManager.DataManager.SelectPage` | src/main/java/com/mxp/mdb/backend/dm/DataManagerImpl.java:123-130 | up to five attempts, each taking a page with room from the index through the corrected select or else appending an empty page and filing it |
| `DataManager.DataManager.Attempt` | src/main/java/com/mxp/mdb/backend/dm/DataManagerImpl.java:125-129 | one attempt takes a page with room from the index through the corrected select, or appends and files a new empty page |
| `DataManager.DataManager.Insert` | src/main/java/com/mxp/mdb/backend/dm/DataManagerImpl.java:116-153 | a record too large for a page stops the engine with `DataTooLarge`; otherwise the record is logged and placed at the free offset of the page the corrected select found, and the uid returned names that page and offset; when five attempts find no page the engine stops with `DatabaseBusy` |
| `DataManager.DataManager.Place` | src/main/java/com/mxp/mdb/backend/dm/DataManagerImpl.java:136-152 | the record is logged and inserted at the page's free offset and the page refiled; a page that cannot be pinned is filed as full; a record that does not fit fails after logging |
| `DataManager.DataManager.PlaceInto` | src/main/java/com/mxp/mdb/backend/dm/DataManagerImpl.java:140-145 | on a pinned page, the insert log record is written and then the record is inserted |
| `DataManager.DataManager.Overflow` | src/main/java/com/mxp/mdb/backend/dm/DataManagerImpl.java:146-151 | a failed copy refiles the page under its free space |
| `DataManager.DataManager.Fill` | src/main/java/com/mxp/mdb/backend/dm/DataManagerImpl.java:143-148 | a record that fits is copied in, the page released and refiled under its new free space |
| `DataManager.DataManager.Grow` | src/main/java/com/mxp/mdb/backend/dm/DataManagerImpl.java:128-129 | a new empty page is appended at the end of the file and filed as wholly free |
| `Entry.WrapEntryRaw` | src/main/java/com/mxp/mdb/backend/vm/Entry.java:45-49 | a new version is 16 bytes of xids followed by the payload |
| `Entry.SetXmaxImage` | src/main/java/com/mxp/mdb/backend/vm/Entry.java:95-104 | setting the deleter keeps the length, the creator and the payload bytes |
| `Entry.WrapEntryFields` | src/main/java/com/mxp/mdb/backend/vm/Entry.java:45-93 | a wrapped version reads back its creator, the super xid as deleter, and its payload |
| `Entry.SetXmaxFields` | src/main/java/com/mxp/mdb/backend/vm/Entry.java:63-104 | after setXmax the deleter reads back the new xid while the creator and payload read as before |
| `Entry.Entry.constructor` | src/main/java/com/mxp/mdb/backend/vm/Entry.java:32-38 | a version handle holds the uid and the data item it is given |
| `Entry.Entry.SetXmax` | src/main/java/com/mxp/mdb/backend/vm/Entry.java:95-104 | inside the item's before/after pair the deleter field is overwritten in the page, the page is dirtied, the old image kept, and an update record for the item is logged under the xid; no other byte of the page changes |
| `VersionManager.ReadOwnInsert` | src/main/java/com/mxp/mdb/backend/vm/VersionManagerImpl.java:67-82 | a transaction sees its own insert and reads back the inserted payload |
| `VersionManager.DeletedInvisibleToDeleter` | src/main/java/com/mxp/mdb/backend/vm/VersionManagerImpl.java:112-123 | a version a transaction deleted is no longer visible to it, and keeps its creator and payload |
| `VersionManager.VersionManagerImpl.constructor` | src/main/java/com/mxp/mdb/backend/vm/VersionManagerImpl.java:26-34 | the super transaction 0 is registered at level 0 without a snapshot |
| `VersionManager.VersionManagerImpl.Begin` | src/main/java/com/mxp/mdb/backend/vm/VersionManagerImpl.java:134-145 | the next xid is issued, registered, and above level 0 given a snapshot of every registered xid |
| `VersionManager.VersionManagerImpl.Read` | src/main/java/com/mxp/mdb/backend/vm/VersionManagerImpl.java:43-65 | a stored error is rethrown; the payload is returned exactly when the transaction sees the version by `IsVisible` (the documented repeatable-read rule), else nothing; an unregistered xid or missing version is a null dereference |
| `VersionManager.VersionManagerImpl.Insert` | src/main/java/com/mxp/mdb/backend/vm/VersionManagerImpl.java:67-82 | a stored error is rethrown; otherwise the version created by the xid is stored under the new uid |
| `VersionManager.VersionManagerImpl.InternAbort` | src/main/java/com/mxp/mdb/backend/vm/VersionManagerImpl.java:212-229 | a manual abort unregisters the xid, an automatic one keeps it; unless it was auto-aborted before, its locks are released and it is marked rolled back |
| `VersionManager.VersionManagerImpl.Undo` | src/main/java/com/mxp/mdb/backend/vm/VersionManagerImpl.java:227-228 | the xid's locks are released and its status becomes rolled back |
| `VersionManager.VersionManagerImpl.Abort` | src/main/java/com/mxp/mdb/backend/vm/VersionManagerImpl.java:180-183 | afterwards the xid is unregistered; its status becomes rolled back unless it was auto-aborted already |
| `VersionManager.VersionManagerImpl.AutoAbort` | src/main/java/com/mxp/mdb/backend/vm/VersionManagerImpl.java:105-120 | the concurrent-update error is stored and thrown, the xid stays registered marked auto-aborted, its locks are released and its status rolled back |
| `VersionManager.VersionManagerImpl.FinishDelete` | src/main/java/com/mxp/mdb/backend/vm/VersionManagerImpl.java:112-123 | a version the xid already deleted is left alone; a version skip by the intended test on the deleter aborts the xid; otherwise the xid becomes the deleter and nothing else changes |
| `VersionManager.VersionManagerImpl.Delete` | src/main/java/com/mxp/mdb/backend/vm/VersionManagerImpl.java:84-127 | a stored error is rethrown; a version the xid does not see by `IsVisible` is not deleted; otherwise the row lock is taken and the delete goes on under it |
| `VersionManager.VersionManagerImpl.LockThenDelete` | src/main/java/com/mxp/mdb/backend/vm/VersionManagerImpl.java:103-123 | a deadlock aborts the xid, a lock held by another xid makes it wait, and with the lock held the delete finishes with the intended visibility and skip tests |
| `VersionManager.VersionManagerImpl.Commit` | src/main/java/com/mxp/mdb/backend/vm/VersionManagerImpl.java:152-178 | an unregistered xid stops the engine; a stored error is thrown with nothing changed; otherwise the xid is unregistered, its locks released and its status committed |
| `LockTable.PutIntoList` | src/main/java/com/mxp/mdb/backend/vm/LockTable.java:200-206 | the value is appended to the key's list, which is created when missing; every other list is unchanged |
| `LockTable.RemoveFirst` | src/main/java/com/mxp/mdb/backend/vm/LockTable.java:187-193 | removing drops exactly one element when the value is listed and nothing otherwise |
| `LockTable.RemoveFirstAppended` | src/main/java/com/mxp/mdb/backend/vm/LockTable.java:181-206 | removing a value just appended to a list that did not hold it gives the list back |
| `LockTable.PutThenRemove` | src/main/java/com/mxp/mdb/backend/vm/LockTable.java:181-206 | putIntoList followed by removeFromList of the same unlisted value restores the map, as the deadlock path of add relies on |
| `LockTable.RankedEnds` | src/main/java/com/mxp/mdb/backend/vm/LockTable.java:159-178 | a walk from an xid already known to end does end, whatever was seen before it |
| `LockTable.RankPath` | src/main/java/com/mxp/mdb/backend/vm/LockTable.java:164-165 | a walk that runs into an xid stamped by an earlier walk can be ranked above it, so it ends too |
| `LockTable.StampOne` | src/main/java/com/mxp/mdb/backend/vm/LockTable.java:167 | stamping an unstamped xid adds it to the current walk |
| `LockTable.StampsBounded` | src/main/java/com/mxp/mdb/backend/vm/LockTable.java:161-163 | stamps of a walk in progress are no later than the current stamp |
| `LockTable.ChainStep` | src/main/java/com/mxp/mdb/backend/vm/LockTable.java:169-177 | following one wait-for edge keeps the walk's shape and does not change whether it ends |
| `LockTable.DeadEndRanks` | src/main/java/com/mxp/mdb/backend/vm/LockTable.java:170-176 | a walk that stops at an xid waiting for nothing or for an unheld uid ranks all its xids |
| `LockTable.FirstWaiter` | src/main/java/com/mxp/mdb/backend/vm/LockTable.java:125-134 | the position of the first queued xid with a registered thread: none before it has one |
| `LockTable.Release` | src/main/java/com/mxp/mdb/backend/vm/LockTable.java:94-110 | after remove the xid has no acquired list, no wait edge and no thread |
| `LockTable.PopWaitersFifo` | src/main/java/com/mxp/mdb/backend/vm/LockTable.java:125-137 | the pop loop grants the uid to the first queued xid with a thread, drops those before it and keeps those after it, or grants to nobody; other queues are unchanged |
| `LockTable.HandOffFifo` | src/main/java/com/mxp/mdb/backend/vm/LockTable.java:119-138 | selectNewXid frees the uid and grants it first-come-first-served to a queued xid with a thread, else leaves it unheld; no other uid's queue changes |
| `LockTable.AppendKeepsDistinct` | src/main/java/com/mxp/mdb/backend/vm/LockTable.java:63-69 | appending a value not yet listed keeps every list free of repeats |
| `LockTable.GrantKeepsConsistent` | src/main/java/com/mxp/mdb/backend/vm/LockTable.java:67-70 | granting an unheld uid keeps the acquired lists and the holder map in agreement |
| `LockTable.AddKeepsConsistent` | src/main/java/com/mxp/mdb/backend/vm/LockTable.java:59-88 | the empty table is consistent and add keeps the table consistent |
| `LockTable.AddOutcomes` | src/main/java/com/mxp/mdb/backend/vm/LockTable.java:59-88 | acquired means the xid holds the uid; waiting means the xid has a wait edge and thread and no holder's walk runs into a cycle; a deadlock takes the edge and queue entry back |
| `LockTable.DropHead` | src/main/java/com/mxp/mdb/backend/vm/LockTable.java:99-101 | taking the head off the acquired list leaves exactly the other uids, still without repeats |
| `LockTable.ReleasingAfterFree` | src/main/java/com/mxp/mdb/backend/vm/LockTable.java:120-124 | freeing the head uid with nobody to take it keeps the release loop's invariant |
| `LockTable.ReleasingAfterGrant` | src/main/java/com/mxp/mdb/backend/vm/LockTable.java:125-133 | granting the head uid to a waiter that records it keeps the release loop's invariant |
| `LockTable.PutIntoListOther` | src/main/java/com/mxp/mdb/backend/vm/LockTable.java:200-206 | appending under one key commutes with dropping another |
| `LockTable.HoldsAfterGrant` | src/main/java/com/mxp/mdb/backend/vm/LockTable.java:129 | handing the head uid to another xid leaves the releasing xid holding the tail |
| `LockTable.HeldListedAfterGrant` | src/main/java/com/mxp/mdb/backend/vm/LockTable.java:129 | the granted uid is listed under its new holder |
| `LockTable.ListedHeldAfterGrant` | src/main/java/com/mxp/mdb/backend/vm/LockTable.java:129 | every listed uid stays held by the xid that lists it |
| `LockTable.HandOffStep` | src/main/java/com/mxp/mdb/backend/vm/LockTable.java:99-102 | one hand-off that records the new owner moves one uid out of the releasing xid's hands |
| `LockTable.ReleaseAllFrees` | src/main/java/com/mxp/mdb/backend/vm/LockTable.java:97-103 | handing off every acquired uid leaves the releasing xid holding nothing |
| `LockTable.StartReleasing` | src/main/java/com/mxp/mdb/backend/vm/LockTable.java:97-98 | a consistent table is ready to release the uids listed under a running xid |
| `LockTable.FinishReleasing` | src/main/java/com/mxp/mdb/backend/vm/LockTable.java:104-106 | once the xid holds nothing, dropping it leaves the table consistent |
| `LockTable.ReleaseKeepsConsistent` | src/main/java/com/mxp/mdb/backend/vm/LockTable.java:94-110 | with the new owner recorded, remove keeps the table consistent and the removed xid holds no uid |
| `LockTable.ReleaseAsWrittenStrands` | src/main/java/com/mxp/mdb/backend/vm/LockTable.java:119-138 | as written, xid 1 takes uid 7, xid 2 waits for it and is handed it when 1 is removed, and removing 2 still leaves 7 held by 2 |
| `LockTable.PopWaitersAgree` | src/main/java/com/mxp/mdb/backend/vm/LockTable.java:125-137 | the pop loop with and without recording the new owner differs only in the acquired lists, which it leaves alone when not recording |
| `LockTable.ReleaseAllAgree` | src/main/java/com/mxp/mdb/backend/vm/LockTable.java:97-102 | handing off a list of uids with and without recording differs only in the acquired lists |
| `LockTable.ReleaseAsWrittenAgrees` | src/main/java/com/mxp/mdb/backend/vm/LockTable.java:94-138 | `remove` as written and with the owner recorded leave the same holders, queues, wait edges and threads; as written the acquired lists only lose the removed xid's list |
| `LockTable.StrandsFirstAdd` | src/main/java/com/mxp/mdb/backend/vm/LockTable.java:67-70 | in that run, 1 acquires 7 |
| `LockTable.StrandsSecondAdd` | src/main/java/com/mxp/mdb/backend/vm/LockTable.java:74-83 | in that run, 2 waits for 7 |
| `LockTable.StrandsFirstRelease` | src/main/java/com/mxp/mdb/backend/vm/LockTable.java:94-138 | in that run, removing 1 hands 7 to 2 without listing it under 2 |
| `LockTable.LockTable.constructor` | src/main/java/com/mxp/mdb/backend/vm/LockTable.java:43-50 | a new lock table is empty |
| `LockTable.LockTable.HasDeadLock` | src/main/java/com/mxp/mdb/backend/vm/LockTable.java:143-157 | the answer is true exactly when some holder's wait-for walk runs into a cycle |
| `LockTable.LockTable.Dfs` | src/main/java/com/mxp/mdb/backend/vm/LockTable.java:159-178 | the walk reports a cycle exactly when it comes back to an xid stamped on this walk; otherwise every stamped xid is known to end |
| `LockTable.LockTable.Add` | src/main/java/com/mxp/mdb/backend/vm/LockTable.java:59-88 | the outcome and new table are those of the add specification |
| `LockTable.LockTable.Remove` | src/main/java/com/mxp/mdb/backend/vm/LockTable.java:94-110 | the new table is that of the remove specification with the new owner recorded, a step the source leaves out (see "## Left out") |
| `LockTable.LockTable.SelectNewXid` | src/main/java/com/mxp/mdb/backend/vm/LockTable.java:119-138 | the new table is that of the hand-off specification with the new owner recorded, a step the source leaves out (see "## Left out") |
| `Node.NodeSize` | src/main/java/com/mxp/mdb/backend/im/Node.java:27-33 | a node has 66 slots of a son and a key after an 11-byte header whose sibling field ends it |
| `Node.Slots` | src/main/java/com/mxp/mdb/backend/im/Node.java:64-80 | slot k of a node is its k-th son and k-th key |
| `Node.Put` | src/main/java/com/mxp/mdb/backend/im/Node.java:82-93 | a copy into a node keeps its size |
| `Node.PutLong` | src/main/java/com/mxp/mdb/backend/im/Node.java:56-80 | a long written at one field reads back there and leaves other fields untouched |
| `Node.PutRead` | src/main/java/com/mxp/mdb/backend/im/Node.java:82-85 | a window of a copied-into node reads the copied bytes inside the copy and the old bytes beside it |
| `Node.PutReadInside` | src/main/java/com/mxp/mdb/backend/im/Node.java:82-85 | a window inside the copied bytes reads the copied bytes |
| `Node.PutReadBeside` | src/main/java/com/mxp/mdb/backend/im/Node.java:82-85 | a window beside the copied bytes reads the old bytes |
| `Node.PutIndex` | src/main/java/com/mxp/mdb/backend/im/Node.java:82-85 | one byte of a copied-into node is the copied byte inside the copy and the old byte elsewhere |
| `Node.SameHeader` | src/main/java/com/mxp/mdb/backend/im/Node.java:44-61 | the leaf flag, key count and sibling depend only on the header bytes |
| `Node.SameSlots` | src/main/java/com/mxp/mdb/backend/im/Node.java:68-80 | the slots depend only on the body bytes |
| `Node.PutSides` | src/main/java/com/mxp/mdb/backend/im/Node.java:40-75 | a write into the body keeps the header and a write into the header keeps the body |
| `Node.SetKey` | src/main/java/com/mxp/mdb/backend/im/Node.java:73-76 | setRawKthKey keeps the node's size |
| `Node.SetKeyFacts` | src/main/java/com/mxp/mdb/backend/im/Node.java:73-76 | setRawKthKey keeps the header and changes only slot k's key |
| `Node.SetSon` | src/main/java/com/mxp/mdb/backend/im/Node.java:64-67 | setRawKthSon keeps the node's size |
| `Node.SetSonFacts` | src/main/java/com/mxp/mdb/backend/im/Node.java:64-67 | setRawKthSon keeps the header and changes only slot k's son |
| `Node.SetNoKeys` | src/main/java/com/mxp/mdb/backend/im/Node.java:48-50 | setRawNoKeys keeps the node's size |
| `Node.SetNoKeysFacts` | src/main/java/com/mxp/mdb/backend/im/Node.java:48-53 | setRawNoKeys changes only the key count, which reads back as the count cast to a Java short |
| `Node.SetSibling` | src/main/java/com/mxp/mdb/backend/im/Node.java:56-58 | setRawSibling keeps the node's size |
| `Node.SetSiblingFacts` | src/main/java/com/mxp/mdb/backend/im/Node.java:56-61 | setRawSibling changes only the sibling, which reads back as set |
| `Node.SetLeaf` | src/main/java/com/mxp/mdb/backend/im/Node.java:40-42 | setRawIsLeaf keeps the node's size |
| `Node.SetLeafFacts` | src/main/java/com/mxp/mdb/backend/im/Node.java:40-45 | setRawIsLeaf changes only the leaf flag, which reads back as set |
| `Node.Shifted` | src/main/java/com/mxp/mdb/backend/im/Node.java:87-93 | shiftRawKth keeps the node's size |
| `Node.ShiftedFacts` | src/main/java/com/mxp/mdb/backend/im/Node.java:87-93 | shiftRawKth keeps the header, and slots from k on move up one slot while the last falls off |
| `Node.ShiftedSlot` | src/main/java/com/mxp/mdb/backend/im/Node.java:87-93 | slot j after the shift is the old slot j up to k and the old slot j - 1 beyond |
| `Node.SliceOfSlice` | src/main/java/com/mxp/mdb/backend/im/Node.java:82-85 | a window of a slice of a node is the matching window of the node |
| `Node.ConcatReadLeft` | src/main/java/com/mxp/mdb/backend/im/Node.java:82-85 | a window of a concatenation inside the first part reads the first part |
| `Node.ConcatReadRight` | src/main/java/com/mxp/mdb/backend/im/Node.java:82-85 | a window of a concatenation inside the second part reads the second part |
| `Node.SlotWindow` | src/main/java/com/mxp/mdb/backend/im/Node.java:68-80 | equal 16-byte slot windows hold equal sons and keys |
| `Node.ZeroLong` | src/main/java/com/mxp/mdb/backend/im/Node.java:95-112 | eight zero bytes read as the long 0 |
| `Node.Zeroed` | src/main/java/com/mxp/mdb/backend/im/Node.java:95-112 | a new node buffer has the node's size |
| `Node.ZeroedFacts` | src/main/java/com/mxp/mdb/backend/im/Node.java:95-112 | a zero-filled node is a non-leaf with no keys, sibling 0 and all slots zero |
| `Node.ZeroSlots` | src/main/java/com/mxp/mdb/backend/im/Node.java:95-112 | the zero node's slots are all son 0 and key 0 |
| `Node.EmptyNode` | src/main/java/com/mxp/mdb/backend/im/Node.java:95-112 | a node built on fresh bytes has the node's size |
| `Node.EmptyNodeFacts` | src/main/java/com/mxp/mdb/backend/im/Node.java:95-112 | a node built on fresh bytes has the header asked for and zero slots |
| `Node.NewNilRootRaw` | src/main/java/com/mxp/mdb/backend/im/Node.java:107-113 | newNilRootRaw is a well-formed leaf with no keys and no sibling |
| `Node.NewRootRaw` | src/main/java/com/mxp/mdb/backend/im/Node.java:95-105 | newRootRaw is a well-formed internal node with two keys: the split key leading to the left node and the largest long to the right node, and no sibling |
| `Node.AtLeastFrom` | src/main/java/com/mxp/mdb/backend/im/Node.java:273-279 | the first used slot from a position on whose key is at least the key, every earlier one being below it, or the key count |
| `Node.AboveFrom` | src/main/java/com/mxp/mdb/backend/im/Node.java:192-198 | the first used slot from a position on whose key is above the key, every earlier one being at most it, or the key count |
| `Node.Sons` | src/main/java/com/mxp/mdb/backend/im/Node.java:192-198 | the sons of the slots of a range, in order |
| `Node.NextOf` | src/main/java/com/mxp/mdb/backend/im/Node.java:149-167 | searchNext answers the son of a key above the key, or uid 0 and the sibling when every key is at most the key |
| `Node.SearchNext` | src/main/java/com/mxp/mdb/backend/im/Node.java:149-167 | the loop's answer is the search specification's |
| `Node.NewRootRoutes` | src/main/java/com/mxp/mdb/backend/im/Node.java:95-105 | a new root sends keys below the split key to the old root and all others to the new node |
| `Node.LeafRange` | src/main/java/com/mxp/mdb/backend/im/Node.java:179-208 | leafSearchRange returns at most as many uids as the node has keys, and the sibling only as the node's sibling |
| `Node.LeafRangeFinds` | src/main/java/com/mxp/mdb/backend/im/Node.java:179-208 | a key in the range that no earlier key above the range precedes has its son in the answer |
| `Node.LeafRangeSound` | src/main/java/com/mxp/mdb/backend/im/Node.java:179-208 | in a sorted node every son in the answer belongs to a key inside the range |
| `Node.LeafSearchRange` | src/main/java/com/mxp/mdb/backend/im/Node.java:179-208 | the loops' answer is the range search specification's |
| `Node.SkipBelow` | src/main/java/com/mxp/mdb/backend/im/Node.java:183-190 | the first loop stops at the first key at least the left bound |
| `Node.TakeUpTo` | src/main/java/com/mxp/mdb/backend/im/Node.java:192-199 | the second loop collects the sons up to the first key above the right bound |
| `Node.Write` | src/main/java/com/mxp/mdb/backend/im/Node.java:82-85 | System.arraycopy into the node array leaves exactly the copied bytes changed |
| `Node.SetRawIsLeaf` | src/main/java/com/mxp/mdb/backend/im/Node.java:40-42 | the array afterwards holds the leaf-flag image |
| `Node.SetRawNoKeys` | src/main/java/com/mxp/mdb/backend/im/Node.java:48-50 | the array afterwards holds the key-count image |
| `Node.SetRawSibling` | src/main/java/com/mxp/mdb/backend/im/Node.java:56-58 | the array afterwards holds the sibling image |
| `Node.SetRawKthSon` | src/main/java/com/mxp/mdb/backend/im/Node.java:64-67 | the array afterwards holds the son image |
| `Node.SetRawKthKey` | src/main/java/com/mxp/mdb/backend/im/Node.java:73-76 | the array afterwards holds the key image |
| `Node.ShiftRawKth` | src/main/java/com/mxp/mdb/backend/im/Node.java:87-93 | the byte-by-byte backwards loop leaves the shifted image |
| `Node.LeafInsert` | src/main/java/com/mxp/mdb/backend/im/Node.java:285-288 | a leaf insert keeps the node's size |
| `Node.LeafInsertFacts` | src/main/java/com/mxp/mdb/backend/im/Node.java:285-297 | a leaf insert puts the entry at slot k over the later slots moved up and counts one key more |
| `Node.LeafSlots` | src/main/java/com/mxp/mdb/backend/im/Node.java:285-288 | the slot arithmetic of a leaf insert |
| `Node.InnerInsert` | src/main/java/com/mxp/mdb/backend/im/Node.java:289-296 | an internal insert keeps the node's size |
| `Node.InnerInsertFacts` | src/main/java/com/mxp/mdb/backend/im/Node.java:289-297 | an internal insert gives slot k the new key and puts the new son with the old key after it, over the later slots moved up, counting one key more |
| `Node.InnerInsertBody` | src/main/java/com/mxp/mdb/backend/im/Node.java:289-295 | the slots of an internal insert before the count is written |
| `Node.InnerInsertTail` | src/main/java/com/mxp/mdb/backend/im/Node.java:293-294 | writing a key and then a son into one slot sets that slot |
| `Node.InnerSlots` | src/main/java/com/mxp/mdb/backend/im/Node.java:289-295 | the slot arithmetic of an internal insert |
| `Node.InsertImage` | src/main/java/com/mxp/mdb/backend/im/Node.java:271-299 | a node refuses the entry exactly when every key is below it and it has a sibling; otherwise a leaf or internal insert at the first key at least the key |
| `Node.InsertImageHeader` | src/main/java/com/mxp/mdb/backend/im/Node.java:271-299 | an accepted insert keeps the node's kind and sibling and counts one key more |
| `Node.LeafInsertSorted` | src/main/java/com/mxp/mdb/backend/im/Node.java:271-299 | a leaf insert keeps the used keys sorted |
| `Node.LeafInsertKey` | src/main/java/com/mxp/mdb/backend/im/Node.java:285-288 | key i after a leaf insert is the old key before k, the new key at k, and the old key i - 1 after |
| `Node.LeafInsertFound` | src/main/java/com/mxp/mdb/backend/im/Node.java:179-299 | after a leaf takes an entry, a range search over any range holding the key finds the entry's uid |
| `Node.Insert` | src/main/java/com/mxp/mdb/backend/im/Node.java:271-299 | the node's array afterwards holds the insert image when accepted and is unchanged when refused |
| `Node.LeafInsertRaw` | src/main/java/com/mxp/mdb/backend/im/Node.java:285-288 | the leaf branch leaves the leaf insert image |
| `Node.InnerInsertRaw` | src/main/java/com/mxp/mdb/backend/im/Node.java:289-296 | the internal branch leaves the internal insert image |
| `Node.CopiedSlot` | src/main/java/com/mxp/mdb/backend/im/Node.java:82-85 | after copyRawFromKth from slot 32, slot k of the copy is slot k + 32 of the node, and later slots are untouched |
| `Node.SplitNewNode` | src/main/java/com/mxp/mdb/backend/im/Node.java:255-259 | the node split off has the node's size |
| `Node.SplitNewNodeFacts` | src/main/java/com/mxp/mdb/backend/im/Node.java:255-259 | the node split off has the old kind, 32 keys, the old sibling, and slots 32 on moved to the front |
| `Node.SplitOldNode` | src/main/java/com/mxp/mdb/backend/im/Node.java:262-263 | the kept node has the node's size |
| `Node.SplitOldNodeFacts` | src/main/java/com/mxp/mdb/backend/im/Node.java:262-263 | the kept node has its old kind and slots, 32 keys and the new node as sibling |
| `Node.SplitWf` | src/main/java/com/mxp/mdb/backend/im/Node.java:254-269 | both halves of a split are well formed |
| `Node.SplitKeepsEntries` | src/main/java/com/mxp/mdb/backend/im/Node.java:254-269 | a split of a full node loses no entry: the kept half then the moved half are the old entries, and the new key is the moved half's first |
| `Node.LoadNode` | src/main/java/com/mxp/mdb/backend/im/Node.java:115-124 | loading gives the stored node bytes, a null dereference for a missing record, and a refusal for a record that is not a node |
| `Node.InsertAndSplitStep` | src/main/java/com/mxp/mdb/backend/im/Node.java:219-252 | insertAndSplit changes only the node and at most one new record, both well formed; a refusal or failure changes nothing; a split's new son is the next uid |
| `Node.StepOnImage` | src/main/java/com/mxp/mdb/backend/im/Node.java:226-251 | the same, once the insert image is known |
| `Node.Records.constructor` | src/main/java/com/mxp/mdb/backend/im/Node.java:261 | the record store starts with the records and next uid given |
| `Node.Records.Insert` | src/main/java/com/mxp/mdb/backend/im/Node.java:261 | a new record is stored under the next uid, or the insert fails as busy when uids run out |
| `Node.Records.Write` | src/main/java/com/mxp/mdb/backend/im/Node.java:247 | a record's bytes are replaced in place |
| `Node.Split` | src/main/java/com/mxp/mdb/backend/im/Node.java:254-269 | the new node is stored under the next uid and the node keeps 32 keys linked to it; the new key is its first key; a failed store changes nothing |
| `Node.SplitNode` | src/main/java/com/mxp/mdb/backend/im/Node.java:255-259 | split builds the upper half in a fresh array |
| `Node.InsertAndSplitRaw` | src/main/java/com/mxp/mdb/backend/im/Node.java:219-252 | on the loaded node, the outcome and records are those of the insertAndSplit specification |
| `Node.InsertAndSplit` | src/main/java/com/mxp/mdb/backend/im/Node.java:115-124 | loading then inserting gives the outcome and records of the insertAndSplit specification |
| `BPlusTree.RootOf` | src/main/java/com/mxp/mdb/backend/im/BTree.java:147-155 | the root uid is read from the boot record's first 8 bytes, which must exist |
| `BPlusTree.NextWalk` | src/main/java/com/mxp/mdb/backend/im/BTree.java:133-145 | searchNext along the sibling links answers a nonzero son |
| `BPlusTree.LeafWalk` | src/main/java/com/mxp/mdb/backend/im/BTree.java:119-131 | searchLeaf ends at a node that loads and is a leaf |
| `BPlusTree.RangeWalkSound` | src/main/java/com/mxp/mdb/backend/im/BTree.java:48-66 | over sorted nodes every uid the leaf walk collects is the son of a key inside the range |
| `BPlusTree.SearchRangeSound` | src/main/java/com/mxp/mdb/backend/im/BTree.java:44-66 | over sorted nodes a range search answers only uids whose keys are in the range |
| `BPlusTree.GrowsTrans` | src/main/java/com/mxp/mdb/backend/im/BTree.java:76-117 | the insert's effect on the records (only added, each changed record a node) composes |
| `BPlusTree.SplitWalk` | src/main/java/com/mxp/mdb/backend/im/BTree.java:102-117 | the insert-and-split loop never lowers the next uid, and a new node it reports is a uid it allocated |
| `BPlusTree.SplitWalkStep` | src/main/java/com/mxp/mdb/backend/im/BTree.java:103-116 | one pass returns the node's failure or its split, or with nothing changed moves on to the sibling |
| `BPlusTree.SplitWalkSameFuel` | src/main/java/com/mxp/mdb/backend/im/BTree.java:102-117 | the loop depends on the number of steps left only |
| `BPlusTree.InsertDown` | src/main/java/com/mxp/mdb/backend/im/BTree.java:85-100 | the recursive insert never lowers the next uid |
| `BPlusTree.InsertBelow` | src/main/java/com/mxp/mdb/backend/im/BTree.java:94-99 | the insert at an internal node never lowers the next uid |
| `BPlusTree.AfterChild` | src/main/java/com/mxp/mdb/backend/im/BTree.java:96-99 | absorbing a child's split never lowers the next uid |
| `BPlusTree.SplitWalkGrows` | src/main/java/com/mxp/mdb/backend/im/BTree.java:102-117 | the loop only adds records and leaves every record it changed a well-formed node |
| `BPlusTree.InsertDownGrows` | src/main/java/com/mxp/mdb/backend/im/BTree.java:85-100 | the recursive insert only adds records and leaves every record it changed a well-formed node |
| `BPlusTree.AfterChildGrows` | src/main/java/com/mxp/mdb/backend/im/BTree.java:96-99 | absorbing a child's split only adds records and leaves well-formed nodes |
| `BPlusTree.UpdateRoot` | src/main/java/com/mxp/mdb/backend/im/BTree.java:157-169 | a new root over the old root and the new node is stored under the next uid, and the boot record's first 8 bytes then hold that uid; a failed store changes nothing |
| `BPlusTree.CreateTree` | src/main/java/com/mxp/mdb/backend/im/BTree.java:26-30 | create stores an empty leaf root and then an 8-byte boot record holding the root's uid, whose uid is the tree's handle |
| `BPlusTree.CreatedTreeIsEmpty` | src/main/java/com/mxp/mdb/backend/im/BTree.java:26-66 | every range search of a new tree answers nothing |
| `BPlusTree.NextWalkSameFuel` | src/main/java/com/mxp/mdb/backend/im/BTree.java:133-145 | the walk depends on the number of steps left only |
| `BPlusTree.LeafWalkSameFuel` | src/main/java/com/mxp/mdb/backend/im/BTree.java:119-131 | the walk depends on the number of steps left only |
| `BPlusTree.RangeWalkSameFuel` | src/main/java/com/mxp/mdb/backend/im/BTree.java:54-64 | the walk depends on the number of steps left only |
| `BPlusTree.Prefixed` | src/main/java/com/mxp/mdb/backend/im/BTree.java:59 | the uids of one leaf go in front of what the rest of the walk finds, and failures pass through |
| `BPlusTree.PrefixedEmpty` | src/main/java/com/mxp/mdb/backend/im/BTree.java:51 | nothing in front leaves the walk's outcome |
| `BPlusTree.PrefixedTwice` | src/main/java/com/mxp/mdb/backend/im/BTree.java:59 | adding uids in front twice is adding them together |
| `BPlusTree.RangeWalkStep` | src/main/java/com/mxp/mdb/backend/im/BTree.java:55-63 | one leaf of the walk: its uids, then the sibling's walk unless the sibling is 0 |
| `BPlusTree.InsertThenSearchFinds` | src/main/java/com/mxp/mdb/backend/im/BTree.java:44-100 | in a tree that is a single leaf with room, insert changes only the leaf and a search for the key then finds the uid |
| `BPlusTree.Create` | src/main/java/com/mxp/mdb/backend/im/BTree.java:26-30 | the outcome and records are those of the create specification |
| `BPlusTree.BTree.Load` | src/main/java/com/mxp/mdb/backend/im/BTree.java:32-42 | the tree holds the boot uid and data manager it is given |
| `BPlusTree.BTree.RootUid` | src/main/java/com/mxp/mdb/backend/im/BTree.java:147-155 | the answer is the root specification's |
| `BPlusTree.BTree.LoadRaw` | src/main/java/com/mxp/mdb/backend/im/BTree.java:55 | the node's bytes in a fresh array, or the load's failure |
| `BPlusTree.BTree.SearchNext` | src/main/java/com/mxp/mdb/backend/im/BTree.java:133-145 | the loop's answer is the searchNext walk's |
| `BPlusTree.BTree.SearchLeaf` | src/main/java/com/mxp/mdb/backend/im/BTree.java:119-131 | the loop's answer is the searchLeaf walk's |
| `BPlusTree.BTree.SearchRange` | src/main/java/com/mxp/mdb/backend/im/BTree.java:48-66 | the answer is the range search specification's, which is proved sound over sorted nodes; completeness beyond a single leaf is not proved |
| `BPlusTree.BTree.LeafRun` | src/main/java/com/mxp/mdb/backend/im/BTree.java:54-64 | the loop over the leaves collects what the leaf walk does |
| `BPlusTree.BTree.Search` | src/main/java/com/mxp/mdb/backend/im/BTree.java:44-46 | search is the range search over the one key, and over sorted nodes answers only uids indexed under the key |
| `BPlusTree.BTree.InsertAndSplit` | src/main/java/com/mxp/mdb/backend/im/BTree.java:102-117 | the loop's outcome and records are those of the insert-and-split walk |
| `BPlusTree.BTree.SplitAttempt` | src/main/java/com/mxp/mdb/backend/im/BTree.java:104-115 | one pass ends the walk, or leaves the records unchanged and moves on to the sibling with fewer steps left |
| `BPlusTree.BTree.InsertRec` | src/main/java/com/mxp/mdb/backend/im/BTree.java:85-100 | the recursive insert's outcome and records are the specification's |
| `BPlusTree.BTree.InsertInto` | src/main/java/com/mxp/mdb/backend/im/BTree.java:94-99 | the internal-node insert's outcome and records are the specification's |
| `BPlusTree.BTree.AbsorbChild` | src/main/java/com/mxp/mdb/backend/im/BTree.java:96-99 | the child's split, if any, is inserted into this node as the specification says |
| `BPlusTree.BTree.UpdateRootUid` | src/main/java/com/mxp/mdb/backend/im/BTree.java:157-169 | the outcome and records are those of the root update specification |
| `BPlusTree.BTree.Insert` | src/main/java/com/mxp/mdb/backend/im/BTree.java:76-83 | the outcome and records are those of the tree insert specification |
| `FieldRules.TypeCheck` | src/main/java/com/mxp/mdb/backend/tbm/Field.java:119-123 | a type passes exactly when it is int32, int64 or string; anything else is an invalid field |
| `FieldRules.CreateField` | src/main/java/com/mxp/mdb/backend/tbm/Field.java:84-97 | the type is checked first; a created column has the name and type given and is indexed exactly when asked and its tree was made |
| `FieldRules.CharsToBytes` | src/main/java/com/mxp/mdb/backend/tbm/Field.java:100-101 | one byte per character |
| `FieldRules.BytesToChars` | src/main/java/com/mxp/mdb/backend/tbm/Field.java:67-71 | one character per byte |
| `FieldRules.StringToBytes` | src/main/java/com/mxp/mdb/backend/tbm/Field.java:100-101 | a string is stored as its 4-byte length and then its characters |
| `FieldRules.ParseString` | src/main/java/com/mxp/mdb/backend/tbm/Field.java:67-71 | parsing a string consumes its length field and its characters, and fails when the bytes run out |
| `FieldRules.StringRoundTrip` | src/main/java/com/mxp/mdb/backend/tbm/Field.java:67-101 | a storable string reads back from its encoding whatever follows it |
| `FieldRules.FieldToBytes` | src/main/java/com/mxp/mdb/backend/tbm/Field.java:99-104 | a column is stored as its name, its type and the 8-byte index uid |
| `FieldRules.ParseField` | src/main/java/com/mxp/mdb/backend/tbm/Field.java:65-82 | parsing a column fails only when its bytes run out |
| `FieldRules.ParseFieldFrom` | src/main/java/com/mxp/mdb/backend/tbm/Field.java:65-73 | once both strings are read, the index uid comes from the next eight bytes |
| `FieldRules.FieldRoundTrip` | src/main/java/com/mxp/mdb/backend/tbm/Field.java:65-104 | a column loads back as it was stored |
| `FieldRules.DigitChar` | src/main/java/com/mxp/mdb/backend/tbm/Field.java:154-156 | a digit's character is a digit |
| `FieldRules.Decimal` | src/main/java/com/mxp/mdb/backend/tbm/Field.java:154-156 | a number's decimal digits have no leading zero |
| `FieldRules.ShowInt` | src/main/java/com/mxp/mdb/backend/tbm/Field.java:154-156 | String.valueOf of an integer is never empty |
| `FieldRules.ParseDecimal` | src/main/java/com/mxp/mdb/backend/tbm/Field.java:127-130 | Integer.parseInt and Long.parseLong accept a signed run of digits in range and refuse everything else, the empty text included |
| `FieldRules.DecimalValue` | src/main/java/com/mxp/mdb/backend/tbm/Field.java:154-156 | the digits of a number denote the number |
| `FieldRules.ShowParseRoundTrip` | src/main/java/com/mxp/mdb/backend/tbm/Field.java:125-162 | printed text parses back to the number when in range and is refused otherwise |
| `FieldRules.String2Value` | src/main/java/com/mxp/mdb/backend/tbm/Field.java:125-136 | text becomes a value of the column's type, or null for an unknown type; numbers that do not parse are a number format error |
| `FieldRules.PrintThenParse` | src/main/java/com/mxp/mdb/backend/tbm/Field.java:125-162 | a printed value reads back as itself in a column of its type |
| `FieldRules.Value2Raw` | src/main/java/com/mxp/mdb/backend/tbm/Field.java:138-149 | an int32 takes 4 bytes, an int64 8 and a string its length field plus its characters |
| `FieldRules.CopyOf` | src/main/java/com/mxp/mdb/backend/tbm/Field.java:177-181 | Arrays.copyOf gives exactly n bytes, the prefix when there are enough |
| `FieldRules.ParseValue` | src/main/java/com/mxp/mdb/backend/tbm/Field.java:173-192 | int32 and int64 always parse, shifting 4 and 8; an unknown type gives null and shift 0; a string's shift stays inside the bytes |
| `FieldRules.ValueRoundTrip` | src/main/java/com/mxp/mdb/backend/tbm/Field.java:138-192 | a stored value reads back with the shift that skips exactly its bytes |
| `FieldRules.KeyOrder` | src/main/java/com/mxp/mdb/backend/tbm/Field.java:218-230 | with the corrected key, numeric keys are the numbers themselves, so order and equality are kept |
| `FieldRules.Value2UidRefusesWideLong` | src/main/java/com/mxp/mdb/backend/tbm/Field.java:218-230 | as written, the int64 value 2^31 is refused while the corrected key is 2^31 |
| `FieldRules.Value2UidAgrees` | src/main/java/com/mxp/mdb/backend/tbm/Field.java:218-230 | as written and corrected keys agree except on int64 values outside the int range, which as written are refused |
| `FieldRules.KeyRangeSelects` | src/main/java/com/mxp/mdb/backend/tbm/Field.java:194-216 | as written, = selects the key alone, > the larger keys below the largest long, < the non-negative smaller keys, and any other operator the key 0 |
| `FieldRules.KeyRangeMisses` | src/main/java/com/mxp/mdb/backend/tbm/Field.java:199-209 | as written, > on the largest long selects every key, < 0 selects 0, and < never reaches a negative key |
| `FieldRules.KeyRangeFixedSelects` | src/main/java/com/mxp/mdb/backend/tbm/Field.java:194-216 | the corrected range selects a key exactly when the comparison holds |
| `FieldRules.CalExp` | src/main/java/com/mxp/mdb/backend/tbm/Field.java:194-216 | calExp fails only with a number format error |
| `FieldRules.CalExpFixed` | src/main/java/com/mxp/mdb/backend/tbm/Field.java:194-216 | the corrected calExp fails only with a number format error |
| `FieldRules.CalExpFixedSelects` | src/main/java/com/mxp/mdb/backend/tbm/Field.java:194-230 | on a numeric column the corrected range selects a value's key exactly when the value compares with the literal as asked, and the literal is refused only when it is not a number of the column's type |
| `FieldRules.CalExpAgrees` | src/main/java/com/mxp/mdb/backend/tbm/Field.java:194-230 | as written and corrected agree on success, and on = give the same range, for int32 and string columns |
| `TableRules.UidsToBytes` | src/main/java/com/mxp/mdb/backend/tbm/Table.java:83-86 | the column uids take eight bytes each |
| `TableRules.ParseUids` | src/main/java/com/mxp/mdb/backend/tbm/Table.java:72-76 | the column loop reads one uid per started eight bytes |
| `TableRules.TableToBytes` | src/main/java/com/mxp/mdb/backend/tbm/Table.java:80-89 | a table is stored as its name, the next table's uid and its column uids |
| `TableRules.ParseTable` | src/main/java/com/mxp/mdb/backend/tbm/Table.java:64-78 | parsing a table fails only when its bytes run out |
| `TableRules.UidsRoundTrip` | src/main/java/com/mxp/mdb/backend/tbm/Table.java:72-86 | column uids read back as written |
| `TableRules.TableRoundTrip` | src/main/java/com/mxp/mdb/backend/tbm/Table.java:64-89 | a table loads back as it was stored |
| `TableRules.NamesSnoc` | src/main/java/com/mxp/mdb/backend/tbm/Table.java:106-111 | adding a column adds its name |
| `TableRules.NamesCons` | src/main/java/com/mxp/mdb/backend/tbm/Table.java:106-111 | the names are the first column's and the rest's |
| `TableRules.RowPrefixFails` | src/main/java/com/mxp/mdb/backend/tbm/Table.java:108-111 | building the row fails exactly when some literal does not read, with a number format error |
| `TableRules.RowPrefixKeys` | src/main/java/com/mxp/mdb/backend/tbm/Table.java:108-111 | a row that reads holds exactly the names of its columns |
| `TableRules.RowPrefixAt` | src/main/java/com/mxp/mdb/backend/tbm/Table.java:108-111 | a column holds the value of the last literal of its name |
| `TableRules.RowMeaning` | src/main/java/com/mxp/mdb/backend/tbm/Table.java:102-113 | string2Entry fails with InvalidValues exactly when the count differs, with a number format error when a literal does not read, and otherwise gives each column name its literal's value |
| `TableRules.String2Entry` | src/main/java/com/mxp/mdb/backend/tbm/Table.java:102-113 | the loop builds the row of the specification |
| `TableRules.RowPrefixErr` | src/main/java/com/mxp/mdb/backend/tbm/Table.java:108-111 | once a literal fails the whole row fails the same way |
| `TableRules.FieldRaw` | src/main/java/com/mxp/mdb/backend/tbm/Table.java:118 | a column's bytes are its value's bytes when the value has the column's type; a null or mistyped value or an unknown type fails |
| `TableRules.EntryBytes` | src/main/java/com/mxp/mdb/backend/tbm/Table.java:115-121 | entry2Raw succeeds exactly when every column's bytes do |
| `TableRules.ThenEmpty` | src/main/java/com/mxp/mdb/backend/tbm/Table.java:116 | nothing in front leaves the outcome |
| `TableRules.ThenStep` | src/main/java/com/mxp/mdb/backend/tbm/Table.java:117-119 | one column of the loop: a failing column ends it, a good one appends its bytes |
| `TableRules.Entry2Raw` | src/main/java/com/mxp/mdb/backend/tbm/Table.java:115-121 | the loop gives the bytes of the specification |
| `TableRules.Decode` | src/main/java/com/mxp/mdb/backend/tbm/Table.java:230-239 | raw2Entry fails only when a column starts beyond the bytes |
| `TableRules.Raw2Entry` | src/main/java/com/mxp/mdb/backend/tbm/Table.java:230-239 | the loop gives the row of the specification |
| `TableRules.DecodeStep` | src/main/java/com/mxp/mdb/backend/tbm/Table.java:233-237 | one column reads its value and moves past the bytes it took |
| `TableRules.EntryBytesCons` | src/main/java/com/mxp/mdb/backend/tbm/Table.java:117-119 | a well-typed row's bytes are its first column's then the rest's |
| `TableRules.DecodeCons` | src/main/java/com/mxp/mdb/backend/tbm/Table.java:233-237 | a value's bytes in front of the rest decode to the rest's row with the value added |
| `TableRules.DecodeValue` | src/main/java/com/mxp/mdb/backend/tbm/Table.java:233-237 | the first column reads back from its value's bytes whatever surrounds them |
| `TableRules.ParseAfter` | src/main/java/com/mxp/mdb/backend/tbm/Table.java:234 | a value's bytes parse back after any prefix |
| `TableRules.RestrictCons` | src/main/java/com/mxp/mdb/backend/tbm/Table.java:233-237 | adding the first column's value to the rest's values gives all the columns' values |
| `TableRules.DecodeEntryBytes` | src/main/java/com/mxp/mdb/backend/tbm/Table.java:115-239 | the bytes of a well-typed row decode back to its values after any prefix |
| `TableRules.EntryRoundTrip` | src/main/java/com/mxp/mdb/backend/tbm/Table.java:115-239 | a row written by entry2Raw reads back by raw2Entry as the same row |
| `TableRules.ScanAsWrittenMissesNegative` | src/main/java/com/mxp/mdb/backend/tbm/Table.java:159-160 | as written the scan without where never reaches a negative key, while the corrected scan selects every key |
| `TableRules.FirstIndexed` | src/main/java/com/mxp/mdb/backend/tbm/Table.java:149-154 | the first indexed column, none before it being indexed, or none at all |
| `TableRules.FirstNamed` | src/main/java/com/mxp/mdb/backend/tbm/Table.java:163-171 | the first column of the name, none before it having the name, or none at all |
| `TableRules.Intersect` | src/main/java/com/mxp/mdb/backend/tbm/Table.java:217-222 | and keeps exactly the keys both ranges select |
| `TableRules.CalWhere` | src/main/java/com/mxp/mdb/backend/tbm/Table.java:190-228 | with the corrected key ranges: any logic operator other than none, and or or is InvalidLogOp; or gives two ranges, the others one |
| `TableRules.CalWhereSelects` | src/main/java/com/mxp/mdb/backend/tbm/Table.java:190-228 | with the corrected ranges, the ranges select exactly the keys that satisfy the clause |
| `TableRules.ParseWhere` | src/main/java/com/mxp/mdb/backend/tbm/Table.java:144-188 | without where the whole key space of the first indexed column is scanned (the source scans [0, MAX]), TableNoIndex when none is indexed; with where the first column of the first condition's name is used, FieldNotFound when none has it and FieldNotIndexed when it is not indexed |
| `TableRules.SearchIn` | src/main/java/com/mxp/mdb/backend/tbm/Table.java:183-185 | a tree search answers exactly the uids of its entries whose keys the range selects |
| `TableRules.PlanUids` | src/main/java/com/mxp/mdb/backend/tbm/Table.java:183-187 | the uids parseWhere returns are exactly those indexed under the column with a key some range selects |
| `TableRules.RowStore.constructor` | src/main/java/com/mxp/mdb/backend/tbm/Table.java:87 | a new row store is empty |
| `TableRules.RowStore.Read` | src/main/java/com/mxp/mdb/backend/tbm/Table.java:130 | a row's bytes, or nothing when it is not visible |
| `TableRules.RowStore.Delete` | src/main/java/com/mxp/mdb/backend/tbm/Table.java:297 | the row is deleted, and the answer says whether it was there |
| `TableRules.RowStore.Insert` | src/main/java/com/mxp/mdb/backend/tbm/Table.java:94 | a row is stored under the next uid |
| `TableRules.RowStore.AddKey` | src/main/java/com/mxp/mdb/backend/tbm/Table.java:97 | an index entry is added |
| `TableRules.LastOccurrence` | src/main/java/com/mxp/mdb/backend/tbm/Table.java:108-111 | every column name has a last column with that name |
| `TableRules.UpdateAsWrittenCastFails` | src/main/java/com/mxp/mdb/backend/tbm/Table.java:278-279 | as written, update of an int32 column to 2 fails the cast, while the corrected rewrite stores 2 |
| `TableRules.RewriteChangesOneColumn` | src/main/java/com/mxp/mdb/backend/tbm/Table.java:276-280 | a rewritten row reads back as the old row with the one column changed |
| `TableRules.IndexEntriesCover` | src/main/java/com/mxp/mdb/backend/tbm/Table.java:95-99 | every indexed column gets an entry for the new row under the corrected key of its value, and only the new row |
| `TableRules.ElemsSnoc` | src/main/java/com/mxp/mdb/backend/tbm/Table.java:129 | one more uid adds it to those seen |
| `TableRules.MapMinus` | src/main/java/com/mxp/mdb/backend/tbm/Table.java:296-300 | removing the deleted uids and then one more is removing them together |
| `TableRules.CountStep` | src/main/java/com/mxp/mdb/backend/tbm/Table.java:296-300 | the count of distinct live uids grows by one exactly for a live uid not seen before |
| `TableRules.Table.constructor` | src/main/java/com/mxp/mdb/backend/tbm/Table.java:37-41 | a table holds the name, next uid, columns and store given |
| `TableRules.Table.Insert` | src/main/java/com/mxp/mdb/backend/tbm/Table.java:92-100 | the literals become a row, stored under a new uid, and every indexed column gets the row's corrected key; a failure changes nothing |
| `TableRules.Table.InsertKeys` | src/main/java/com/mxp/mdb/backend/tbm/Table.java:95-99 | the loop adds the index entries of the new row under the corrected keys |
| `TableRules.Table.Read` | src/main/java/com/mxp/mdb/backend/tbm/Table.java:123-137 | the rows the corrected plan matches that the transaction sees, in index order, a uid met twice being read twice |
| `TableRules.Table.Delete` | src/main/java/com/mxp/mdb/backend/tbm/Table.java:292-302 | every visible row the corrected plan matches is deleted and the count is the number of distinct such rows |
| `TableRules.Table.Update` | src/main/java/com/mxp/mdb/backend/tbm/Table.java:256-290 | every visible row the corrected plan matches is deleted and reinserted under a new uid with the column changed to the converted literal; the count is the number of distinct such rows; a missing column is FieldNotFound |
| `TableRules.Table.UpdateOne` | src/main/java/com/mxp/mdb/backend/tbm/Table.java:270-288 | one pass of the corrected rewrite keeps the count and the live rows in step |
| `TableRules.Table.RewriteRow` | src/main/java/com/mxp/mdb/backend/tbm/Table.java:271-287 | a row the transaction does not see is skipped; a visible one is replaced by a new row under the next uid holding the literal converted to the column's type |
| `TableRules.Span` | src/main/java/com/mxp/mdb/backend/tbm/Table.java:280 | the uids from lo up to hi |
| `TableRules.UpdateKeys` | src/main/java/com/mxp/mdb/backend/tbm/Table.java:270-288 | after one row the live rows are the unhandled old ones plus the new uids |
| `TableRules.SpanStep` | src/main/java/com/mxp/mdb/backend/tbm/Table.java:280 | one more uid extends the span |
| `TableRules.ReadRowsErr` | src/main/java/com/mxp/mdb/backend/tbm/Table.java:129-135 | once a row fails the whole read fails the same way |
| `TableRules.InsertSucceeds` | src/main/java/com/mxp/mdb/backend/tbm/Table.java:92-121 | with the corrected keys, insert succeeds when the literals match the columns in number and type and the names are distinct and types known |
| `TableRules.InsertNeedsKnownTypes` | src/main/java/com/mxp/mdb/backend/tbm/Table.java:115-121 | insert fails with a column type it does not know |
| `TableRules.InsertedRowReadsBack` | src/main/java/com/mxp/mdb/backend/tbm/Table.java:92-239 | the row insert stores reads back with each column's literal |
| `TableRules.InsertedRowIndexed` | src/main/java/com/mxp/mdb/backend/tbm/Table.java:92-188 | after insert, where column = literal on an indexed column matches the row |
| `TableManager.LoadFields` | src/main/java/com/mxp/mdb/backend/tbm/Field.java:54-63 | loading the columns gives one column per uid |
| `TableManager.ChainLinks` | src/main/java/com/mxp/mdb/backend/tbm/TableManagerImpl.java:42-50 | the loaded chain starts at the boot uid, each table links to the next, the last links to 0, and every table's uid holds a record |
| `TableManager.CatalogNames` | src/main/java/com/mxp/mdb/backend/tbm/TableManagerImpl.java:48 | the catalogue holds exactly the names of the tables put into it, each under its own name |
| `TableManager.CatalogPrepend` | src/main/java/com/mxp/mdb/backend/tbm/TableManagerImpl.java:48 | putting a table of a new name first is adding it to the catalogue |
| `TableManager.LoadFieldsExtends` | src/main/java/com/mxp/mdb/backend/tbm/Field.java:54-63 | columns that load from some records load the same from records that extend them |
| `TableManager.LoadChainExtends` | src/main/java/com/mxp/mdb/backend/tbm/TableManagerImpl.java:42-50 | a chain that loads from some records loads the same from records that extend them |
| `TableManager.LoadTableExtends` | src/main/java/com/mxp/mdb/backend/tbm/Table.java:43-52 | a table that loads from some records loads the same from records that extend them |
| `TableManager.Columns` | src/main/java/com/mxp/mdb/backend/tbm/Table.java:54-62 | createTable makes at most one column per name |
| `TableManager.ColumnsMade` | src/main/java/com/mxp/mdb/backend/tbm/Table.java:56-60 | every column made is the one createField gives, and making stops exactly at the first rejected type |
| `TableManager.StoreFieldsAt` | src/main/java/com/mxp/mdb/backend/tbm/Field.java:99-104 | storing new column records keeps every old record and puts each column at its uid |
| `TableManager.LoadStoredFields` | src/main/java/com/mxp/mdb/backend/tbm/Field.java:54-104 | columns stored in their stored form load back as they were |
| `TableManager.AcceptedTypesStorable` | src/main/java/com/mxp/mdb/backend/tbm/Field.java:36-40 | the three accepted types are kept intact by the string codec |
| `TableManager.StoredTableLoads` | src/main/java/com/mxp/mdb/backend/tbm/Table.java:43-89 | the records after create keep the old ones, and the new table record loads back as the table |
| `TableManager.CreateThenLoad` | src/main/java/com/mxp/mdb/backend/tbm/TableManagerImpl.java:42-123 | a created table is loaded first from the new boot pointer, in front of all the old ones, and reloading gives the catalogue the creation left in memory |
| `TableManager.LevelMeaning` | src/main/java/com/mxp/mdb/backend/tbm/TableManagerImpl.java:62-69 | the transaction begin registers has a snapshot exactly when repeatable read was asked for, and reads by the matching rule (the documented repeatable-read rule above level 0) |
| `TableManager.Target` | src/main/java/com/mxp/mdb/backend/tbm/TableManagerImpl.java:125-180 | the table a row statement names; insert and read report a missing table, update and delete dereference it as null |
| `TableManager.ShowListsCreatedTwice` | src/main/java/com/mxp/mdb/backend/tbm/TableManagerImpl.java:83-101 | show lists each catalogue table once and then what the transaction created, so a table it created is listed twice |
| `TableManager.ListedCount` | src/main/java/com/mxp/mdb/backend/tbm/TableManagerImpl.java:88 | iterating over the catalogue visits as many tables as it holds |
| `TableManager.DistinctCount` | src/main/java/com/mxp/mdb/backend/tbm/TableManagerImpl.java:88 | a list without repeats has as many elements as its set |
| `TableManager.TableManagerImpl.constructor` | src/main/java/com/mxp/mdb/backend/tbm/TableManagerImpl.java:32-38 | a table manager starts with an empty catalogue and no created tables |
| `TableManager.TableManagerImpl.LoadTables` | src/main/java/com/mxp/mdb/backend/tbm/TableManagerImpl.java:42-50 | the catalogue is the chain from the boot pointer put in by name, or the load's failure |
| `TableManager.TableManagerImpl.LoadStep` | src/main/java/com/mxp/mdb/backend/tbm/TableManagerImpl.java:46-48 | one table moves from the rest of the chain to the loaded part and into the catalogue |
| `TableManager.TableManagerImpl.Begin` | src/main/java/com/mxp/mdb/backend/tbm/TableManagerImpl.java:62-69 | the version manager begins a transaction at the level asked for and the reply is begin |
| `TableManager.TableManagerImpl.Commit` | src/main/java/com/mxp/mdb/backend/tbm/TableManagerImpl.java:71-75 | the version manager commits the xid, its error is passed on, and the reply is commit |
| `TableManager.TableManagerImpl.Abort` | src/main/java/com/mxp/mdb/backend/tbm/TableManagerImpl.java:77-81 | the version manager aborts the xid and the reply is rollback |
| `TableManager.TableManagerImpl.Show` | src/main/java/com/mxp/mdb/backend/tbm/TableManagerImpl.java:83-101 | the catalogue's tables in map order, then those the xid created |
| `TableManager.TableManagerImpl.Create` | src/main/java/com/mxp/mdb/backend/tbm/TableManagerImpl.java:103-123 | a duplicate name fails with nothing changed; a rejected type fails after the earlier columns were stored; otherwise the columns and the table record are stored, the boot pointer moves to it, and it enters the catalogue and the xid's list |
| `TableManager.TableManagerImpl.Link` | src/main/java/com/mxp/mdb/backend/tbm/TableManagerImpl.java:111-118 | the table record is stored, the boot pointer moves to it, and it enters the catalogue and the xid's list |
| `TableManager.TableManagerImpl.MakeColumns` | src/main/java/com/mxp/mdb/backend/tbm/Table.java:56-60 | each column is made and its record stored until a rejected type, which fails as an invalid field |
| `TableManager.PrefixedEmpty` | src/main/java/com/mxp/mdb/backend/tbm/TableManagerImpl.java:45 | nothing loaded in front leaves the walk's outcome |
| `TableManager.WalkStep` | src/main/java/com/mxp/mdb/backend/tbm/TableManagerImpl.java:45-49 | one table of the walk moves from the rest of the chain to the loaded part |
| `TableManager.CatalogSnoc` | src/main/java/com/mxp/mdb/backend/tbm/TableManagerImpl.java:48 | putting one more table replaces its name's entry |
| `TableManager.ColumnAt` | src/main/java/com/mxp/mdb/backend/tbm/Table.java:57-60 | column i is the one createField gives, or the point where making stopped |
| `TableManager.StoreFieldsSnoc` | src/main/java/com/mxp/mdb/backend/tbm/Field.java:103 | storing one more column adds its record at its uid |
| `TableManager.PrefixedSnoc` | src/main/java/com/mxp/mdb/backend/tbm/TableManagerImpl.java:45-49 | moving a table from the rest to the loaded part keeps the outcome |
| `TableManager.CreateManager` | src/main/java/com/mxp/mdb/backend/tbm/TableManagerImpl.java:182-186 | a new table manager's boot pointer is 0 and its catalogue empty |
| `TableManager.OpenManager` | src/main/java/com/mxp/mdb/backend/tbm/TableManagerImpl.java:188-191 | an opened table manager's catalogue is the chain the boot pointer leads to |
| `SqlParser.TypeIsFieldType` | src/main/java/com/mxp/mdb/backend/parser/ParserSql.java:600-602 | the parser's type test accepts exactly the types the column type check accepts |
| `SqlParser.BeginFrom` | src/main/java/com/mxp/mdb/backend/parser/ParserSql.java:146-187 | `begin` fails only with an invalid command and otherwise yields a begin statement |
| `SqlParser.BareFrom` | src/main/java/com/mxp/mdb/backend/parser/ParserSql.java:197-219 | `commit`, `abort` and `show` yield their statement or an invalid command |
| `SqlParser.ColumnsFrom` | src/main/java/com/mxp/mdb/backend/parser/ParserSql.java:253-282 | the column loop never reads past the input and fails only with an invalid command or a missing index |
| `SqlParser.IndexFrom` | src/main/java/com/mxp/mdb/backend/parser/ParserSql.java:298-309 | the index loop fails only with an invalid command, or (as written) by never returning at the end of the input |
| `SqlParser.CreateFrom` | src/main/java/com/mxp/mdb/backend/parser/ParserSql.java:240-317 | `create` yields a create statement or one of the two errors, or never returns |
| `SqlParser.DropFrom` | src/main/java/com/mxp/mdb/backend/parser/ParserSql.java:330-349 | `drop` yields a drop statement or an invalid command |
| `SqlParser.SingleExpFrom` | src/main/java/com/mxp/mdb/backend/parser/ParserSql.java:457-478 | a comparison fails only with an invalid command and never reads past the input |
| `SqlParser.WhereFrom` | src/main/java/com/mxp/mdb/backend/parser/ParserSql.java:428-455 | a where clause fails only with an invalid command and never reads past the input |
| `SqlParser.SelectColumnsFrom` | src/main/java/com/mxp/mdb/backend/parser/ParserSql.java:366-387 | the field loop of `select` fails only with an invalid command |
| `SqlParser.SelectFrom` | src/main/java/com/mxp/mdb/backend/parser/ParserSql.java:364-415 | `select` yields a select statement, an invalid command or a missing-index error |
| `SqlParser.ValuesFrom` | src/main/java/com/mxp/mdb/backend/parser/ParserSql.java:504-512 | the value loop of `insert` always succeeds and stops at the end of the input |
| `SqlParser.InsertFrom` | src/main/java/com/mxp/mdb/backend/parser/ParserSql.java:491-516 | `insert` yields an insert statement or an invalid command |
| `SqlParser.UpdateFrom` | src/main/java/com/mxp/mdb/backend/parser/ParserSql.java:529-562 | `update` yields an update statement or an invalid command |
| `SqlParser.DeleteFrom` | src/main/java/com/mxp/mdb/backend/parser/ParserSql.java:575-590 | `delete` yields a delete statement or an invalid command |
| `SqlParser.StatementFrom` | src/main/java/com/mxp/mdb/backend/parser/ParserSql.java:83-116 | the dispatch fails only with the statement parsers' errors, and only `create` can fail to return |
| `SqlParser.Tokenizer.constructor` | src/main/java/com/mxp/mdb/backend/parser/ParserSql.java:76 | a new tokenizer stands at the first token |
| `SqlParser.Tokenizer.Pop` | src/main/java/com/mxp/mdb/backend/parser/ParserSql.java:78 | `pop` moves one token on, and no further than the end |
| `SqlParser.ParseBegin` | src/main/java/com/mxp/mdb/backend/parser/ParserSql.java:146-187 | the method's result and final position are those of the `begin` grammar |
| `SqlParser.ParseBare` | src/main/java/com/mxp/mdb/backend/parser/ParserSql.java:197-219 | the method's result and final position are those of the bare-keyword grammar |
| `SqlParser.ReadColumns` | src/main/java/com/mxp/mdb/backend/parser/ParserSql.java:251-282 | the loop's result and final position are those of the column grammar |
| `SqlParser.ReadIndexNames` | src/main/java/com/mxp/mdb/backend/parser/ParserSql.java:297-309 | the loop's result and final position are those of the index-list grammar |
| `SqlParser.ParseCreate` | src/main/java/com/mxp/mdb/backend/parser/ParserSql.java:240-317 | the method's result and final position are those of the `create` grammar |
| `SqlParser.ParseDrop` | src/main/java/com/mxp/mdb/backend/parser/ParserSql.java:330-349 | the method's result and final position are those of the `drop` grammar |
| `SqlParser.ParseSingleExp` | src/main/java/com/mxp/mdb/backend/parser/ParserSql.java:457-478 | the method's result and final position are those of the comparison grammar |
| `SqlParser.ParseWhere` | src/main/java/com/mxp/mdb/backend/parser/ParserSql.java:428-455 | the method's result and final position are those of the where grammar |
| `SqlParser.ReadSelectColumns` | src/main/java/com/mxp/mdb/backend/parser/ParserSql.java:365-387 | the loop's result and final position are those of the select field grammar |
| `SqlParser.ParseSelect` | src/main/java/com/mxp/mdb/backend/parser/ParserSql.java:364-415 | the method's result and final position are those of the `select` grammar |
| `SqlParser.ParseInsert` | src/main/java/com/mxp/mdb/backend/parser/ParserSql.java:491-516 | the method's result and final position are those of the `insert` grammar |
| `SqlParser.ParseUpdate` | src/main/java/com/mxp/mdb/backend/parser/ParserSql.java:529-562 | the method's result and final position are those of the `update` grammar |
| `SqlParser.ParseDelete` | src/main/java/com/mxp/mdb/backend/parser/ParserSql.java:575-590 | the method's result and final position are those of the `delete` grammar |
| `SqlParser.Parse` | src/main/java/com/mxp/mdb/backend/parser/ParserSql.java:75-135 | `parse` returns the statement of the whole input, and a statement followed by more tokens is invalid |
| `SqlGrammar.SelectFieldsFixed` | src/main/java/com/mxp/mdb/backend/parser/ParserSql.java:367-387 | the intended field list fails only with an invalid command |
| `SqlGrammar.SelectColsFixed` | src/main/java/com/mxp/mdb/backend/parser/ParserSql.java:365-387 | the intended `*`-or-fields list fails only with an invalid command |
| `SqlGrammar.OptWhereFrom` | src/main/java/com/mxp/mdb/backend/parser/ParserSql.java:407-413 | an optional where clause fails only with an invalid command |
| `SqlGrammar.SelectFixedFrom` | src/main/java/com/mxp/mdb/backend/parser/ParserSql.java:364-415 | the intended `select` yields a select statement or an invalid command |
| `SqlGrammar.FixedStatementFrom` | src/main/java/com/mxp/mdb/backend/parser/ParserSql.java:83-116 | the corrected dispatch never reads past the input |
| `SqlGrammar.SingleExpRoundTrip` | src/main/java/com/mxp/mdb/backend/parser/ParserSql.java:457-478 | a written comparison parses back to itself in three tokens |
| `SqlGrammar.WhereRoundTrip` | src/main/java/com/mxp/mdb/backend/parser/ParserSql.java:428-455 | a written where clause parses back to itself |
| `SqlGrammar.ColumnsStep` | src/main/java/com/mxp/mdb/backend/parser/ParserSql.java:253-282 | one turn of the column loop continues on `,`, stops on `(`, reports a missing index at the end and rejects anything else |
| `SqlGrammar.ColumnsLast` | src/main/java/com/mxp/mdb/backend/parser/ParserSql.java:275-276 | a column list that ends the input is a table without an index |
| `SqlGrammar.ColumnsRoundTrip` | src/main/java/com/mxp/mdb/backend/parser/ParserSql.java:251-282 | written column declarations followed by `(` parse back to themselves |
| `SqlGrammar.ColumnsRoundTripMore` | src/main/java/com/mxp/mdb/backend/parser/ParserSql.java:251-282 | the same for lists of two or more columns |
| `SqlGrammar.IndexRoundTrip` | src/main/java/com/mxp/mdb/backend/parser/ParserSql.java:297-309 | a written index list closed by `)` parses back to itself |
| `SqlGrammar.ValuesRoundTrip` | src/main/java/com/mxp/mdb/backend/parser/ParserSql.java:504-512 | the written values of `insert` parse back to themselves |
| `SqlGrammar.FieldsFixedRoundTrip` | src/main/java/com/mxp/mdb/backend/parser/ParserSql.java:367-387 | a written field list parses back to itself under the corrected loop |
| `SqlGrammar.CreateFromOk` | src/main/java/com/mxp/mdb/backend/parser/ParserSql.java:240-317 | `create` succeeds with the columns and indexes its loops read when the input ends after `)` |
| `SqlGrammar.CreateRoundTrip` | src/main/java/com/mxp/mdb/backend/parser/ParserSql.java:240-317 | a written well-formed `create` parses back to itself |
| `SqlGrammar.SelectFixedFromOk` | src/main/java/com/mxp/mdb/backend/parser/ParserSql.java:364-415 | the corrected `select` succeeds with the fields, table and where clause it reads |
| `SqlGrammar.SelectRoundTrip` | src/main/java/com/mxp/mdb/backend/parser/ParserSql.java:364-415 | a written well-formed `select` parses back to itself under the corrected parser |
| `SqlGrammar.InsertRoundTrip` | src/main/java/com/mxp/mdb/backend/parser/ParserSql.java:491-516 | a written well-formed `insert` parses back to itself |
| `SqlGrammar.DeleteRoundTrip` | src/main/java/com/mxp/mdb/backend/parser/ParserSql.java:575-590 | a written well-formed `delete` parses back to itself |
| `SqlGrammar.UpdateFromOk` | src/main/java/com/mxp/mdb/backend/parser/ParserSql.java:529-562 | `update t set f = v [where ...]` yields exactly those parts |
| `SqlGrammar.UpdateRoundTrip` | src/main/java/com/mxp/mdb/backend/parser/ParserSql.java:529-562 | a written well-formed `update` parses back to itself |
| `SqlGrammar.AsWrittenAccepts` | src/main/java/com/mxp/mdb/backend/parser/ParserSql.java:121-134 | a statement parser that reads the whole input makes `parse` accept its statement |
| `SqlGrammar.ParseRoundTrip` | src/main/java/com/mxp/mdb/backend/parser/ParserSql.java:75-135 | every well-formed statement parses back to itself under the corrected parser, and under the parser as written unless it is a `select` |
| `SqlGrammar.BeginForms` | src/main/java/com/mxp/mdb/backend/parser/ParserSql.java:146-187 | `begin` is accepted alone or with exactly one of the two isolation phrases, and each phrase selects its level |
| `SqlGrammar.BareForms` | src/main/java/com/mxp/mdb/backend/parser/ParserSql.java:197-219 | `commit`, `abort` and `show` are accepted alone and rejected with anything after them |
| `SqlGrammar.UnknownKeyword` | src/main/java/com/mxp/mdb/backend/parser/ParserSql.java:114-128 | an unknown first word is an invalid command, or an invalid statement when more tokens follow |
| `SqlGrammar.CreateWithoutIndexList` | src/main/java/com/mxp/mdb/backend/parser/ParserSql.java:273-276 | a `create` whose columns end the input is refused because the table has no index |
| `SqlGrammar.CreateFromColumnsErr` | src/main/java/com/mxp/mdb/backend/parser/ParserSql.java:253-282 | a failure in the column list is the failure of `create` |
| `SqlGrammar.ParsesTo` | src/main/java/com/mxp/mdb/backend/parser/ParserSql.java:121-134 | when a statement parser reads to the end its result is the result of `parse` |
| `SqlGrammar.SelectAsWrittenRefused` | src/main/java/com/mxp/mdb/backend/parser/ParserSql.java:364-393 | `select * from t` and `select f from t` are refused as written and accepted by the corrected parser |
| `SqlGrammar.SelectAsWrittenWantsTwoFroms` | src/main/java/com/mxp/mdb/backend/parser/ParserSql.java:384-393 | as written, `select` accepts a doubled `from` |
| `SqlGrammar.CreateUnclosedIndexDiverges` | src/main/java/com/mxp/mdb/backend/parser/ParserSql.java:298-309 | as written, an index list that the input ends inside never returns |
| `SqlGrammar.CreateUnclosedIndexRefused` | src/main/java/com/mxp/mdb/backend/parser/ParserSql.java:298-309 | the corrected index loop refuses the same input |
| `SqlGrammar.IndexFixedAgrees` | src/main/java/com/mxp/mdb/backend/parser/ParserSql.java:298-309 | the corrected index loop differs from the original only where the original never returns |
| `SqlGrammar.CreateFixedAgrees` | src/main/java/com/mxp/mdb/backend/parser/ParserSql.java:240-317 | the corrected `create` differs from the original only where the original never returns |
| `SqlGrammar.ParseFixedAgrees` | src/main/java/com/mxp/mdb/backend/parser/ParserSql.java:75-135 | outside `select`, the corrected parser differs from the original only where the original never returns |
| `Executor.Executor.constructor` | src/main/java/com/mxp/mdb/backend/server/Executor.java:18-20 | a new connection has no open transaction |
| `Executor.Executor.Execute` | src/main/java/com/mxp/mdb/backend/server/Executor.java:29-56 | the reply, the connection's transaction and the calls to the table manager are those of the statement's specification |
| `Executor.Executor.ExecuteStatement` | src/main/java/com/mxp/mdb/backend/server/Executor.java:58-96 | the reply, the connection's transaction and the calls are those of running the statement in a transaction |
| `Executor.Executor.Close` | src/main/java/com/mxp/mdb/backend/server/Executor.java:22-27 | closing a connection aborts its open transaction, and does nothing without one |
| `Executor.ParseErrorChangesNothing` | src/main/java/com/mxp/mdb/backend/server/Executor.java:29-30 | a statement that does not parse is answered with its error and changes nothing |
| `Executor.BeginOpensOnce` | src/main/java/com/mxp/mdb/backend/server/Executor.java:32-38 | `begin` is refused inside an open transaction and otherwise opens exactly one |
| `Executor.EndClosesOpenTransaction` | src/main/java/com/mxp/mdb/backend/server/Executor.java:39-52 | `commit` and `abort` need an open transaction and close it when the table manager accepts |
| `Executor.ExplicitTransactionStaysOpen` | src/main/java/com/mxp/mdb/backend/server/Executor.java:58-82 | inside an open transaction a statement makes its one call there and leaves the transaction open |
| `Executor.TemporaryTransactionIsClosed` | src/main/java/com/mxp/mdb/backend/server/Executor.java:59-95 | without an open transaction a statement gets a temporary one, committed on success and aborted on failure, and the connection is left without one |

## Left out

- Networking, the server's thread pool, the client, the shell and the socket transport: they only move bytes between a console and the executor. The executor's replies are values; the encoder's framing is modelled.
- Concurrency: the locks (`ReentrantLock`, `ReadWriteLock`), `AtomicInteger` and interleavings are not modelled; every operation runs alone. The cache's busy wait for a key another thread is loading cannot arise then, and is left out.
- Waiting for a lock: `LockSupport.park`/`unpark` in the lock table become a `Waiting` outcome (the version manager reports the caller blocked); the waiter's thread is not modelled, only that it registered one.
- Durability: `FileChannel`, `RandomAccessFile` and `force` become byte sequences for the xid file, the page file and the log; the order in which writes reach the disk is not modelled.
- Randomness: the random bytes of the first page's open stamp are a parameter.
- backend/utils/Parser.java is not part of this model: its byte codecs are modelled as big-endian, as `java.nio.ByteBuffer` writes, with their inverses proved, and `addressToUid` as page number in the high 32 bits and offset in the low 16.
- The tokenizer is not part of this model: statements are parsed from a sequence of tokens, where `peek` at the end is "" and `pop` at the end stays put; its letter test is taken to be ASCII letters.
- Number text: `Integer.parseInt`, `Long.parseLong` and `String.valueOf` are modelled on decimal text with an optional sign and ASCII digits; the other Unicode digits Java accepts are not.
- Text output: the contents of `printValue`, `toString` and the table listing of `show` are kept as the characters the model builds, not Java's exact formatting.
- Booter.java (boot file rewritten through a temporary file): the boot pointer is one field of the table manager model.
- The version manager's entry cache: entries are read from and written to a map of versions standing in for the data manager, with no caching.
- Version manager rows in tables: a table works on a row store that stands for the rows its transaction sees and for the entries of its column trees, not on the version manager and B+ tree models themselves; the table and column catalogue is a map of records read by the super transaction.
- The B+ tree works on a map of node records standing in for the data manager; node locking and the data items' before/after images around node writes are not modelled.
- Walks that follow links stored in the data (B+ tree sibling chains and descents, the table chain at load) take a step bound; where the engine would loop forever on a cyclic chain the model stops with `OutOfSteps`.
- `close` methods that only close files or the layer below (the log, the xid file, the version manager, the table manager) are not modelled; the cache, page cache, data manager and executor `close` are.
- AbstractCache.Cache.Release: requires the key to hold a reference; the engine on a key it does not hold fails with a null pointer, which is not modelled.
- Executor.Executor.Execute: runs the corrected parser (`SqlGrammar.ParseFixed`), so that `select` statements can be run at all; the parser as written is `SqlParser.ParseTokens`, and `SqlGrammar.ParseFixedAgrees` shows the two differ only on `select` and where the original never returns.
- Encoder.Decode: an error frame's payload is kept as its bytes; the engine builds the message with `new String(raw)` in the platform charset, which replaces malformed byte sequences, and no charset is modelled.
- Encoder.FrameRoundTrip: holds of the model's byte-level error text; in the engine it holds for data frames and for error payloads that are well-formed text in the platform charset (under UTF-8 the frame `[1, 0xFF]` comes back as `[1, 0xEF, 0xBF, 0xBD]`).
- Visibility.IsVisible: above level 0 it applies the documented rule `RepeatableRead`, where Visibility.java:69 tests the reader's own xid (`RepeatableReadAsWritten`); `RepeatableReadAgrees` proves the two differ only on a version whose creator is in the reader's snapshot, which the documented rule hides and the rule as written shows once that creator has committed (a reader is never in its own snapshot, `OwnXidNotInSnapshot`).
- Visibility.IsVersionSkip: tests the deleter against the snapshot, where Visibility.java:26 tests the reader (`VersionSkipAsWritten`); `VersionSkipAgrees` proves the two differ only on a committed deleter in the reader's snapshot, which only the intended test flags.
- VersionManager.VersionManagerImpl.Read: decides visibility with `IsVisible`, so it hides a version whose committed creator is in the reader's snapshot, which the engine returns.
- VersionManager.VersionManagerImpl.Delete: decides visibility with `IsVisible`, with the same difference as `Read`.
- VersionManager.VersionManagerImpl.FinishDelete: aborts on the intended `IsVersionSkip`, so a delete of a version whose committed deleter is in the snapshot aborts here and goes through in the engine.
- VersionManager.VersionManagerImpl.LockThenDelete: finishes the delete with `IsVisible` and `IsVersionSkip`, with both differences above.
- TableManager.LevelMeaning: "the matching rule" above level 0 is the documented `RepeatableRead`, not the rule as written.
- LockTable.LockTable.Remove: hands each uid off with the new owner added to its `xid2uids` list (`HandOff(..., true)`), which LockTable.java:129 does not do; `ReleaseAsWrittenAgrees` proves the two differ only in the acquired lists, where as written a handed-off uid is never listed under its new owner and stays held after that owner is removed (`ReleaseAsWrittenStrands`).
- LockTable.LockTable.SelectNewXid: records the new owner, with the same difference as `Remove`.
- Recover.Step: undoing an insert writes the record flagged invalid into its page and fails when that image leaves the page; Recover.java:197-205 flags only the parsed copy and releases the page unchanged (`StepAsWritten`, replayed by `ReplayAsWritten`). `ReplayAgrees` and `UndoAgrees` prove the two agree on every redo pass and on every undo pass without inserts.
- Recover.StepWritesImage: describes the corrected step; as written an undone insert writes nothing (`UndoInsertKeepsRecordValid`).
- Recover.DoStep: runs the corrected step, with the same difference as `Step`.
- Recover.UndoAll: replays with the corrected step, with the same difference as `Step`.
- Recover.UndoNext: replays with the corrected step, with the same difference as `Step`.
- Recover.UndoGroup: replays with the corrected step, with the same difference as `Step`.
- Recover.RecoverDb: the recovered file has the records of unfinished inserts flagged invalid, and recovery also fails when such a record does not fit its page; the engine leaves those records valid and does not fail there.
- DataManager.DataManager.LoadPageOne: recovers with `RecoverImage`, the corrected recovery, with the same difference as `Recover.RecoverDb`.
- DataManager.DataManager.Open: recovers with the corrected recovery, with the same difference as `Recover.RecoverDb`.
- DataManager.DataManager.Read: bypasses the data-item cache (`AbstractCache<DataItem>`, DataManagerImpl.java:108 and 169-171); every read parses a fresh item and pins its page again, where the engine hands back the same cached item for a uid it holds. Object identity is not modelled.
- DataItem.ParseDataItem: fails at once with `Panic` when the size field wraps below 3 or the record runs past the page; the engine builds the item anyway (`copyOfRange` pads, `SubArray` is unchecked) and fails only at a later access.
- DataManager.SelectLoopProperties: holds for the corrected select `SelectFitting`; DataManagerImpl.java:125 calls `select` as written, and `PageIndex.SelectFittingAgrees` proves the two differ exactly on a top-bucket request whose top-bucket head lacks room (an 8180-byte record offered a page with 8170 bytes free).
- DataManager.SelectLoopServes: holds for the corrected select; as written an 8180-byte record can be offered a page that is too small and then fails in `CommonPage.insert`.
- DataManager.DataManager.SelectPage: selects with `SelectFitting`, with the same difference as `SelectLoopProperties`.
- DataManager.DataManager.Attempt: selects with `SelectFitting`, with the same difference as `SelectLoopProperties`.
- DataManager.DataManager.Insert: selects with `SelectFitting`, so the engine's failure of a record placed on a page without room does not arise.
- BPlusTree.InsertThenSearchFinds: stated only for a root that is a single leaf with room and no sibling; that a search finds every inserted uid in a tree with internal nodes, or after a split, is not proved (it needs a tree invariant over sorted keys, separator bounds and sibling chains across records).
- BPlusTree.BTree.Search: proved sound (only uids indexed under the key), not complete, beyond a single leaf.
- BPlusTree.BTree.SearchRange: proved sound (only uids indexed under keys in the range), not complete, beyond a single leaf.
- TableRules.CalWhere: the ranges come from `FieldRules.CalExpFixed` (exact ranges, int64 keys of their own width); Table.java:190-228 calls `calExp` as written (`FieldRules.CalExp`), whose `<` clips at 0, whose `>` wraps on the largest long and whose int64 key refuses values outside the int range; `FieldRules.CalExpAgrees` and `FieldRules.Value2UidAgrees` state where they agree.
- TableRules.ParseWhere: without `where` it scans the whole key space, where Table.java:159-160 scans `[0, MAX]` and misses negative keys (`ScanAsWrittenMissesNegative`); the ranges with `where` are those of `CalWhere`.
- TableRules.IndexEntriesCover: the keys are `Value2UidFixed`; the engine computes no key for an int64 value of 2^31 or more and throws.
- TableRules.Table.InsertKeys: keys with `Value2UidFixed`, with the same difference as `IndexEntriesCover`.
- TableRules.Table.Insert: with the corrected key an int64 value of 2^31 or more is indexed; the engine's `value2Uid` throws there after the row was stored (Table.java:92-99), so its insert fails and leaves the row behind.
- TableRules.InsertSucceeds: holds with the corrected key; in the engine an indexed int64 value of 2^31 or more makes the insert fail.
- TableRules.Table.Read: matches rows through the corrected plan of `ParseWhere`, with the differences of `CalWhere` and `ParseWhere`.
- TableRules.Table.Delete: matches rows through the corrected plan; `delete from t where id < 0` leaves a row with id 0 alone here, which the engine's range `[0, 0]` deletes.
- TableRules.Table.Update: matches rows through the corrected plan and converts the new literal with `string2Value` before storing it; the engine stores the text and fails the cast after the old row was deleted (`UpdateAsWrittenCastFails`).
- TableRules.Table.UpdateOne: one pass of the corrected rewrite, with the same difference as `Update`.
- TableRules.Table.RewriteRow: stores the converted literal, with the same difference as `Update`.

## Findings

| source | as written | input that shows it | evidently intended | confidence | as-written member | corrected member |
|---|---|---|---|---|---|---|
| src/main/java/com/mxp/mdb/backend/dm/logger/LoggerImpl.java:116 | opening a log ends with `rewind`, which leaves the write position at 4, so the next `log` writes over the first record | a log holding one record `[1]`, reopened, then `[1]` logged: the header checksum no longer matches and the next open refuses the file | new records are appended after the last valid record | not executed | `Logger.LogAfterOpenOverwrites` | `Logger.LogFile.OpenAtEnd` |
| src/main/java/com/mxp/mdb/backend/dm/logger/LoggerImpl.java:91-110 | the file size is recorded before a torn tail is cut off and is not updated after the cut | a 12-byte log whose one record declares 5 data bytes but has 0: after the cut to 4 bytes, the stale size lets eight zero bytes past the cut read as a well-formed empty record | the scan stops at the end of the cut file | not executed | `Logger.StaleSizeYieldsEmptyRecord` | `Logger.LogFile.OpenAtEnd` |
| src/main/java/com/mxp/mdb/backend/dm/pageIndex/PageIndex.java:46-49 | a request in the top bucket (8160 bytes or more) is served from the top bucket itself | `select(8180)` with one page of 8170 free bytes in bucket 40 returns that page | the page returned has at least the requested room | not executed | `PageIndex.SelectTopBucketShortfall` | `PageIndex.PageIndex.SelectFitting` |
| src/main/java/com/mxp/mdb/backend/vm/Visibility.java:69 | repeatable read tests `isInSnapshot(xid)` (the reader's own xid, never in its snapshot) instead of the creator `xmin` | reader 2 begun while 1 was active sees version (xmin 1, xmax 0) once 1 commits, after not seeing it before | a creator active when the reader began stays invisible, so reads repeat | not executed | `Visibility.RepeatableReadAsWrittenNotStable` | `Visibility.RepeatableReadStable` |
| src/main/java/com/mxp/mdb/backend/vm/Visibility.java:26 | the version-skip test checks `isInSnapshot(t.xid)` instead of the deleter `xmax` | reader 3 with snapshot {0, 2} sees version (1, 2); 2 commits; deleting it is not flagged as a skip | a committed delete by a transaction the reader cannot see is a version skip | not executed | `Visibility.VersionSkipAsWrittenMisses` | `Visibility.VisibleCommittedDeleteIsSkip` |
| src/main/java/com/mxp/mdb/backend/dm/Recover.java:197-205 | undoing an insert flips the valid flag in the parsed log copy only; the page is fetched and released unchanged | any insert by a transaction still active at the crash whose page reached the file: the record is still valid after recovery | the inserted record is flagged invalid in its page | not executed | `Recover.UndoInsertKeepsRecordValid` | `Recover.UndoInsertInvalidates` |
| src/main/java/com/mxp/mdb/backend/vm/LockTable.java:129 | the hand-off records the new owner in `uid2xid` but not in its `xid2uids` list | xid 1 takes uid 7, xid 2 waits for it, remove 1, remove 2: uid 7 stays held by 2 for good | the new owner's list gains the uid, so removing it frees the uid | not executed | `LockTable.ReleaseAsWrittenStrands` | `LockTable.ReleaseKeepsConsistent` |
| src/main/java/com/mxp/mdb/backend/tbm/Field.java:218-230 | int32 keys are parsed with `Long.parseLong` and int64 keys with `Integer.parseInt` | an int64 column value 2147483648: its key cannot be computed and the insert throws | each type parsed with its own width | not executed | `FieldRules.Value2UidRefusesWideLong` | `FieldRules.KeyOrder` |
| src/main/java/com/mxp/mdb/backend/tbm/Field.java:199-209 | `>` v gives `[v+1, MAX]` with `v+1` wrapping, and `<` v gives `[0, v-1]` or `[0, 0]` | `> 9223372036854775807` selects every key; `< 0` selects key 0; `< 5` misses key -1 | a key is selected exactly when the comparison holds | not executed | `FieldRules.KeyRangeMisses` | `FieldRules.KeyRangeFixedSelects` |
| src/main/java/com/mxp/mdb/backend/tbm/Table.java:159-160 | a statement without `where` scans `[0, MAX]` of the first indexed column | a row whose first indexed column holds -1 is never read, updated or deleted | the whole key space is scanned | not executed | `TableRules.ScanAsWrittenMissesNegative` | `TableRules.ParseWhere` |
| src/main/java/com/mxp/mdb/backend/tbm/Table.java:278-279 | `update` puts the literal text into the row and then casts it to the column's type | `update` of int32 column `id` to `2`: the cast fails after the old row was already deleted | the literal is converted with `string2Value` first | not executed | `TableRules.UpdateAsWrittenCastFails` | `TableRules.RewriteChangesOneColumn` |
| src/main/java/com/mxp/mdb/backend/parser/ParserSql.java:364-393 | the field loop of `select` stops on `from`, which the code then pops before demanding a second `from` | `select * from t` is refused, `select * from from t` accepted | `*` or field names, then `from`, the table and an optional `where` | not executed | `SqlGrammar.SelectAsWrittenRefused` | `SqlGrammar.SelectRoundTrip` |
| src/main/java/com/mxp/mdb/backend/parser/ParserSql.java:298-309 | the index loop of `create` ends only on `)`; at the end of input `pop` stays put and "" passes `isName` | `create table t n int32 ( index i` never returns | an unterminated index list is an invalid command | not executed | `SqlGrammar.CreateUnclosedIndexDiverges` | `SqlGrammar.CreateUnclosedIndexRefused` |
| src/main/java/com/mxp/mdb/backend/tm/MDBTransactionManager.java:198-218 | `checkXID` has no case for the super xid 0, whose position is byte 7 of the counter | on a freshly created xid file `isCommitted(0)` is false and `isActive(0)` true | the super xid is always committed, as the class comment says | not executed | `TransactionManager.SuperXidFollowsCounter` | `TransactionManager.BegunStatuses` |
