# customdb, modelled in Dafny

A model of the storage, table, parser and index core of customdb, a small
Java relational database, with proofs of what that code promises. Each Java
class becomes a Dafny module:

| module | file | models |
|---|---|---|
| `Bytes` | bytes.dfy | bytes and the big-endian `int`/`long` encodings of `DataOutput` and `ByteBuffer` |
| `Wrappers` | wrappers.dfy | `Option` and `Result`, standing in for `null` returns and thrown exceptions |
| `Disk` | disk_manager.dfy | `DiskManager`: the page file as a flat byte sequence and the page-id counter (a class) |
| `Buffer` | buffer_pool.dfy | `BufferPool`: the access-ordered LRU cache of `Page` objects with dirty flags (classes) |
| `Wal` | wal.dfy | `WALManager`: the record encoder and decoder, the append-only log (a class) and the two-pass `recover` |
| `Transactions` | transaction_manager.dfy | `TransactionManager`: ids, undo lists, SAFE and FAST commit, rollback (a class) |
| `Schemas` | schema.dfy | `Schema` |
| `Tuples` | tuple.dfy | `Tuple`: the constructor check, `serialize`, `deserialize`, `toString` |
| `HeapPage` | heap_page.dfy | the slotted page layout `Table` reads and writes, as functions over a page's bytes |
| `Tables` | table.dfy | `Table`: insert, update, delete, read, scan and the free-space search, over the pool (a class) |
| `BPlusTree` | bplus_tree.dfy | `BPlusLeafNode`, `BPlusInternalNode` and `BPlusTreeIndex` |
| `IndexManager` | index_manager.dfy | `IndexManager`: trees kept by name (a class) |
| `JavaStrings` | java_string.dfy | the `java.lang.String` operations the parser is made of |
| `SqlParser` | sql_parser.dfy | `SQLParser` and the statement records of `sql/` |
| `SqlRender` | sql_render.dfy | the SQL text each statement parser is written for, and the proofs that `parse` reads it back |

State that Java changes in place stays mutable. `DiskManager`, `BufferPool`,
`Page`, `WALManager`, `TransactionManager`, `Table`, `BPlusTreeIndex` and
`IndexManager` are classes. Their methods carry `modifies` clauses and
postconditions. Each postcondition ties the new state to a specification
function of the old state. Code that only computes becomes functions.
Examples are record encoding, the recovery passes, the page layout, tuple
encoding and the parser. Lemmas relate those functions to one another.

Every Java `int` and `long` that can overflow is a bounded subset type, and
the arithmetic wraps where the code's does (`Wrap32`, `Wrap64`). A thrown
exception is an `Err` that carries the exception's name. The main properties
are:

- the WAL decoder inverts the encoder;
- recovery redoes exactly the committed after-images, in log order, and is
  idempotent;
- rollback restores each page to its earliest before-image;
- a SAFE commit survives recovery;
- on packed pages, inserts read back and scans see the new row;
- the tuple codec round-trips;
- B+ tree search is complete for distinct keys;
- parsing a rendered statement gives the statement back, for each of the five
  statement kinds.

The page size is 4096 bytes. `Page.java` is not part of this model. Its
`PAGE_SIZE` is taken as that constant, and `Page` itself is the class
`Buffer.Page`.

Where the code and its design notes disagree, the model follows the code:

- `logCommit` and `logAbort` append without syncing (WALManager.java:25-31).
  Only `flush` makes the log durable.
- `parse` accepts UPDATE (SQLParser.java:40).
- `getPage` evicts the least recently *accessed* page, with `markDirty`
  counting as an access (BufferPool.java:15, 55).

## Model

| member | source | states |
|---|---|---|
| Bytes.Int32RoundTrip | src/main/java/edu/mora/db/storage/WALManager.java:98-104 | reading back the four big-endian bytes that writeInt emits gives the same int, for every int |
| Bytes.Int32Canonical | src/main/java/edu/mora/db/storage/WALManager.java:57-60 | every four bytes are the writeInt encoding of the int readInt reads from them |
| Bytes.Int64RoundTrip | src/main/java/edu/mora/db/storage/WALManager.java:98-104 | reading back the eight big-endian bytes that writeLong emits gives the same long |
| Bytes.Int64Canonical | src/main/java/edu/mora/db/storage/WALManager.java:57-60 | every eight bytes are the writeLong encoding of the long readLong reads from them |
| Bytes.Wrap32 | src/main/java/edu/mora/db/storage/DiskManager.java:13 | a narrowing cast to int keeps every value already in int range and otherwise differs by a multiple of 2^32 |
| Disk.WriteAt | src/main/java/edu/mora/db/storage/DiskManager.java:22-25 | seek then write overwrites exactly the written range, keeps every other byte, grows the file only when the write ends past it, and zero-fills a gap |
| Disk.ReadAfterWrite | src/main/java/edu/mora/db/storage/DiskManager.java:22-32 | readPage(id) after writePage(id, d) with a full page d returns d |
| Disk.WriteKeepsOtherPages | src/main/java/edu/mora/db/storage/DiskManager.java:22-32 | a whole-page write leaves the image of every other existing page unchanged |
| Disk.WriteKeepsWholePages | src/main/java/edu/mora/db/storage/DiskManager.java:22-25 | whole-page writes keep the file a whole number of pages long |
| Disk.ApplyWritesGrows | src/main/java/edu/mora/db/storage/DiskManager.java:22-25 | a sequence of writes never shrinks the file or loses a page |
| Disk.LastWriteWins | src/main/java/edu/mora/db/storage/DiskManager.java:22-32 | after a series of whole-page writes, each page reads as its last write |
| Disk.UnwrittenPageKept | src/main/java/edu/mora/db/storage/DiskManager.java:22-32 | a page that none of a series of writes touches reads as before |
| Disk.DiskManager.constructor | src/main/java/edu/mora/db/storage/DiskManager.java:11-14 | opening keeps the file and sets the next id to its length divided by PAGE_SIZE, cast to int |
| Disk.DiskManager.AllocatePage | src/main/java/edu/mora/db/storage/DiskManager.java:16-20 | returns the old counter and advances it by one (with int wrap-around); the new page reads back as PAGE_SIZE zeros; once the counter is negative the seek fails and nothing is written |
| Disk.DiskManager.WritePage | src/main/java/edu/mora/db/storage/DiskManager.java:22-25 | the file becomes the old file overwritten at id * PAGE_SIZE by d; the counter is unchanged; a whole page written reads back through ReadPage as written |
| Disk.DiskManager.ReadPage | src/main/java/edu/mora/db/storage/DiskManager.java:27-32 | succeeds exactly when the file holds the whole page, and then returns its PAGE_SIZE bytes |
| Buffer.Page.constructor | src/main/java/edu/mora/db/storage/BufferPool.java:45 | a new page is clean and holds PAGE_SIZE zero bytes in a fresh array |
| Buffer.MoveToEnd | src/main/java/edu/mora/db/storage/BufferPool.java:15-41 | an access moves one entry to the most recently used end and keeps the relative order of all others |
| Buffer.Evict | src/main/java/edu/mora/db/storage/BufferPool.java:17-26 | the eldest entry is dropped exactly when the map holds more than capacity entries |
| Buffer.Touch | src/main/java/edu/mora/db/storage/BufferPool.java:38-49 | a hit keeps the number of resident pages; a miss adds one, unless that goes over capacity |
| Buffer.LastAccessedStay | src/main/java/edu/mora/db/storage/BufferPool.java:15-49 | starting empty, accessing distinct pages leaves exactly the last capacity of them resident, in access order |
| Buffer.ReaccessOrder | src/test/java/edu/mora/db/storage/BufferPoolTest.java:58-65 | the accesses p1, p2, p1, p2, p2 leave p1 least recently used |
| Buffer.ReaccessChangesVictim | src/test/java/edu/mora/db/storage/BufferPoolTest.java:58-70 | the following access to p3 evicts p1 and keeps the dirty p2 resident |
| Buffer.WriteBackImages | src/main/java/edu/mora/db/storage/BufferPool.java:74-79 | evicting a page writes it only if dirty; afterwards the file holds the cached bytes for it and every other page is unchanged |
| Buffer.LoadKeeps | src/main/java/edu/mora/db/storage/BufferPool.java:17-48 | a miss, with the eviction it may cause, keeps the pool coherent with the file and changes no page's view |
| Buffer.EvictKeeps | src/main/java/edu/mora/db/storage/BufferPool.java:17-25 | dropping the eldest entry after writing it back if dirty changes no page's view (also lines 74-79) |
| Buffer.MoveKeeps | src/main/java/edu/mora/db/storage/BufferPool.java:40-41 | a hit only reorders the cache: ids stay distinct, coherence is kept and no view changes |
| Buffer.SetDirtyKeeps | src/main/java/edu/mora/db/storage/BufferPool.java:54-57 | setting the dirty flag of the one page a caller changed restores coherence and changes no view |
| Buffer.FlushStep | src/main/java/edu/mora/db/storage/BufferPool.java:63-67 | writing back one entry and clearing its flag keeps coherence and every view |
| Buffer.TouchHit | src/main/java/edu/mora/db/storage/BufferPool.java:40-41 | the frames' recency order after a hit is Touch of the old order |
| Buffer.TouchMiss | src/main/java/edu/mora/db/storage/BufferPool.java:44-47 | the frames' recency order after a miss is Touch of the old order |
| Buffer.BufferPool.constructor | src/main/java/edu/mora/db/storage/BufferPool.java:30-33 | a new pool is empty and valid |
| Buffer.BufferPool.GetPage | src/main/java/edu/mora/db/storage/BufferPool.java:38-49 | a hit returns the cached Page and makes it most recently used without touching the file; a miss appends a fresh clean page holding the file's bytes and evicts the eldest (written back if dirty) when over capacity; a miss past end of file fails; the size never exceeds capacity, and a coherent pool stays coherent with unchanged views |
| Buffer.BufferPool.Load | src/main/java/edu/mora/db/storage/BufferPool.java:45-47 | a fresh page holding the file's bytes becomes most recently used, followed by the eviction rule |
| Buffer.BufferPool.MarkDirty | src/main/java/edu/mora/db/storage/BufferPool.java:54-57 | a resident page gets the flag and becomes most recently used; a missing page changes nothing; views never change |
| Buffer.BufferPool.FlushAll | src/main/java/edu/mora/db/storage/BufferPool.java:62-68 | the file receives one write per dirty page in recency order, every flag is cleared, order and bytes are untouched, and a coherent pool ends with every cached page equal to its file image |
| Buffer.BufferPool.WriteBackEntry | src/main/java/edu/mora/db/storage/BufferPool.java:64-67 | one iteration: entry i is written if dirty and its flag cleared |
| Wal.Payload | src/main/java/edu/mora/db/storage/WALManager.java:33-46 | an UPDATE payload is pageId, the before length and bytes, then the after length and bytes (12 bytes plus both images); BEGIN, COMMIT and ABORT have none |
| Wal.Encode | src/main/java/edu/mora/db/storage/WALManager.java:94-104 | a record takes 13 header bytes plus its payload |
| Wal.EncodeAllSnoc | src/main/java/edu/mora/db/storage/WALManager.java:98-104 | appending one more record extends the log by exactly its encoding and keeps the bytes already there (also line 17) |
| Wal.ReadHeader | src/main/java/edu/mora/db/storage/WALManager.java:58-60 | reading len, type and txId succeeds exactly when 13 bytes remain |
| Wal.Skip | src/main/java/edu/mora/db/storage/WALManager.java:65-84 | skipBytes skips nothing for a non-positive count and never moves past the end of the file |
| Wal.ReadUpdateBody | src/main/java/edu/mora/db/storage/WALManager.java:75-81 | reading an update body consumes at least 12 bytes and never more than remain |
| Wal.HeaderRoundTrip | src/main/java/edu/mora/db/storage/WALManager.java:57-102 | a header written by writeInt, writeByte and writeLong reads back as written, leaving the bytes after it |
| Wal.BodyRoundTrip | src/main/java/edu/mora/db/storage/WALManager.java:35-44 | an update payload reads back as the page id and both images, and reading it consumes exactly its bytes (also lines 75-81) |
| Wal.HeaderOfEncoded | src/main/java/edu/mora/db/storage/WALManager.java:57-65 | the header of an encoded record reads back with len = 9 + payload length, and skipping len - 9 lands on the next record (also lines 98-104) |
| Wal.BodyOfEncoded | src/main/java/edu/mora/db/storage/WALManager.java:33-46 | the payload of an encoded UPDATE reads back as its page id and images (also lines 74-81) |
| Wal.AnalysisOfEncoded | src/main/java/edu/mora/db/storage/WALManager.java:54-66 | the first pass over a log written by the log methods finds exactly the ids with a COMMIT record |
| Wal.RedoOfEncoded | src/main/java/edu/mora/db/storage/WALManager.java:68-86 | the second pass over such a log writes the after-image of every UPDATE of a committed id, in log order, and nothing else |
| Wal.RecoverEncoded | src/main/java/edu/mora/db/storage/WALManager.java:53-87 | recovering a log written by the log methods returns normally and applies, in log order, exactly the after-images of the updates whose id has a COMMIT record anywhere in the log |
| Wal.ReusedIdRedoList | src/main/java/edu/mora/db/storage/WALManager.java:62-74 | in a log where a committed and a later uncommitted transaction share an id, both updates are in the redo list |
| Wal.ReusedIdReplayed | src/main/java/edu/mora/db/storage/TransactionManager.java:30 | since ids restart at 1 with every TransactionManager over the same log, recovery can leave a page with the after-image of a transaction that never committed |
| Wal.ApplyWritesBytes | src/main/java/edu/mora/db/storage/DiskManager.java:22-25 | after a series of writes each byte comes from the last write covering it, or else from the base file |
| Wal.ApplyWritesIdempotent | src/main/java/edu/mora/db/storage/WALManager.java:68-86 | replaying the same page writes a second time changes nothing |
| Wal.RecoverIdempotent | src/main/java/edu/mora/db/storage/WALManager.java:53-87 | running recover twice over an unchanged log gives the same page file as running it once |
| Wal.RedoUpdateStep | src/main/java/edu/mora/db/storage/WALManager.java:74-82 | at an UPDATE of a committed id the second pass writes its after-image before going on |
| Wal.RedoSkipStep | src/main/java/edu/mora/db/storage/WALManager.java:83-84 | at any other record the second pass skips len - 9 bytes |
| Wal.WALManager.constructor | src/main/java/edu/mora/db/storage/WALManager.java:15-18 | opening keeps the existing log and appends after it |
| Wal.WALManager.Append | src/main/java/edu/mora/db/storage/WALManager.java:98-104 | writeHdr appends exactly the encoding of the record and syncs nothing |
| Wal.WALManager.LogBegin | src/main/java/edu/mora/db/storage/WALManager.java:21-23 | appends a BEGIN record (type 1, empty payload) |
| Wal.WALManager.LogCommit | src/main/java/edu/mora/db/storage/WALManager.java:25-27 | appends a COMMIT record (type 3, empty payload) and does not sync it |
| Wal.WALManager.LogAbort | src/main/java/edu/mora/db/storage/WALManager.java:29-31 | appends an ABORT record (type 4, empty payload) |
| Wal.WALManager.LogUpdate | src/main/java/edu/mora/db/storage/WALManager.java:33-46 | appends an UPDATE record (type 2) carrying the page id and both images |
| Wal.WALManager.Flush | src/main/java/edu/mora/db/storage/WALManager.java:48-50 | makes everything appended so far durable, changing no byte |
| Wal.WALManager.Recover | src/main/java/edu/mora/db/storage/WALManager.java:53-87 | returns normally exactly when both passes do, and leaves the page file as the two-pass recovery function says |
| Wal.WALManager.AnalysisPass | src/main/java/edu/mora/db/storage/WALManager.java:54-66 | the first loop computes the committed set of the analysis function, or fails where it does |
| Wal.WALManager.RedoPass | src/main/java/edu/mora/db/storage/WALManager.java:68-86 | the second loop performs exactly the page writes of the redo function, in order |
| Wal.WALManager.RedoRecord | src/main/java/edu/mora/db/storage/WALManager.java:70-85 | one iteration consumes at least one byte and extends the writes done so far as the redo function does |
| Wal.MaxTxId | src/main/java/edu/mora/db/storage/WALManager.java:57-66 | no record of the log has an id above it, and it is never negative |
| Wal.ResumedTxId | src/main/java/edu/mora/db/storage/TransactionManager.java:30 | every id in the log lies below the id a manager resumed over that log would hand out first |
| Wal.FreshIdUncommitted | src/main/java/edu/mora/db/storage/WALManager.java:62-63 | an id above every id in the log is not in its committed set |
| Wal.FreshRedoList | src/main/java/edu/mora/db/storage/WALManager.java:68-86 | records of one fresh, uncommitted transaction appended to a log leave its redo list unchanged |
| Wal.FreshIdNotReplayed | src/main/java/edu/mora/db/storage/TransactionManager.java:30 | with ids resumed past the log, a transaction that never commits is not redone: recovering with its records appended gives the same page file as without them (also WALManager.java:53-87) |
| Wal.CommittedOfAppend | src/main/java/edu/mora/db/storage/WALManager.java:62-63 | the committed set of two logs one after the other is the union of their committed sets |
| Wal.NoCommits | src/main/java/edu/mora/db/storage/WALManager.java:62-63 | a log without COMMIT records has an empty committed set |
| Wal.RedoListNone | src/main/java/edu/mora/db/storage/WALManager.java:74 | when no record's id is in the committed set the redo list is empty |
| Wal.SurvivorWrites | src/main/java/edu/mora/db/storage/WALManager.java:74-82 | the committed update of a page that no later committed update rewrites is in the redo list, with no later write to that page |
| Wal.CommittedSurvives | src/main/java/edu/mora/db/storage/WALManager.java:53-87 | recovery leaves each page a committed transaction updated with the after-image of its last update, whatever the page file held, unless a later committed update wrote the page again |
| Wal.CommitPersists | src/main/java/edu/mora/db/storage/WALManager.java:53-87 | recovering the log of BEGIN, one page update and COMMIT leaves that page with the after-image over any page file (also lines 21-46) |
| Transactions.RestoredPage | src/main/java/edu/mora/db/storage/TransactionManager.java:89-98 | replaying an undo list newest first leaves every page it names with the before-image of the transaction's earliest update to it, and every other page as it was |
| Transactions.RestoredKeepsSome | src/main/java/edu/mora/db/storage/TransactionManager.java:91-98 | a page readable before the rollback stays readable after it |
| Transactions.OverwriteLast | src/main/java/edu/mora/db/storage/TransactionManager.java:94-96 | copying a before-image into the most recently used page and marking it dirty changes the view of that page only |
| Transactions.DiskWriteKeeps | src/main/java/edu/mora/db/storage/TransactionManager.java:97 | writing the before-image to the file when every cached copy already holds it keeps the pool coherent and every view |
| Transactions.CleanViews | src/main/java/edu/mora/db/storage/TransactionManager.java:81-99 | after flushAll no entry is dirty, so the file holds what every reader sees |
| Transactions.TransactionManager.constructor | src/main/java/edu/mora/db/storage/TransactionManager.java:30-35 | ids start at 1 and no transaction is open |
| Transactions.TransactionManager.Begin | src/main/java/edu/mora/db/storage/TransactionManager.java:50-55 | returns the counter, advances it by one (long wrap-around), appends one BEGIN record with that id and opens an empty undo list |
| Transactions.TransactionManager.RecordPageUpdate | src/main/java/edu/mora/db/storage/TransactionManager.java:60-66 | appends the UPDATE record and makes the log durable before marking the page dirty; appends (page, before) to the end of the undo list; fails for a transaction with no undo list; no view of the pool changes |
| Transactions.TransactionManager.LogAndRemember | src/main/java/edu/mora/db/storage/TransactionManager.java:62-65 | the log and undo-list half of recordPageUpdate |
| Transactions.TransactionManager.Commit | src/main/java/edu/mora/db/storage/TransactionManager.java:69-71 | commit(tx) is the SAFE path: COMMIT appended and synced, every dirty page written back, the file then holding what every reader sees, the undo list dropped |
| Transactions.TransactionManager.CommitWithMode | src/main/java/edu/mora/db/storage/TransactionManager.java:76-84 | appends COMMIT; SAFE syncs the log and flushes the pool so that the file equals every view; FAST writes no page and syncs nothing; both drop the undo list |
| Transactions.TransactionManager.LogAndForget | src/main/java/edu/mora/db/storage/TransactionManager.java:77-83 | COMMIT appended, synced only on the SAFE path, and the undo list dropped |
| Transactions.TransactionManager.FlushPool | src/main/java/edu/mora/db/storage/TransactionManager.java:81 | flushAll writes one page per dirty entry and leaves the file equal to every view of a coherent pool |
| Transactions.TransactionManager.Rollback | src/main/java/edu/mora/db/storage/TransactionManager.java:86-102 | appends ABORT; without an undo list nothing else changes; otherwise every page the transaction touched ends, in the pool and in the file, with the before-image of its earliest update, no other page's view changes, and the undo list is dropped; it fails only where getPage throws |
| Transactions.TransactionManager.RestoreAll | src/main/java/edu/mora/db/storage/TransactionManager.java:91-98 | the reverse loop restores the undo entries newest first, giving the views of the restore function |
| Transactions.TransactionManager.RestorePage | src/main/java/edu/mora/db/storage/TransactionManager.java:92-97 | one restore step sets the view of its page to the before-image, in the pool and in the file, and fails exactly when the page cannot be read |
| Transactions.TransactionManager.Fetch | src/main/java/edu/mora/db/storage/TransactionManager.java:94 | getPage during rollback returns the page's view as its most recently used entry, or fails exactly when there is none |
| Transactions.TransactionManager.CopyAndMark | src/main/java/edu/mora/db/storage/TransactionManager.java:95-96 | arraycopy then markDirty(true): the page's view becomes the before-image and the pool stays coherent |
| Transactions.TransactionManager.WriteThrough | src/main/java/edu/mora/db/storage/TransactionManager.java:97 | writing the before-image to the file keeps coherence and every view |
| Transactions.TransactionManager.CopyBefore | src/main/java/edu/mora/db/storage/TransactionManager.java:95 | the page's bytes become the before-image and nothing else in the pool changes |
| Transactions.SafeCommitSurvives | src/main/java/edu/mora/db/storage/TransactionManager.java:69-84 | after a SAFE commit whose COMMIT record is the last in the durable log, recovering the durable log leaves each page the transaction updated with its last after-image, unless a later committed update wrote that page |
| Schemas.NewSchema | src/main/java/edu/mora/db/table/Schema.java:9-14 | the constructor succeeds exactly when names and types have the same length, keeps both lists, and otherwise fails with "Names/types length mismatch" |
| Schemas.NumColumns | src/main/java/edu/mora/db/table/Schema.java:16-18 | the number of names, which equals the number of types |
| Schemas.ColumnName | src/main/java/edu/mora/db/table/Schema.java:20-22 | defined exactly for indexes in range, giving one of the names |
| Schemas.ColumnType | src/main/java/edu/mora/db/table/Schema.java:24-26 | defined exactly for indexes below numColumns, giving one of the types |
| Schemas.ColumnNames | src/main/java/edu/mora/db/table/Schema.java:38-40 | a list of the same length whose i-th element is getColumnName(i) |
| Schemas.IndexOf | src/main/java/edu/mora/db/table/Schema.java:29 | List.indexOf finds x exactly when x is present, at a position holding x with no earlier occurrence |
| Schemas.ColumnIndex | src/main/java/edu/mora/db/table/Schema.java:28-34 | succeeds exactly for a present name, returning the first position holding it; otherwise fails with "Unknown column: " plus the name |
| Schemas.IndexNameRoundTrip | src/main/java/edu/mora/db/table/Schema.java:20-34 | with distinct names, getColumnIndex(getColumnName(i)) is i |
| Tuples.NewTuple | src/main/java/edu/mora/db/table/Tuple.java:12-17 | the constructor succeeds exactly when there is one value per column and keeps them, otherwise fails with "Value count mismatch" |
| Tuples.DigitsRoundTrip | src/main/java/edu/mora/db/table/Tuple.java:44 | the decimal digits of n denote n |
| Tuples.ParseSigned | src/main/java/edu/mora/db/table/Tuple.java:44 | parseInt of digits, optionally after a minus sign, is their signed value when it fits an int |
| Tuples.ParseIntText | src/main/java/edu/mora/db/table/Tuple.java:44 | parseInt reads back exactly the int that toString wrote |
| Tuples.EncodeField | src/main/java/edu/mora/db/table/Tuple.java:42-50 | one field never takes more than the room left in the 4096-byte buffer; parseInt, cast and overflow failures are errors |
| Tuples.EncodeFields | src/main/java/edu/mora/db/table/Tuple.java:41-52 | the serialize loop writes no more than the room left |
| Tuples.Serialize | src/main/java/edu/mora/db/table/Tuple.java:38-57 | the result fits the 4096-byte buffer |
| Tuples.EncodeFieldsSize | src/main/java/edu/mora/db/table/Tuple.java:38-57 | well-typed fields encode exactly when their size (4 per INT, 4 plus the byte length per STRING) fits the room, and then take exactly that size |
| Tuples.SerializeSize | src/main/java/edu/mora/db/table/Tuple.java:38-57 | serialize of a well-typed tuple succeeds exactly when its encoding is at most 4096 bytes, and returns exactly that many bytes |
| Tuples.EncodeByText | src/main/java/edu/mora/db/table/Tuple.java:44 | INT columns are encoded from their text, so the String "5" and the Integer 5 give identical bytes |
| Tuples.DecodeFields | src/main/java/edu/mora/db/table/Tuple.java:22-34 | a successful decode yields one value per column |
| Tuples.Deserialize | src/main/java/edu/mora/db/table/Tuple.java:19-36 | a successful deserialize yields a tuple of the given schema with one value per column |
| Tuples.DecodeIntField | src/main/java/edu/mora/db/table/Tuple.java:24-26 | an INT column reads the four bytes of its int, then the other columns |
| Tuples.DecodeStringField | src/main/java/edu/mora/db/table/Tuple.java:27-32 | a STRING column reads its length, then that many bytes, then the other columns |
| Tuples.EncodeFieldsTyped | src/main/java/edu/mora/db/table/Tuple.java:41-52 | what the serialize loop writes for well-typed values is their field-by-field encoding, big-endian int first |
| Tuples.DecodeValues | src/main/java/edu/mora/db/table/Tuple.java:19-57 | decoding the encoding of well-typed values gives them back, whatever follows them |
| Tuples.DecodeEncoded | src/main/java/edu/mora/db/table/Tuple.java:19-57 | decoding what the serialize loop wrote gives the values back |
| Tuples.SerializeRoundTrip | src/main/java/edu/mora/db/table/Tuple.java:19-57 | deserialize(schema, serialize(t)) is t for every well-typed tuple that serializes |
| Tuples.JoinAgrees | src/main/java/edu/mora/db/table/Tuple.java:67-70 | the text the toString loop appends piece by piece equals the same pieces joined from the front |
| Tuples.Texts | src/main/java/edu/mora/db/table/Tuple.java:69 | one text per value, in order |
| Tuples.TupleText | src/main/java/edu/mora/db/table/Tuple.java:63-73 | toString is "(", the values' texts joined by ", ", then ")" |
| HeapPage.GetInt | src/main/java/edu/mora/db/table/Table.java:72-106 | getInt succeeds exactly when its four bytes lie in the page |
| HeapPage.GetIntDecode | src/main/java/edu/mora/db/table/Table.java:72-106 | getInt reads the same big-endian int as readInt from those four bytes |
| HeapPage.PutInt | src/main/java/edu/mora/db/table/Table.java:211-216 | putInt succeeds exactly inside the page, keeps its size, and getInt then reads the value written (also lines 77, 81, 96) |
| HeapPage.GetIntSame | src/main/java/edu/mora/db/table/Table.java:72-106 | getInt depends only on its four bytes |
| HeapPage.NewSlotPos | src/main/java/edu/mora/db/table/Table.java:214 | PAGE_SIZE - 4 * (slots + 1) in int arithmetic is slot N's position for every slot count a page can hold |
| HeapPage.Place | src/main/java/edu/mora/db/table/Table.java:201-218 | writeRecordIntoPage keeps the page PAGE_SIZE bytes long whether or not it throws part way |
| HeapPage.Payload | src/main/java/edu/mora/db/table/Table.java:109-110 | the bytes copied out have the record's length |
| HeapPage.ReadRecord | src/main/java/edu/mora/db/table/Table.java:103-111 | a record read succeeds only with at least one byte; a length that is not positive is "Deleted tuple" |
| HeapPage.Rewrite | src/main/java/edu/mora/db/table/Table.java:76-79 | the in-place rewrite keeps the page size |
| HeapPage.ScanKept | src/main/java/edu/mora/db/table/Table.java:145-157 | every row the slot loop returns satisfies the predicate and names the page it came from |
| HeapPage.Keep | src/main/java/edu/mora/db/table/Table.java:151-156 | one live record adds at most one row to the rows of the later slots |
| HeapPage.EndFrom | src/main/java/edu/mora/db/table/Table.java:184-209 | the records of a run end after the header and before the slot directory |
| HeapPage.RunExtend | src/main/java/edu/mora/db/table/Table.java:211-216 | a run followed by one more record with its slot is a run one longer, ending after that record |
| HeapPage.RunSum | src/main/java/edu/mora/db/table/Table.java:184-209 | on a page whose records lie back to back, the offset loop sums to the end of the records |
| HeapPage.PackedFree | src/main/java/edu/mora/db/table/Table.java:183-209 | a packed page has at most 1023 slots, the next record goes at the end of the records, and the free space is the gap between them and the slot directory |
| HeapPage.FitCheckGap | src/main/java/edu/mora/db/table/Table.java:189-191 | on a packed page the fit check accepts a record exactly when the gap is at least recLen + 4 |
| HeapPage.PlaceSteps | src/main/java/edu/mora/db/table/Table.java:211-216 | with room for the record and its slot, each of the four writes succeeds |
| HeapPage.ReadBack | src/main/java/edu/mora/db/table/Table.java:106-110 | a record whose prefix and payload are in place reads back as its payload |
| HeapPage.WritesFrame | src/main/java/edu/mora/db/table/Table.java:211-216 | the four writes leave the records before the offset and the old slots alone, set slot N to the offset and the count to N + 1 |
| HeapPage.WritesRecord | src/main/java/edu/mora/db/table/Table.java:211-216 | after the four writes the record at the offset reads back as written |
| HeapPage.PlaceWrites | src/main/java/edu/mora/db/table/Table.java:201-218 | with room for the record and its slot, writeRecordIntoPage returns the next offset, writes the record there, fills slot N and sets the count to N + 1, leaving every other byte |
| HeapPage.AppendRun | src/main/java/edu/mora/db/table/Table.java:211-216 | a packed page with one more record at its end and its slot is a run of N + 1 records |
| HeapPage.PackedAppend | src/main/java/edu/mora/db/table/Table.java:211-216 | that page is packed again, with the new record as its last entry |
| HeapPage.PlacePacked | src/main/java/edu/mora/db/table/Table.java:201-218 | inserting into a packed page with at least recLen + 8 free keeps it packed, with the record appended as its last entry at the old end |
| HeapPage.PlaceRead | src/main/java/edu/mora/db/table/Table.java:201-218 | writeRecordIntoPage followed by a read at the returned offset gives the record back, on a packed page with recLen + 8 free (also lines 58, 103-111) |
| HeapPage.ReadEntry | src/main/java/edu/mora/db/table/Table.java:103-111 | reading at each entry of a packed page returns its payload |
| HeapPage.OverlapPrefix | src/main/java/edu/mora/db/table/Table.java:211-216 | when the gap is exactly recLen + 4 the writes keep the new record's length prefix |
| HeapPage.OverlapPayload | src/main/java/edu/mora/db/table/Table.java:211-216 | but the new slot lands on the last four bytes of the payload |
| HeapPage.OverlapRead | src/main/java/edu/mora/db/table/Table.java:103-111 | so the record reads back with its last four bytes replaced by the encoded offset (also lines 211-216) |
| HeapPage.OverlapPlace | src/main/java/edu/mora/db/table/Table.java:201-218 | writeRecordIntoPage into a gap of exactly recLen + 4 returns the offset but stores a record whose tail is the slot |
| HeapPage.FitCheckOverlap | src/main/java/edu/mora/db/table/Table.java:189-216 | the fit check accepts a record that leaves exactly four bytes free, and the insert then corrupts that record's last four bytes |
| HeapPage.TombstoneRead | src/main/java/edu/mora/db/table/Table.java:91-107 | deleteTuple writes a zero length at the offset and changes no other byte; a read there then fails with "Deleted tuple" |
| HeapPage.TombAt | src/main/java/edu/mora/db/table/Table.java:184-209 | the offset loop counts a zeroed record as four bytes and goes on over the rest |
| HeapPage.NthAfter | src/main/java/edu/mora/db/table/Table.java:205-209 | in a run each record lies after the ones before it |
| HeapPage.NthBefore | src/main/java/edu/mora/db/table/Table.java:205-209 | and its length prefix lies before the end of the run |
| HeapPage.TombSum | src/main/java/edu/mora/db/table/Table.java:184-209 | after one record's length is zeroed the offset loop sums to the old end minus that record's length |
| HeapPage.TombReads | src/main/java/edu/mora/db/table/Table.java:96 | after the delete's write getInt reads 0 at the record and the same ints everywhere else |
| HeapPage.TombRun | src/main/java/edu/mora/db/table/Table.java:205-209 | over a whole page, a deleted record makes the next offset its length earlier |
| HeapPage.NthIn | src/main/java/edu/mora/db/table/Table.java:205-209 | every record offset lies between the header and the end of the run |
| HeapPage.TombNth | src/main/java/edu/mora/db/table/Table.java:91-100 | zeroing record k keeps its slot, makes a read there report a deleted tuple, and moves the next insert offset back by its length (also lines 205-209) |
| HeapPage.TombNext | src/main/java/edu/mora/db/table/Table.java:205-209 | the next offset of a packed page after a delete is the old end minus the deleted length |
| HeapPage.DeleteNext | src/main/java/edu/mora/db/table/Table.java:91-100 | after deleting record k of a packed page the next insert goes End - len bytes in, before live records unless k was the last: the layout no longer stays packed (also lines 184-188, 205-209) |
| HeapPage.RowsOf | src/main/java/edu/mora/db/table/Table.java:145-157 | the rows kept from a list of records are at most one per record |
| HeapPage.ScanStep | src/main/java/edu/mora/db/table/Table.java:145-157 | the slot loop at a live record deserializes it and keeps it when the predicate holds, before the rows of later slots |
| HeapPage.ScanRun | src/main/java/edu/mora/db/table/Table.java:145-157 | over a run the slot loop visits the records in slot order |
| HeapPage.PageRowsPacked | src/main/java/edu/mora/db/table/Table.java:140-157 | on a packed page scanRows returns the records that deserialize and satisfy the predicate, in slot order, each with its page and offset |
| HeapPage.RewriteRead | src/main/java/edu/mora/db/table/Table.java:76-111 | an in-place update succeeds exactly when the copy stays in the page, keeps the offset, reads back as the new record, and leaves the bytes before it and after the new payload |
| HeapPage.RowsOfAppend | src/main/java/edu/mora/db/table/Table.java:145-157 | one more record's row, when kept, follows the rows of the earlier records; failures come in slot order |
| HeapPage.RoomPlaceRead | src/main/java/edu/mora/db/table/Table.java:179-218 | the corrected fit test accepts a record on a packed page exactly when the gap holds the record, its length and its slot; every record it accepts goes at the page's end, the page stays packed with the record as its last entry, and it reads back whole |
| HeapPage.Abs32 | src/main/java/edu/mora/db/table/Table.java:184-188 | the absolute value of an int above the smallest is non-negative and equal to the value or its negation |
| HeapPage.RetireReads | src/main/java/edu/mora/db/table/Table.java:91-107 | the corrected delete writes -len at the record, keeps the slot count and every other int, and a read there reports a deleted tuple |
| HeapPage.SpanPacked | src/main/java/edu/mora/db/table/Table.java:184-209 | on a packed page the corrected offset loop computes the same next offset as findPageWithSpace's, the end of the records |
| HeapPage.SpanNext | src/main/java/edu/mora/db/table/Table.java:184-209 | after one record's length is negated the corrected loop still sums to the end of the records |
| HeapPage.RetireNth | src/main/java/edu/mora/db/table/Table.java:91-100 | the corrected delete of record k keeps its slot, reports it deleted and leaves the next offset at the end of the records (also lines 205-209) |
| HeapPage.RetireNext | src/main/java/edu/mora/db/table/Table.java:91-100 | with the delete negating the length and the offset loop adding absolute values, deleting any record of a packed page leaves the next insert after every record, deleted or live (also lines 184-188, 205-209) |
| Tables.PutIntInto | src/main/java/edu/mora/db/table/Table.java:211-216 | putInt on the page array succeeds exactly when PutInt does, and leaves the array as PutInt's page or unchanged (also line 96) |
| Tables.CopyInto | src/main/java/edu/mora/db/table/Table.java:212 | System.arraycopy into the page succeeds exactly when the copy stays inside it, and then writes the record at the offset (also line 78) |
| Tables.UsedBytes | src/main/java/edu/mora/db/table/Table.java:184-209 | the loop over the slot directory computes the next offset NextOffset specifies, failing as getInt does |
| Tables.HasRoom | src/main/java/edu/mora/db/table/Table.java:183-191 | the fit check on one page computes HasSpace, the free gap in int arithmetic against recLen + 4 |
| Tables.WriteRecordIntoPage | src/main/java/edu/mora/db/table/Table.java:201-218 | writeRecordIntoPage leaves the array as Place's page and returns its offset, including the partial writes when a putInt throws |
| Tables.RewriteInPlace | src/main/java/edu/mora/db/table/Table.java:76-79 | the in-place branch of updateTuple leaves the array as Rewrite's page and succeeds exactly when Rewrite does |
| Tables.Prepend | src/main/java/edu/mora/db/table/Table.java:145-157 | the rows of one page in front of the rest of a scan fail exactly when the rest does |
| Tables.StepResumes | src/main/java/edu/mora/db/table/Table.java:145-157 | one slot's rows appended to those collected keep the loop on course to the whole scan |
| Tables.ScanSlot | src/main/java/edu/mora/db/table/Table.java:146-156 | one pass of the slot loop skips a tombstone, keeps a record the predicate accepts, or stops with the exception, as ScanFrom says |
| Tables.ScanPage | src/main/java/edu/mora/db/table/Table.java:143-157 | the slot loop of scanRows over one page returns PageRows |
| Tables.WriteBackLength | src/main/java/edu/mora/db/storage/DiskManager.java:22-25 | writing a whole page over an existing page keeps the file's length |
| Tables.AllocKeeps | src/main/java/edu/mora/db/storage/DiskManager.java:16-20 | allocatePage at the end of the file adds one page of zeros, keeps every other page's view and keeps a coherent cache coherent |
| Tables.ZerosRoom | src/main/java/edu/mora/db/table/Table.java:170-191 | a freshly allocated page has room for any record insertTuple accepts |
| Tables.FirstFit | src/main/java/edu/mora/db/table/Table.java:179-196 | the page findPageWithSpace settles on is one of the table's pages and passes the fit check |
| Tables.FirstFitAt | src/main/java/edu/mora/db/table/Table.java:181-192 | the search takes the first page that passes, stops at the first exception, and otherwise goes on to the next page |
| Tables.ChangedView | src/main/java/edu/mora/db/storage/BufferPool.java:38-49 | changing the bytes of the most recently used cached page changes that page's view and no other |
| Tables.WrittenLast | src/main/java/edu/mora/db/storage/BufferPool.java:38-49 | the same on the pool's snapshot: the written page reads as the new bytes and the cache is coherent but for it |
| Tables.Deleted | src/main/java/edu/mora/db/table/Table.java:91-100 | a successful delete leaves a whole page |
| Tables.InPlace | src/main/java/edu/mora/db/table/Table.java:70-80 | updateTuple decides only on a cached page with the old length's four bytes inside it |
| Tables.ChoosePage | src/main/java/edu/mora/db/table/Table.java:179-196 | insertTuple writes either into a new page with the next id or into a page of the table that passes the fit check (also lines 53-54) |
| Tables.InsertThenRead | src/main/java/edu/mora/db/table/Table.java:48-63 | on a packed page with room for the record and its slot, insertTuple puts the record at the page's end and readTuple there returns the tuple inserted (also lines 103-112) |
| Tables.InsertThenScan | src/main/java/edu/mora/db/table/Table.java:138-160 | on such a page, scanRows afterwards returns the rows it returned before followed by the new row when the predicate accepts it (also lines 48-63) |
| Tables.DeleteThenRead | src/main/java/edu/mora/db/table/Table.java:71-112 | after deleteTuple a read at that offset fails with "Deleted tuple" and an update fails with "Cannot update deleted tuple" |
| Tables.UpdateThenRead | src/main/java/edu/mora/db/table/Table.java:66-79 | an in-place update whose copy stays in the page reads back as the new tuple (also lines 103-112) |
| Tables.TuplesOf | src/main/java/edu/mora/db/table/Table.java:114-132 | scan collects the tuples of the rows scanRows would give, one for one and in order |
| Tables.RowsInKept | src/main/java/edu/mora/db/table/Table.java:145-157 | the rows one page gives satisfy the predicate and name that page |
| Tables.JoinFromPages | src/main/java/edu/mora/db/table/Table.java:140-158 | rows of the first page in front of rows of the later pages are rows of the table's pages |
| Tables.TableRowsKept | src/main/java/edu/mora/db/table/Table.java:138-160 | every row scanRows returns satisfies the predicate and comes from one of the table's pages |
| Tables.TableRowsAt | src/main/java/edu/mora/db/table/Table.java:140-158 | scanRows over the pages from i on is page i's rows in front of the rest, or page i's failure |
| Tables.UpdateTwice | src/main/java/edu/mora/db/table/Table.java:80-83 | a page written twice reads as the second write |
| Tables.Table.constructor | src/main/java/edu/mora/db/table/Table.java:28-45 | a table starts with the pages it is given and registers none |
| Tables.Table.Fetch | src/main/java/edu/mora/db/table/Table.java:55 | getPage through a coherent pool returns the page's current view exactly when the page exists, and changes no view (also lines 70, 93, 105, 142) |
| Tables.Table.AllocateFreshPage | src/main/java/edu/mora/db/table/Table.java:170-176 | allocateFreshPage takes the disk's next id, appends it to the table's pages and registers it; the new page reads as zeros, and a negative counter makes it throw with nothing added |
| Tables.Table.Probe | src/main/java/edu/mora/db/table/Table.java:182-191 | one iteration of findPageWithSpace returns RoomIn of the page's view |
| Tables.Table.FirstWithRoom | src/main/java/edu/mora/db/table/Table.java:181-192 | the loop of findPageWithSpace returns FirstFit of the pages' views and changes none of them |
| Tables.Table.FindPageWithSpace | src/main/java/edu/mora/db/table/Table.java:179-196 | findPageWithSpace returns the first page with room or the first exception; with no page with room it allocates a fresh page of zeros and returns it |
| Tables.Table.LogChange | src/main/java/edu/mora/db/table/Table.java:58-98 | recordPageUpdate with the page's before- and after-image appends the UPDATE record, keeps every view, and makes the cache coherent again |
| Tables.Table.WriteInto | src/main/java/edu/mora/db/table/Table.java:201-218 | writeRecordIntoPage on the cached page changes that page's view to Place's page (also line 58) |
| Tables.Table.FetchAndWrite | src/main/java/edu/mora/db/table/Table.java:55-58 | getPage, the before-image copy and writeRecordIntoPage: the before-image is the page's old view and the new view is Place's page |
| Tables.Table.PlaceRecord | src/main/java/edu/mora/db/table/Table.java:55-62 | the record goes into the chosen page, the change is logged with both images, and the record id names that page and offset |
| Tables.Table.FirstPage | src/main/java/edu/mora/db/table/Table.java:53 | a table without pages allocates one of zeros first |
| Tables.Table.PageAmong | src/main/java/edu/mora/db/table/Table.java:179-196 | findPageWithSpace on a table with pages returns ChoosePage's page (also line 54) |
| Tables.Table.PickPage | src/main/java/edu/mora/db/table/Table.java:53-54 | insertTuple's page is ChoosePage's, new pages appended to the table and registered |
| Tables.Table.InsertRecord | src/main/java/edu/mora/db/table/Table.java:53-63 | the record is written where Place puts it on the chosen page; the UPDATE record carries the page before and after; a failed write throws before logging; an unknown transaction makes recordPageUpdate throw after logging |
| Tables.Table.InsertTuple | src/main/java/edu/mora/db/table/Table.java:48-63 | insertTuple rejects a tuple that does not serialize or is over PAGE_SIZE - 8 bytes without logging, and otherwise does what InsertRecord says |
| Tables.Table.TombstoneInto | src/main/java/edu/mora/db/table/Table.java:96 | putInt(offset, 0) on the cached page succeeds exactly when Tombstone does and changes that page's view to it |
| Tables.Table.FetchAndDelete | src/main/java/edu/mora/db/table/Table.java:93-96 | getPage, the before-image copy and the zero length: the new view is Deleted's page |
| Tables.Table.DeleteTuple | src/main/java/edu/mora/db/table/Table.java:91-100 | deleteTuple zeroes the record's length, logs the page before and after, and fails without logging on a page or offset that is not there |
| Tables.Table.ReadTuple | src/main/java/edu/mora/db/table/Table.java:103-112 | readTuple returns ReadFrom of the page's view and changes no view |
| Tables.Table.RewriteInto | src/main/java/edu/mora/db/table/Table.java:76-79 | the in-place write on the cached page changes its view to Rewrite's page |
| Tables.Table.FetchForUpdate | src/main/java/edu/mora/db/table/Table.java:68-80 | updateTuple's getPage, before-image copy and length test return InPlace's decision |
| Tables.Table.Relocate | src/main/java/edu/mora/db/table/Table.java:80-87 | the else branch tombstones the old record, inserts the tuple anew and then logs the old page; the table stays linked to its transaction manager and the log only grows |
| Tables.Table.UpdateTuple | src/main/java/edu/mora/db/table/Table.java:66-88 | a record no longer than the old one is rewritten in place and logged with the page before and after; a deleted record or a bad offset fails without logging |
| Tables.Table.PageRowsOf | src/main/java/edu/mora/db/table/Table.java:142-157 | one page of scanRows returns RowsIn of its view |
| Tables.Table.ScanRows | src/main/java/edu/mora/db/table/Table.java:138-160 | scanRows returns TableRows of the pages' views, changing none |
| Tables.Table.Scan | src/main/java/edu/mora/db/table/Table.java:114-132 | scan returns the tuples of those rows, in order, or the same exception |
| Tables.Table.ScanAll | src/main/java/edu/mora/db/table/Table.java:134-136 | scanAll returns every live tuple of every page |
| Tables.Table.MoveTuple | src/main/java/edu/mora/db/table/Table.java:82-86 | a successful move adds two undo entries, the new record's page and then the old page with its image from before the update, and the log ends with the old page's UPDATE record; a record over PAGE_SIZE - 8 bytes fails with "Tuple too large", logging nothing and leaving the table, pool and file unchanged |
| Tables.AppendedOneMore | src/main/java/edu/mora/db/storage/TransactionManager.java:65 | one more undo entry appended to a transaction's list extends the entries it gained by that page |
| BPlusTree.Pos | src/main/java/edu/mora/db/index/BPlusInternalNode.java:32-36 | findChildIndex and the leaf's position scan stop after every key not greater than the key and before the first greater one |
| BPlusTree.PosIs | src/main/java/edu/mora/db/index/BPlusInternalNode.java:32-36 | that position is the only one with both properties |
| BPlusTree.InsertAt | src/main/java/edu/mora/db/index/BPlusLeafNode.java:43-44 | List.add(i, x) puts x at i, keeps everything before and moves everything after one place up |
| BPlusTree.Matching | src/main/java/edu/mora/db/index/BPlusLeafNode.java:28-36 | a leaf search returns at most one record id per stored key |
| BPlusTree.MatchingNone | src/main/java/edu/mora/db/index/BPlusLeafNode.java:28-36 | a leaf search returns nothing exactly when no stored key equals the key |
| BPlusTree.MatchingAppend | src/main/java/edu/mora/db/index/BPlusLeafNode.java:30-34 | the matches of two runs of entries are the first run's followed by the second's |
| BPlusTree.SplitLeaf | src/main/java/edu/mora/db/index/BPlusLeafNode.java:46-61 | a full leaf keeps its first half, the sibling gets the rest, and the split key is the sibling's first key |
| BPlusTree.LeafInsert | src/main/java/edu/mora/db/index/BPlusLeafNode.java:39-63 | the entry goes in after every key not greater than it, and the leaf splits exactly when it then holds order keys |
| BPlusTree.SplitInternal | src/main/java/edu/mora/db/index/BPlusInternalNode.java:56-71 | an internal split keeps keys before mid and children up to mid; keys[mid] moves up and is in neither half |
| BPlusTree.Absorb | src/main/java/edu/mora/db/index/BPlusInternalNode.java:44-71 | taking in a child's split puts the split key at its position with the new node right after it, and splits exactly when the node then holds order keys |
| BPlusTree.Settle | src/main/java/edu/mora/db/index/BPlusInternalNode.java:56-71 | an internal node splits exactly when it holds order keys and is otherwise left as it is |
| BPlusTree.InsertNode | src/main/java/edu/mora/db/index/BPlusNode.java:19 | an insert keeps every node well formed and a leaf a leaf (also BPlusInternalNode.java:39-73) |
| BPlusTree.TreeInsert | src/main/java/edu/mora/db/index/BPlusTreeIndex.java:25-39 | the tree stays well formed; when the root splits, the new root is internal with the split key as its only key and the old root and its sibling as its two children; otherwise the root insert's result is the root |
| BPlusTree.LeafFor | src/main/java/edu/mora/db/index/BPlusInternalNode.java:27-29 | a search reaches a leaf by following findChildIndex |
| BPlusTree.InsertSorted | src/main/java/edu/mora/db/index/BPlusLeafNode.java:41-44 | inserting at that position keeps a sorted leaf sorted, the new key after every equal key |
| BPlusTree.SplitSorted | src/main/java/edu/mora/db/index/BPlusInternalNode.java:56-71 | splitting an internal node keeps every leaf sorted |
| BPlusTree.AbsorbedSorted | src/main/java/edu/mora/db/index/BPlusInternalNode.java:52-54 | the children after taking in a split have sorted leaves |
| BPlusTree.AbsorbSorted | src/main/java/edu/mora/db/index/BPlusInternalNode.java:44-71 | taking in a split keeps every leaf sorted |
| BPlusTree.SettleSorted | src/main/java/edu/mora/db/index/BPlusInternalNode.java:56-71 | so does the split that may follow |
| BPlusTree.LeafInsertSorted | src/main/java/edu/mora/db/index/BPlusLeafNode.java:39-63 | a leaf insert leaves the leaf, and both halves of its split, sorted |
| BPlusTree.InsertKeepsSorted | src/main/java/edu/mora/db/index/BPlusInternalNode.java:39-73 | any insert keeps every leaf of the tree sorted (also BPlusLeafNode.java:39-63) |
| BPlusTree.MatchingInsert | src/main/java/edu/mora/db/index/BPlusLeafNode.java:28-36 | an entry between two runs adds its own match between theirs |
| BPlusTree.MatchingSingle | src/main/java/edu/mora/db/index/BPlusLeafNode.java:28-36 | a one-entry leaf matches its key only |
| BPlusTree.InsertAtRuns | src/main/java/edu/mora/db/index/BPlusLeafNode.java:43-44 | a leaf after inserting at p is the run before p, the new entry, then the run from p |
| BPlusTree.MatchingRuns | src/main/java/edu/mora/db/index/BPlusLeafNode.java:28-36 | a leaf's matches are those before p followed by those from p |
| BPlusTree.LeafAppends | src/main/java/edu/mora/db/index/BPlusLeafNode.java:28-44 | a repeated key inserted into a sorted leaf is found after the earlier entries with that key |
| BPlusTree.DuplicatesAppend | src/main/java/edu/mora/db/index/BPlusInternalNode.java:39-73 | when the leaf a key goes to does not fill, the insert reports no split and a search for the key returns the old matches followed by the new record id (also BPlusLeafNode.java:39-63) |
| BPlusTree.DuplicateInsertAppends | src/main/java/edu/mora/db/index/BPlusTreeIndex.java:25-43 | the same for the whole tree: inserting a key whose leaf has room appends its record id to the search result |
| BPlusTree.ChildRange | src/main/java/edu/mora/db/index/BPlusInternalNode.java:32-36 | a key in a node's range lies in the range of the child findChildIndex picks |
| BPlusTree.PickedChild | src/main/java/edu/mora/db/index/BPlusInternalNode.java:32-36 | with ascending separators, a key in child j's range makes findChildIndex pick j |
| BPlusTree.LookupInternal | src/main/java/edu/mora/db/index/BPlusInternalNode.java:27-29 | an internal node's search is the search of the child findChildIndex picks |
| BPlusTree.PosInsert | src/main/java/edu/mora/db/index/BPlusInternalNode.java:51-52 | where findChildIndex sends a key after a separator is inserted at its own position |
| BPlusTree.PosInsertBefore | src/main/java/edu/mora/db/index/BPlusInternalNode.java:51-52 | a key that went before the new separator still goes to the same child |
| BPlusTree.PosInsertAfter | src/main/java/edu/mora/db/index/BPlusInternalNode.java:51-52 | a key that went after it goes one child further |
| BPlusTree.PosInsertAt | src/main/java/edu/mora/db/index/BPlusInternalNode.java:51-52 | a key that went to the same child goes left of the new separator when smaller and right otherwise |
| BPlusTree.PosPrefix | src/main/java/edu/mora/db/index/BPlusInternalNode.java:32-65 | a key below keys[m] is placed the same in keys[..m] |
| BPlusTree.PosSuffix | src/main/java/edu/mora/db/index/BPlusInternalNode.java:32-61 | a key at or above keys[m] is placed past m, and the same in keys[m+1..] shifted by m + 1 |
| BPlusTree.SplitLeafOrdered | src/main/java/edu/mora/db/index/BPlusLeafNode.java:46-61 | splitting a leaf of distinct keys gives two ordered halves around the split key |
| BPlusTree.LeafRunOrdered | src/main/java/edu/mora/db/index/BPlusLeafNode.java:50-55 | a run of ascending keys lies between its first key and the key after it |
| BPlusTree.AbsentAbove | src/main/java/edu/mora/db/index/BPlusLeafNode.java:50-55 | a key below keys[m] is not in keys[m..] |
| BPlusTree.AbsentBelow | src/main/java/edu/mora/db/index/BPlusLeafNode.java:50-55 | a key at or above keys[m] is not in keys[..m] |
| BPlusTree.SplitLeafSearch | src/main/java/edu/mora/db/index/BPlusLeafNode.java:28-61 | splitting a leaf with distinct keys changes no search result |
| BPlusTree.LeftHalfOrdered | src/main/java/edu/mora/db/index/BPlusInternalNode.java:65-66 | the left half of an internal split is ordered below the key that moves up |
| BPlusTree.RightHalfOrdered | src/main/java/edu/mora/db/index/BPlusInternalNode.java:61-68 | the right half is ordered above it |
| BPlusTree.SplitInternalOrdered | src/main/java/edu/mora/db/index/BPlusInternalNode.java:56-71 | splitting an ordered internal node gives two ordered halves around the key that moves up |
| BPlusTree.SplitInternalSearch | src/main/java/edu/mora/db/index/BPlusInternalNode.java:56-71 | splitting an internal node with ascending separators changes no search result |
| BPlusTree.IncreasingInsert | src/main/java/edu/mora/db/index/BPlusInternalNode.java:52 | a key placed strictly between its neighbours keeps the keys strictly ascending |
| BPlusTree.InsertedMatches | src/main/java/edu/mora/db/index/BPlusLeafNode.java:28-44 | inserting a key the leaf did not hold adds exactly its own match |
| BPlusTree.NewKeyMatches | src/main/java/edu/mora/db/index/BPlusLeafNode.java:28-44 | that key then finds just the new record id, and found nothing before |
| BPlusTree.OtherKeyMatches | src/main/java/edu/mora/db/index/BPlusLeafNode.java:28-44 | any other key finds what it found before |
| BPlusTree.LeafInsertOrdered | src/main/java/edu/mora/db/index/BPlusLeafNode.java:39-63 | a leaf insert of a new key in range, split or not, stays ordered and searches find the old entries plus the new one |
| BPlusTree.InsertedLeafOrdered | src/main/java/edu/mora/db/index/BPlusLeafNode.java:41-44 | the leaf with a new key inserted at its position is ordered |
| BPlusTree.LeafInsertGrows | src/main/java/edu/mora/db/index/BPlusLeafNode.java:39-63 | a leaf insert of a key it does not hold adds exactly the new entry to every search |
| BPlusTree.AbsorbedChildrenOrdered | src/main/java/edu/mora/db/index/BPlusInternalNode.java:51-54 | after taking in a split the children keep their ranges, the two halves sharing the old child's range |
| BPlusTree.AbsorbOrdered | src/main/java/edu/mora/db/index/BPlusInternalNode.java:51-54 | taking in the split of child idx keeps an internal node ordered |
| BPlusTree.AbsorbedShaped | src/main/java/edu/mora/db/index/BPlusInternalNode.java:53-54 | and well formed |
| BPlusTree.AbsorbSearchBefore | src/main/java/edu/mora/db/index/BPlusInternalNode.java:27-54 | a search for a key that went to an earlier child goes to the same child |
| BPlusTree.AbsorbSearchAfter | src/main/java/edu/mora/db/index/BPlusInternalNode.java:27-54 | a key that went to a later child goes to that child, one place up |
| BPlusTree.AbsorbSearchSplit | src/main/java/edu/mora/db/index/BPlusInternalNode.java:27-54 | a key that went to the child that split goes to the half the split key sends it to |
| BPlusTree.ChildLookup | src/main/java/edu/mora/db/index/BPlusInternalNode.java:27-29 | a search through a node whose chosen child is n is a search in n |
| BPlusTree.NoSplitStep | src/main/java/edu/mora/db/index/BPlusInternalNode.java:39-44 | when the child reports no split the node stays ordered and its searches gain just the new entry |
| BPlusTree.AbsorbGrows | src/main/java/edu/mora/db/index/BPlusInternalNode.java:44-54 | when the child splits, the node holding both halves finds what it found before plus the new entry |
| BPlusTree.MaybeSplitGrows | src/main/java/edu/mora/db/index/BPlusInternalNode.java:56-71 | the split that may follow keeps that |
| BPlusTree.AbsorbIs | src/main/java/edu/mora/db/index/BPlusInternalNode.java:51-54 | when the split key's position is the child that split, line 53 puts back that child |
| BPlusTree.AbsorbStep | src/main/java/edu/mora/db/index/BPlusInternalNode.java:44-54 | for distinct keys the split key goes to the position of the child that split, and the node stays ordered and grows by the new entry |
| BPlusTree.SplitStep | src/main/java/edu/mora/db/index/BPlusInternalNode.java:44-71 | an internal node whose child reported a split takes it in, splits if full, stays ordered and grows by the new entry |
| BPlusTree.InsertOrdered | src/main/java/edu/mora/db/index/BPlusInternalNode.java:39-73 | inserting a key the search tree does not hold keeps it ordered, and every search finds what it found before plus the new entry (also BPlusLeafNode.java:39-63) |
| BPlusTree.NewRootSearch | src/main/java/edu/mora/db/index/BPlusTreeIndex.java:29-37 | the root made from a split sends a search to the half the split key points it to |
| BPlusTree.NewRootOrdered | src/main/java/edu/mora/db/index/BPlusTreeIndex.java:29-37 | that root is ordered |
| BPlusTree.TreeInsertGrows | src/main/java/edu/mora/db/index/BPlusTreeIndex.java:25-43 | inserting a key the tree does not hold keeps it a search tree whose searches gain exactly the new entry |
| BPlusTree.TreeInsertFinds | src/main/java/edu/mora/db/index/BPlusTreeIndex.java:25-43 | after that insert the key finds just the new record id and every other key what it found before |
| BPlusTree.InsertAll | src/main/java/edu/mora/db/index/BPlusTreeIndex.java:25-39 | a run of inserts keeps the tree well formed |
| BPlusTree.InsertAllFinds | src/main/java/edu/mora/db/index/BPlusTreeIndex.java:25-43 | after distinct keys the tree did not hold are inserted, each finds just its own record id and every other key what it found before |
| BPlusTree.EmptyTreeFindsNothing | src/main/java/edu/mora/db/index/BPlusTreeIndex.java:19-23 | a new tree is ordered and finds nothing |
| BPlusTree.DistinctInsertsFound | src/main/java/edu/mora/db/index/BPlusTreeIndex.java:19-43 | distinct keys inserted into a new tree are each found with their own record id, and no other key is found |
| BPlusTree.TreeInsertPromises | src/main/java/edu/mora/db/index/BPlusTreeIndex.java:25-43 | every insert keeps leaves sorted; a duplicate whose leaf has room is appended to the search result; a new key in a search tree is found with its record id |
| BPlusTree.PairsKeys | src/main/java/edu/mora/db/index/BPlusLeafNode.java:43-44 | a leaf stores a (key, record id) pair only under one of its own keys |
| BPlusTree.PairsAppend | src/main/java/edu/mora/db/index/BPlusLeafNode.java:50-55 | the pairs of two key and record-id lists laid end to end are the pairs of each part |
| BPlusTree.PairsInsert | src/main/java/edu/mora/db/index/BPlusLeafNode.java:43-44 | adding a key and its record id at the same position adds exactly that pair |
| BPlusTree.SplitLeafPairs | src/main/java/edu/mora/db/index/BPlusLeafNode.java:46-61 | a leaf split loses no pair: the kept half and the sibling hold exactly the full leaf's pairs |
| BPlusTree.LeafInsertEntries | src/main/java/edu/mora/db/index/BPlusLeafNode.java:39-63 | a leaf insert, split or not, stores the leaf's pairs plus exactly the new one, duplicates included |
| BPlusTree.EntriesOfAppend | src/main/java/edu/mora/db/index/BPlusInternalNode.java:61-66 | the pairs under a run of children cut anywhere are those of the two parts |
| BPlusTree.EntriesOfAround | src/main/java/edu/mora/db/index/BPlusInternalNode.java:53-54 | the pairs under the children are those before child i, child i's and those after it |
| BPlusTree.EntriesOfSet | src/main/java/edu/mora/db/index/BPlusInternalNode.java:53 | setting child i trades that child's pairs for the new child's |
| BPlusTree.EntriesOfInsert | src/main/java/edu/mora/db/index/BPlusInternalNode.java:54 | adding a child at any position adds exactly its pairs |
| BPlusTree.SettleEntries | src/main/java/edu/mora/db/index/BPlusInternalNode.java:56-71 | an internal node's split loses no pair: node and sibling hold exactly the children's pairs |
| BPlusTree.AbsorbAt | src/main/java/edu/mora/db/index/BPlusInternalNode.java:51-54 | the corrected take-in, which puts the split key and the sibling at the position of the child that split: the node and any split hold the children's pairs with that child's traded for the two halves' |
| BPlusTree.CorrectedInsert | src/main/java/edu/mora/db/index/BPlusInternalNode.java:39-54 | the node insert over the corrected take-in keeps every node well formed and a leaf a leaf |
| BPlusTree.CorrectedTreeInsert | src/main/java/edu/mora/db/index/BPlusTreeIndex.java:25-39 | BPlusTreeIndex.insert over the corrected node insert keeps the tree well formed |
| BPlusTree.CorrectedInsertEntries | src/main/java/edu/mora/db/index/BPlusInternalNode.java:39-54 | with the corrected take-in, an insert into any node, whatever its keys, stores the old pairs plus exactly (key, rid) |
| BPlusTree.CorrectedTreeInsertEntries | src/main/java/edu/mora/db/index/BPlusTreeIndex.java:25-39 | so does a corrected tree insert, a root split included |
| BPlusTree.CorrectedInsertAll | src/main/java/edu/mora/db/index/BPlusTreeIndex.java:25-39 | a run of corrected tree inserts keeps the tree well formed |
| BPlusTree.CorrectedInsertAllEntries | src/main/java/edu/mora/db/index/BPlusTreeIndex.java:25-39 | a run of corrected inserts stores the old pairs plus exactly the inserted ones |
| BPlusTree.AbsorbAtIs | src/main/java/edu/mora/db/index/BPlusInternalNode.java:51-54 | when findChildIndex(splitKey) is the position of the child that split, the corrected take-in builds what lines 51-54 build |
| BPlusTree.CorrectedAgrees | src/main/java/edu/mora/db/index/BPlusInternalNode.java:39-54 | on a search tree and a key it does not hold, the corrected node insert equals the source's |
| BPlusTree.CorrectedTreeAgrees | src/main/java/edu/mora/db/index/BPlusTreeIndex.java:25-39 | so a tree insert of a new key builds the same tree with either take-in, and every distinct-key property carries over |
| BPlusTree.FirstStep | src/main/java/edu/mora/db/index/BPlusLeafNode.java:39-45 | the first insert of key x into the empty root leaf gives the leaf [x], with either take-in |
| BPlusTree.SecondStep | src/main/java/edu/mora/db/index/BPlusLeafNode.java:39-45 | a second x goes at the end of the leaf, which keeps room |
| BPlusTree.ThirdStep | src/main/java/edu/mora/db/index/BPlusLeafNode.java:39-45 | so does a third |
| BPlusTree.FourthStep | src/main/java/edu/mora/db/index/BPlusLeafNode.java:46-61 | a fourth 5 fills the order-4 leaf, which splits into [5, 5] and [5, 5] under a new root with key 5 (also BPlusTreeIndex.java:29-37) |
| BPlusTree.FifthStep | src/main/java/edu/mora/db/index/BPlusInternalNode.java:39-44 | 8 goes to the right leaf, which keeps room: [5, 5, 8] |
| BPlusTree.SixthStep | src/main/java/edu/mora/db/index/BPlusInternalNode.java:39-44 | 1 goes to the left leaf, which keeps room: [1, 5, 5] |
| BPlusTree.SeventhSplit | src/main/java/edu/mora/db/index/BPlusLeafNode.java:39-61 | 2 into [1, 5, 5] splits it into [1, 2] and [5, 5] with split key 5 |
| BPlusTree.SeventhStep | src/main/java/edu/mora/db/index/BPlusInternalNode.java:51-54 | as written, split key 5 goes at findChildIndex(5) = 1: child 1, the leaf [5, 5, 8], is set to [1, 2] and [5, 5] is added after it |
| BPlusTree.SeventhCorrected | src/main/java/edu/mora/db/index/BPlusInternalNode.java:51-54 | with the corrected take-in, the halves replace child 0 and the leaf [5, 5, 8] stays |
| BPlusTree.WrittenFirst | src/main/java/edu/mora/db/index/BPlusTreeIndex.java:25-39 | the run's first three inserts, as written, leave the leaf [5, 5, 5] |
| BPlusTree.WrittenRest | src/main/java/edu/mora/db/index/BPlusTreeIndex.java:25-39 | the next three leave the root [5] over [1, 5, 5] and [5, 5, 8], with 2 left to insert |
| BPlusTree.CorrectedFirst | src/main/java/edu/mora/db/index/BPlusTreeIndex.java:25-39 | the same first three inserts with the corrected take-in |
| BPlusTree.CorrectedRest | src/main/java/edu/mora/db/index/BPlusTreeIndex.java:25-39 | and the next three |
| BPlusTree.WrittenRun | src/main/java/edu/mora/db/index/BPlusTreeIndex.java:25-39 | inserting 5, 5, 5, 5, 8, 1, 2 at order 4, as written, ends with root [5, 5] over [1, 2], [1, 2] and [5, 5] |
| BPlusTree.CorrectedRun | src/main/java/edu/mora/db/index/BPlusTreeIndex.java:25-39 | with the corrected take-in it ends with root [5, 5] over [1, 2], [5, 5] and [5, 5, 8] |
| BPlusTree.LostLookup | src/main/java/edu/mora/db/index/BPlusInternalNode.java:27-29 | on the tree that run leaves, a search for 5 or 8 scans only the last leaf, [5, 5] |
| BPlusTree.LostLookups | src/main/java/edu/mora/db/index/BPlusInternalNode.java:27-29 | there search(8) is empty and search(5) returns the first two record ids |
| BPlusTree.LostSibling | src/main/java/edu/mora/db/index/BPlusInternalNode.java:51-54 | after that run, as written, search(8) returns nothing though 8 was inserted once, and search(5) returns two of its four record ids |
| BPlusTree.LostTreeKeys | src/main/java/edu/mora/db/index/BPlusInternalNode.java:53 | the tree the run leaves stores pairs under keys 1, 2 and 5 only |
| BPlusTree.LostEntry | src/main/java/edu/mora/db/index/BPlusInternalNode.java:51-54 | after that run, as written, the pair of 8 and its record id is stored nowhere in the tree |
| BPlusTree.LostTreeEntries | src/main/java/edu/mora/db/index/BPlusInternalNode.java:53 | that tree stores the pairs of 1 and 2 twice, two of the four pairs of 5, and nothing else |
| BPlusTree.KeptLookup | src/main/java/edu/mora/db/index/BPlusInternalNode.java:27-29 | on the tree the corrected run leaves, search(8) finds its record id |
| BPlusTree.KeptSibling | src/main/java/edu/mora/db/index/BPlusInternalNode.java:51-54 | with the corrected take-in, after the same run search(8) finds its record id and the tree stores exactly the seven inserted pairs |
| BPlusTree.FindPos | src/main/java/edu/mora/db/index/BPlusInternalNode.java:32-36 | the scan loop returns Pos (also BPlusLeafNode.java:41-42) |
| BPlusTree.SearchLeaf | src/main/java/edu/mora/db/index/BPlusLeafNode.java:28-36 | the leaf's search loop returns the pointers of the equal keys in order |
| BPlusTree.SearchNode | src/main/java/edu/mora/db/index/BPlusInternalNode.java:27-29 | the recursive search returns Lookup (also BPlusLeafNode.java:28-36) |
| BPlusTree.BPlusTreeIndex.constructor | src/main/java/edu/mora/db/index/BPlusTreeIndex.java:19-23 | a new tree is a single empty leaf with no split pending, ordered and finding nothing |
| BPlusTree.BPlusTreeIndex.ClearSplit | src/main/java/edu/mora/db/index/BPlusTreeIndex.java:48-51 | clearSplit empties both split fields and keeps the root |
| BPlusTree.BPlusTreeIndex.InsertIntoLeaf | src/main/java/edu/mora/db/index/BPlusLeafNode.java:39-63 | the leaf insert returns LeafInsert's node and reports its split in the tree's fields |
| BPlusTree.BPlusTreeIndex.InsertIntoInternal | src/main/java/edu/mora/db/index/BPlusInternalNode.java:39-73 | the internal insert returns InsertNode's node and reports its split |
| BPlusTree.BPlusTreeIndex.TakeSplit | src/main/java/edu/mora/db/index/BPlusInternalNode.java:44-71 | taking in the pending split clears it and returns Absorb's node, reporting Absorb's split |
| BPlusTree.BPlusTreeIndex.SplitIfFull | src/main/java/edu/mora/db/index/BPlusInternalNode.java:56-71 | a node holding order keys or more splits and reports the key that moves up |
| BPlusTree.BPlusTreeIndex.InsertInto | src/main/java/edu/mora/db/index/BPlusNode.java:19 | node.insert returns InsertNode's node and reports its split |
| BPlusTree.BPlusTreeIndex.Insert | src/main/java/edu/mora/db/index/BPlusTreeIndex.java:25-39 | insert leaves TreeInsert's root with no split pending, keeps leaves sorted, appends a duplicate whose leaf has room, and makes a new key findable without changing other searches |
| BPlusTree.BPlusTreeIndex.Search | src/main/java/edu/mora/db/index/BPlusTreeIndex.java:41-43 | search returns Lookup of the root |
| IndexManager.IndexManager.constructor | src/main/java/edu/mora/db/index/IndexManager.java:12-13 | a new manager holds no index |
| IndexManager.IndexManager.CreateIndex | src/main/java/edu/mora/db/index/IndexManager.java:15-17 | createIndex registers a fresh empty tree of the given order under the name, replacing any index there and leaving every other index as it was |
| IndexManager.IndexManager.Insert | src/main/java/edu/mora/db/index/IndexManager.java:20-23 | insert on a registered name applies BPlusTreeIndex.insert to that tree alone; an unknown name fails with NullPointerException and nothing changes |
| IndexManager.IndexManager.Search | src/main/java/edu/mora/db/index/IndexManager.java:26-29 | search on a registered name returns that tree's matches; an unknown name fails with NullPointerException |
| JavaStrings.Leading | src/main/java/edu/mora/db/parser/SQLParser.java:19-24 | the blanks trim drops at the front: every unit before the count is blank and the next is not |
| JavaStrings.Trailing | src/main/java/edu/mora/db/parser/SQLParser.java:19-24 | the same at the back |
| JavaStrings.Trim | src/main/java/edu/mora/db/parser/SQLParser.java:19-50 | String.trim returns text that trim leaves unchanged, never longer than its input |
| JavaStrings.TrimAround | src/main/java/edu/mora/db/parser/SQLParser.java:68-69 | trim removes exactly the blanks around trimmed text (also lines 19, 92) |
| JavaStrings.Upper | src/main/java/edu/mora/db/parser/SQLParser.java:146 | String.toUpperCase keeps the length and upper-cases unit by unit, so an index found in the upper-cased text is valid in the original (also lines 35, 66, 89, 116) |
| JavaStrings.UpperConcat | src/main/java/edu/mora/db/parser/SQLParser.java:89 | upper-casing a concatenation upper-cases each part (also lines 35, 66) |
| JavaStrings.IndexFrom | src/main/java/edu/mora/db/parser/SQLParser.java:97 | the search from an index returns the first occurrence at or after it, or -1 when there is none (also lines 21, 67, 91) |
| JavaStrings.IndexOf | src/main/java/edu/mora/db/parser/SQLParser.java:148-149 | String.indexOf returns the first index where the pattern occurs, or -1 exactly when it occurs nowhere (also lines 21, 67, 91, 97, 118-119) |
| JavaStrings.IndexOfStart | src/main/java/edu/mora/db/parser/SQLParser.java:67 | text that begins with the pattern finds it at 0 (also line 21) |
| JavaStrings.IndexOfSkip | src/main/java/edu/mora/db/parser/SQLParser.java:67-97 | an occurrence that cannot start in a prefix is found in the rest, shifted by the prefix's length |
| JavaStrings.IndexOfBarrier | src/main/java/edu/mora/db/parser/SQLParser.java:67-97 | a unit the pattern does not contain separates two texts for the search |
| JavaStrings.FirstIndex | src/main/java/edu/mora/db/parser/SQLParser.java:48-74 | indexOf(char) returns the first index holding the unit, or -1 when it is absent |
| JavaStrings.LastIndex | src/main/java/edu/mora/db/parser/SQLParser.java:50-74 | lastIndexOf(char) returns the last index holding the unit, or -1 when it is absent |
| JavaStrings.Substring | src/main/java/edu/mora/db/parser/SQLParser.java:121-125 | substring(b, e) succeeds exactly when 0 <= b <= e <= length and returns the units in between; otherwise StringIndexOutOfBoundsException (also lines 14, 30, 49-50, 68, 74, 151-153) |
| JavaStrings.SubstringFrom | src/main/java/edu/mora/db/parser/SQLParser.java:157 | substring(b) succeeds exactly when 0 <= b <= length and returns the suffix (also lines 24, 47, 69, 92, 99, 135) |
| JavaStrings.Pieces | src/main/java/edu/mora/db/parser/SQLParser.java:128 | the pieces between the occurrences of a unit join back to the text and contain no such unit (also lines 52, 76) |
| JavaStrings.PiecesJoin | src/main/java/edu/mora/db/parser/SQLParser.java:128 | splitting a join of pieces without the unit gives the pieces back (also lines 52, 76) |
| JavaStrings.DropEmptyTail | src/main/java/edu/mora/db/parser/SQLParser.java:128 | split with limit 0 drops only the empty strings at the end (also lines 52, 76) |
| JavaStrings.SplitAt | src/main/java/edu/mora/db/parser/SQLParser.java:128 | split(",") returns the text alone when it holds no comma, and otherwise a prefix of the pieces, none holding a comma (also lines 52, 76) |
| JavaStrings.SplitFirst | src/main/java/edu/mora/db/parser/SQLParser.java:158 | split("=", 2) returns one piece exactly when there is no '=', and otherwise the text before the first '=' and all after it (also lines 100, 129, 136) |
| JavaStrings.FirstSep | src/main/java/edu/mora/db/parser/SQLParser.java:56-93 | the first separator unit, or -1 when there is none |
| JavaStrings.RunLength | src/main/java/edu/mora/db/parser/SQLParser.java:56-93 | the run of separators at the front |
| JavaStrings.RunPieces | src/main/java/edu/mora/db/parser/SQLParser.java:56-93 | the pieces between separator runs hold no separator |
| JavaStrings.SplitRuns | src/main/java/edu/mora/db/parser/SQLParser.java:56-93 | split on a run pattern returns separator-free pieces, the text alone when it has no separator |
| JavaStrings.RunPiecesCons | src/main/java/edu/mora/db/parser/SQLParser.java:56-93 | a word followed by one separator is the first piece |
| JavaStrings.SplitWords | src/main/java/edu/mora/db/parser/SQLParser.java:56-93 | words joined by single separators split into exactly those words |
| JavaStrings.SplitRunsWords | src/main/java/edu/mora/db/parser/SQLParser.java:56-93 | the same for split with limit 0 |
| JavaStrings.SplitAtJoin | src/main/java/edu/mora/db/parser/SQLParser.java:128 | split(",") of comma-free pieces, the last non-empty, joined with commas gives the pieces back (also lines 52, 76) |
| JavaStrings.SplitRunsHead | src/main/java/edu/mora/db/parser/SQLParser.java:71-94 | the first piece of a word, a separator and more text is the word |
| JavaStrings.SplitFirstAt | src/main/java/edu/mora/db/parser/SQLParser.java:158 | split("=", 2) at the first '=' returns the text before it and the text after it (also lines 100, 129, 136) |
| JavaStrings.UpperOfCaps | src/main/java/edu/mora/db/parser/SQLParser.java:35-58 | upper-casing leaves text without lower-case ASCII letters alone |
| SqlParser.StripQuotes | src/main/java/edu/mora/db/parser/SQLParser.java:12-16 | stripQuotes removes the first and last unit of quoted text and leaves other text alone; a lone quote makes substring throw |
| SqlParser.QuotedTest | src/main/java/edu/mora/db/parser/SQLParser.java:13 | the startsWith/endsWith test is Quoted, and the lone quote is the only quoted text shorter than two units |
| SqlParser.StripQuotesOfQuoted | src/main/java/edu/mora/db/parser/SQLParser.java:12-16 | stripping the quotes of quoted text gives the text back |
| SqlParser.StripSemi | src/main/java/edu/mora/db/parser/SQLParser.java:29-31 | stripSemi changes only text that ends with ';', and then returns shorter trimmed text |
| SqlParser.StripSemiOfTerminated | src/main/java/edu/mora/db/parser/SQLParser.java:29-31 | a terminating ';' and the blanks before it are both removed |
| SqlParser.CommentsStrippedFrom | src/main/java/edu/mora/db/parser/SQLParser.java:20-25 | the comment loop returns trimmed text no longer than its input; text still starting with /* then has no closing */ |
| SqlParser.CommentsStripped | src/main/java/edu/mora/db/parser/SQLParser.java:18-27 | stripLeadingComments returns trimmed text that begins with no closed comment |
| SqlParser.StripLeadingComments | src/main/java/edu/mora/db/parser/SQLParser.java:18-27 | the loop computes CommentsStripped |
| SqlParser.CommentDiscarded | src/main/java/edu/mora/db/parser/SQLParser.java:20-25 | a closed leading comment is dropped together with the blanks after it |
| SqlParser.TypeNamed | src/main/java/edu/mora/db/parser/SQLParser.java:58-59 | Schema.Type.valueOf accepts exactly INT and STRING and otherwise throws with the name in the message |
| SqlParser.WhereCondition | src/main/java/edu/mora/db/parser/SQLParser.java:100-109 | a condition fails exactly when it has no '=' or its value is a lone quote, and only with a slicing failure (also lines 136-139, 158-161) |
| SqlParser.ConditionAfter | src/main/java/edu/mora/db/parser/SQLParser.java:99-109 | reading a condition from an index fails only with a slicing failure (also lines 135-139, 157-161) |
| SqlParser.ColumnDef | src/main/java/edu/mora/db/parser/SQLParser.java:56-59 | one column definition fails only with a slicing failure or an unknown type |
| SqlParser.ColumnsOf | src/main/java/edu/mora/db/parser/SQLParser.java:55-60 | the definitions give one name and one type each, in order |
| SqlParser.ParseColumns | src/main/java/edu/mora/db/parser/SQLParser.java:53-60 | the loop of parseCreate computes ColumnsOf |
| SqlParser.PrefixFailureColumns | src/main/java/edu/mora/db/parser/SQLParser.java:55-60 | the first bad definition ends the loop |
| SqlParser.ParseCreate | src/main/java/edu/mora/db/parser/SQLParser.java:45-62 | parseCreate returns a CREATE TABLE with as many types as names, or a slicing failure |
| SqlParser.ValueOf | src/main/java/edu/mora/db/parser/SQLParser.java:77-81 | one value fails only where substring throws |
| SqlParser.ValuesOf | src/main/java/edu/mora/db/parser/SQLParser.java:76-83 | the values come one per piece, in order |
| SqlParser.ValuesStep | src/main/java/edu/mora/db/parser/SQLParser.java:76-83 | one more piece adds its value at the end, or the failure |
| SqlParser.ParseValues | src/main/java/edu/mora/db/parser/SQLParser.java:75-83 | the loop of parseInsert computes ValuesOf |
| SqlParser.PrefixFailureValues | src/main/java/edu/mora/db/parser/SQLParser.java:76-83 | the first bad value ends the loop |
| SqlParser.ParseInsert | src/main/java/edu/mora/db/parser/SQLParser.java:64-85 | parseInsert returns an INSERT or a slicing failure |
| SqlParser.InsertAt | src/main/java/edu/mora/db/parser/SQLParser.java:68-84 | the same once VALUES is found |
| SqlParser.InsertParts | src/main/java/edu/mora/db/parser/SQLParser.java:71-84 | the same from the texts before and after VALUES |
| SqlParser.ParseSelect | src/main/java/edu/mora/db/parser/SQLParser.java:87-113 | parseSelect returns a SELECT, with a condition exactly when the upper-cased text contains WHERE, or a slicing failure |
| SqlParser.SelectAt | src/main/java/edu/mora/db/parser/SQLParser.java:92-112 | the same once FROM and WHERE are located |
| SqlParser.Keys | src/main/java/edu/mora/db/parser/SQLParser.java:127-131 | the keys of the insertion-ordered map, in order |
| SqlParser.KeyIndex | src/main/java/edu/mora/db/parser/SQLParser.java:130 | the key's position in the map, or -1 when absent |
| SqlParser.Put | src/main/java/edu/mora/db/parser/SQLParser.java:130 | LinkedHashMap.put keeps keys distinct, keeps an existing key in place and appends a new one |
| SqlParser.GetPut | src/main/java/edu/mora/db/parser/SQLParser.java:130 | after put the key reads the new value and every other key what it read before |
| SqlParser.AssignmentOf | src/main/java/edu/mora/db/parser/SQLParser.java:129-130 | one assignment fails only with a slicing failure |
| SqlParser.AssignmentsOf | src/main/java/edu/mora/db/parser/SQLParser.java:128-131 | the assignments make a map with distinct keys |
| SqlParser.AssignmentsStep | src/main/java/edu/mora/db/parser/SQLParser.java:128-131 | one more pair puts its assignment into the map, or fails |
| SqlParser.CollectAssignments | src/main/java/edu/mora/db/parser/SQLParser.java:127-131 | the loop of parseUpdate computes AssignmentsOf |
| SqlParser.PrefixFailureAssignments | src/main/java/edu/mora/db/parser/SQLParser.java:128-131 | the first bad pair ends the loop |
| SqlParser.LastAssignmentWins | src/main/java/edu/mora/db/parser/SQLParser.java:127-131 | a column assigned twice keeps its last value |
| SqlParser.AssignmentOrder | src/main/java/edu/mora/db/parser/SQLParser.java:127-131 | the map lists the columns in the order they are first assigned |
| SqlParser.ParseUpdate | src/main/java/edu/mora/db/parser/SQLParser.java:115-142 | parseUpdate returns an UPDATE whose assignments have distinct columns, or a slicing failure |
| SqlParser.ParseDelete | src/main/java/edu/mora/db/parser/SQLParser.java:144-164 | parseDelete returns a DELETE, with a condition exactly when the upper-cased text contains WHERE, or a slicing failure |
| SqlParser.DeleteAt | src/main/java/edu/mora/db/parser/SQLParser.java:151-163 | the same once FROM and WHERE are located |
| SqlParser.Parse | src/main/java/edu/mora/db/parser/SQLParser.java:33-43 | parse rejects text that does not begin with one of the five statement words with "Unsupported SQL: " and the stripped text |
| SqlParser.SlicingNotUnsupported | src/main/java/edu/mora/db/parser/SQLParser.java:42 | no failure of a statement's own parser reads as unsupported SQL |
| SqlParser.ParseKinds | src/main/java/edu/mora/db/parser/SQLParser.java:33-43 | parse reports unsupported SQL exactly for text without a statement word, and otherwise returns the statement its first word names or that parser's failure |
| SqlParser.UpdateAt | src/main/java/edu/mora/db/parser/SQLParser.java:121-141 | with SET and WHERE found at the given indices, parseUpdate reads an UPDATE with distinct columns, with a condition exactly when WHERE was found, or fails while slicing |
| SqlRender.ValueOfQuoted | src/main/java/edu/mora/db/parser/SQLParser.java:77-82 | a quoted literal reads back as its value |
| SqlRender.ValuesOfQuoted | src/main/java/edu/mora/db/parser/SQLParser.java:76-83 | quoted literals read back as their values, in order |
| SqlRender.SplitQuoted | src/main/java/edu/mora/db/parser/SQLParser.java:76 | comma-joined quoted values without commas split back into the quoted values |
| SqlRender.PlainText | src/main/java/edu/mora/db/parser/SQLParser.java:18-27 | text that begins and ends with a non-blank and does not begin with '/' passes stripLeadingComments unchanged |
| SqlRender.UpperWords | src/main/java/edu/mora/db/parser/SQLParser.java:89 | upper-casing space-separated words keeps every word's start index (also lines 35, 66) |
| SqlRender.KeywordAt | src/main/java/edu/mora/db/parser/SQLParser.java:148-149 | a keyword without spaces is first found at the start of the first word that begins with it, when no earlier word holds it (also lines 67, 91, 97) |
| SqlRender.KeywordAbsent | src/main/java/edu/mora/db/parser/SQLParser.java:149 | a keyword no word holds is not found (also line 97) |
| SqlRender.TextBefore | src/main/java/edu/mora/db/parser/SQLParser.java:68 | trimmed, the text before word i is the earlier words |
| SqlRender.TextAfter | src/main/java/edu/mora/db/parser/SQLParser.java:69-99 | trimmed, the text after word i is the later words |
| SqlRender.IdentWords | src/main/java/edu/mora/db/parser/SQLParser.java:71-93 | names joined by single spaces split on either run pattern back into the names |
| SqlRender.InsertDispatch | src/main/java/edu/mora/db/parser/SQLParser.java:33-38 | a rendered INSERT is handed to parseInsert |
| SqlRender.InsertValues | src/main/java/edu/mora/db/parser/SQLParser.java:66-67 | VALUES is found at the fourth word when the table name does not contain it |
| SqlRender.InsertAtOf | src/main/java/edu/mora/db/parser/SQLParser.java:68-69 | parseInsert reads the trimmed texts on either side of VALUES |
| SqlRender.InsertTarget | src/main/java/edu/mora/db/parser/SQLParser.java:71-72 | the third word of INSERT INTO t is t |
| SqlRender.Parenthesised | src/main/java/edu/mora/db/parser/SQLParser.java:74 | the text between the first '(' and the last ')' of a parenthesised list is the list |
| SqlRender.QuotedValuesRead | src/main/java/edu/mora/db/parser/SQLParser.java:74-83 | comma-joined quoted values read back as the values |
| SqlRender.InsertParsed | src/main/java/edu/mora/db/parser/SQLParser.java:64-85 | parseInsert of a rendered INSERT gives its table and values back |
| SqlRender.InsertRoundTrip | src/main/java/edu/mora/db/parser/SQLParser.java:64-85 | parse reads INSERT INTO t VALUES ('v1', ...) back as the table name and every value, for a name that is letters, digits and underscores without VALUES in it and values without commas (also lines 33-43) |
| SqlRender.ConditionRead | src/main/java/edu/mora/db/parser/SQLParser.java:100-109 | a condition "col = 'v'" reads back as its column and value |
| SqlRender.ValueUnquoted | src/main/java/edu/mora/db/parser/SQLParser.java:104-108 | a quoted value has no semicolon to strip and loses its quotes (also lines 139, 161) |
| SqlRender.FirstWord | src/main/java/edu/mora/db/parser/SQLParser.java:93-94 | the first space-separated word of a text of words is its first word |
| SqlRender.SelectDispatch | src/main/java/edu/mora/db/parser/SQLParser.java:33-39 | a rendered SELECT is handed to parseSelect |
| SqlRender.SelectKeywords | src/main/java/edu/mora/db/parser/SQLParser.java:89-97 | FROM is found at the third word, and WHERE at the fifth when there is a condition and nowhere otherwise |
| SqlRender.TableAfterAt | src/main/java/edu/mora/db/parser/SQLParser.java:92-94 | the name after FROM is the first space-separated word after it |
| SqlRender.ConditionAfterAt | src/main/java/edu/mora/db/parser/SQLParser.java:99-109 | a condition as the last word reads back after the word before it |
| SqlRender.SelectOf | src/main/java/edu/mora/db/parser/SQLParser.java:87-113 | parseSelect is SelectAt at the indices of FROM and WHERE |
| SqlRender.SelectFromShape | src/main/java/edu/mora/db/parser/SQLParser.java:87-113 | parseSelect on words of the rendered shape reads the table and the condition |
| SqlRender.SelectRoundTrip | src/main/java/edu/mora/db/parser/SQLParser.java:87-113 | parse reads SELECT * FROM t [WHERE c = 'v'] back as the table name and the condition, for names without WHERE in them (also lines 33-43) |
| SqlRender.DeleteDispatch | src/main/java/edu/mora/db/parser/SQLParser.java:33-41 | a rendered DELETE is handed to parseDelete |
| SqlRender.DeleteKeywords | src/main/java/edu/mora/db/parser/SQLParser.java:146-149 | FROM is found at the second word, and WHERE at the fourth when there is a condition and nowhere otherwise |
| SqlRender.MiddleWord | src/main/java/edu/mora/db/parser/SQLParser.java:151-153 | trimmed, the text between FROM and WHERE is the table name |
| SqlRender.DeleteOf | src/main/java/edu/mora/db/parser/SQLParser.java:144-164 | parseDelete is DeleteAt at the indices of FROM and WHERE |
| SqlRender.DeleteFromShape | src/main/java/edu/mora/db/parser/SQLParser.java:144-164 | parseDelete on words of the rendered shape reads the table and the condition |
| SqlRender.DeleteRoundTrip | src/main/java/edu/mora/db/parser/SQLParser.java:144-164 | parse reads DELETE FROM t [WHERE c = 'v'] back as the table name and the condition, for names without WHERE in them (also lines 33-43) |
| SqlRender.TypeWordRead | src/main/java/edu/mora/db/parser/SQLParser.java:58-59 | the word rendered for a column type is a name, and valueOf of its upper case gives the type back |
| SqlRender.ColumnRead | src/main/java/edu/mora/db/parser/SQLParser.java:56-59 | a definition "name TYPE" reads back as the column name and type |
| SqlRender.ColumnsRead | src/main/java/edu/mora/db/parser/SQLParser.java:52-60 | the definitions of the columns read back as the names and types, in order |
| SqlRender.ColumnListSplit | src/main/java/edu/mora/db/parser/SQLParser.java:50-52 | the comma-joined definitions need no trimming and split on commas back into the definitions |
| SqlRender.CreateFrom | src/main/java/edu/mora/db/parser/SQLParser.java:45-62 | parseCreate of a text whose part after CREATE TABLE is "t (list)" reads t and the columns the list holds |
| SqlRender.CreateParsed | src/main/java/edu/mora/db/parser/SQLParser.java:45-62 | parseCreate of a rendered CREATE TABLE gives its name, columns and types back |
| SqlRender.CreateRoundTrip | src/main/java/edu/mora/db/parser/SQLParser.java:33-62 | parse reads CREATE TABLE t (c1 T1, ...) back as the table name, every column name and every type, for names of letters, digits and underscores and at least one column |
| SqlRender.AssignRead | src/main/java/edu/mora/db/parser/SQLParser.java:129-130 | an assignment col='v' reads back as its column and value |
| SqlRender.AssignmentsRead | src/main/java/edu/mora/db/parser/SQLParser.java:127-131 | assignments to distinct named columns read back as themselves, in order |
| SqlRender.ListSplit | src/main/java/edu/mora/db/parser/SQLParser.java:124-128 | the comma-joined assignments need no trimming and split on commas back into the assignments |
| SqlRender.ListAvoids | src/main/java/edu/mora/db/parser/SQLParser.java:119 | the list of assignments holds no " WHERE " in any case |
| SqlRender.SetFound | src/main/java/edu/mora/db/parser/SQLParser.java:116-118 | " SET " is found right after the table name, when the name is not SET |
| SqlRender.ClauseFound | src/main/java/edu/mora/db/parser/SQLParser.java:119 | after the list, " WHERE " is found exactly where the clause starts, and nowhere without one |
| SqlRender.WhereFound | src/main/java/edu/mora/db/parser/SQLParser.java:116-119 | in the whole rendered UPDATE, " WHERE " is found at the clause when there is one and nowhere otherwise |
| SqlRender.ClauseRead | src/main/java/edu/mora/db/parser/SQLParser.java:134-140 | the text after " WHERE " reads back as the condition |
| SqlRender.UpdateLocated | src/main/java/edu/mora/db/parser/SQLParser.java:115-119 | parseUpdate of a rendered UPDATE is UpdateAt at the places the clauses start |
| SqlRender.UpdateCutsRead | src/main/java/edu/mora/db/parser/SQLParser.java:121-141 | at those places UpdateAt reads back the table, the assignments and the condition |
| SqlRender.UpdateParsed | src/main/java/edu/mora/db/parser/SQLParser.java:115-142 | parseUpdate of a rendered UPDATE gives its table, assignments and condition back |
| SqlRender.UpdateDispatch | src/main/java/edu/mora/db/parser/SQLParser.java:33-40 | a rendered UPDATE is handed to parseUpdate |
| SqlRender.UpdateRoundTrip | src/main/java/edu/mora/db/parser/SQLParser.java:115-142 | parse reads UPDATE t SET k1='v1',... [WHERE c = 'v'] back as the table, every assignment in order and the condition, for a table name other than SET and WHERE, distinct named columns, and values without commas or " WHERE " (also lines 33-40) |

## Left out

- Concurrency is not modelled: the `wal-hardener` thread, the `ConcurrentHashMap` and every `synchronized` (TransactionManager.java:22-47). One sequential caller is modelled. FAST commit therefore leaves its COMMIT record and pages unsynced, and nothing later hardens them.
- `close()` of `WALManager` and `TransactionManager` is not modelled. It only flushes and closes files.
- Real file I/O is replaced by values. The page file and the log are byte sequences. `getFD().sync()` is the `durable` marker of `Wal.WALManager`: the prefix of the log that a crash keeps.
- `Catalog.registerPage`, which `Table.allocateFreshPage` calls, becomes the `registered` sequence of `Tables.Table`. It records the calls in order. `Catalog.java` is not part of this model: it is file persistence, and its `Table` constructor call does not match `Table`.
- `SimpleExecutor.java`, `CLI.java` and `Main.java` are not part of this model. They are console glue over the core.
- `String.toUpperCase` is modelled for ASCII letters only (`JavaStrings.UpperChar`). Java's locale- and Unicode-aware version can change lengths: "ß" becomes "SS", which shifts every index the parser takes from the upper-cased copy. It also maps letters outside ASCII: "ınt" becomes "INT", so Java accepts it as a type name and the model does not.
- Strings in the tuple codec are the bytes `getBytes` produces. The platform charset of `getBytes` and `new String` is not modelled. `Tuples` works on byte sequences, and the parser works on `char` sequences.
- Negative page ids are excluded by the `Disk.PageId` subset type. Java's `readPage` and `writePage` accept any `int` and then fail at the negative seek.
- `Disk.DiskManager.WritePage` writes any array at the page's offset, as the Java does. The page-level properties need `|d| == PAGE_SIZE`, because the Java never checks the length.
- Transactions.TransactionManager.RecordPageUpdate: requires `|before| == PAGE_SIZE` and a record whose length fits an `int`. The Java accepts arrays of any length. Every caller in `Table` passes whole pages, and rollback copies exactly `PAGE_SIZE` bytes from each before-image.
- Tables.Table.UpdateTuple: for a longer record, the relocation branch is stated as the undo entries it adds (`Moved`) and the log record it ends with (`EndsWith`). The resulting views of the pool are not stated. The tombstone is written to the cached page without `markDirty`, and `insertTuple`'s own `getPage` calls can evict that page while it is still clean (BufferPool.java:17-26, 74-79). `markDirty` on a page that is no longer cached does nothing (BufferPool.java:54-57). So whether the tombstone reaches the file depends on the cache's state, and the source promises no single outcome. A record over `PAGE_SIZE - 8` bytes is stated in full: the error, nothing logged, and the tombstoned view.
- The leaf `next` sibling link (BPlusLeafNode.java:57-58) is not modelled. No operation of the index reads it: search descends from the root, and there is no range scan.
- B+ tree keys are `int`. The Java keys are any `Comparable`, and `int` is the key type the index is used with.
- B+ tree nodes are values, not shared mutable objects. The tree's nodes are never shared between trees, so aliasing does not arise through the index's own operations. What is lost is the identity of a node object across calls.
- B+ tree search completeness is proved for distinct keys only. With duplicates the source loses entries in two ways. Search descends into exactly one child (BPlusInternalNode.java:32-36), so duplicates of a key that straddle a leaf split are not all found. And when a leaf splits under a duplicated key, BPlusInternalNode.java:51-54 sets the child at findChildIndex(splitKey), which can be a sibling of the child that split: that whole sibling leaf is overwritten, and keys inserted only once are lost with it (see "## Findings"). The corrected take-in stores every inserted pair for any keys (`BPlusTree.CorrectedTreeInsertEntries`). For a key the tree does not hold it builds the source's tree (`BPlusTree.CorrectedTreeAgrees`).
- Table slot arithmetic wraps as Java `int` arithmetic does, but the proofs about reads and scans after inserts hold only for packed pages. Those are pages with no tombstoned or shrunk records, where the records lie back to back. A page with a delete or a shrinking update is covered only by the delete lemmas.

## Findings

| source | as written | input that shows it | evidently intended | confidence | as-written member | corrected member |
|---|---|---|---|---|---|---|
| src/main/java/edu/mora/db/storage/TransactionManager.java:30 | every TransactionManager starts its ids at 1, also when the log already holds an earlier run's records, and recovery redoes every UPDATE whose id has a COMMIT anywhere in the log | run 1 logs BEGIN 1, UPDATE(1, p, b1, a1), COMMIT 1; run 2's first transaction is again 1, logs UPDATE(1, p, b2, a2) and never commits; recover leaves page p with a2 | ids resume past the largest id in the log, so a transaction that never commits is never redone | not executed | Wal.ReusedIdReplayed | Wal.FreshIdNotReplayed |
| src/main/java/edu/mora/db/table/Table.java:189-191 | findPageWithSpace accepts a page when the free gap is at least recLen + 4, but writeRecordIntoPage uses recLen + 8: the length prefix, the payload and a new 4-byte slot | an empty page (gap 4092) and a 4088-byte record: the fit test accepts it, and slot 0 is written over the last four bytes of its payload, so readTuple returns a different record | the gap must hold recLen + 8 bytes, as Fits tests | not executed | HeapPage.FitCheckOverlap | HeapPage.RoomPlaceRead |
| src/main/java/edu/mora/db/table/Table.java:91-100 | deleteTuple sets the record's length to 0, while the next insert offset is the sum of the current lengths (Table.java:184-188, 205-209) | records A of 10 bytes at offset 4 and B of 10 bytes at 18; after deleting A the next offset is 22, inside B, so the next insert overwrites B | a delete keeps the space of the deleted record counted, for example by negating its length and summing absolute values | not executed | HeapPage.DeleteNext | HeapPage.RetireNext |
| src/main/java/edu/mora/db/index/BPlusInternalNode.java:51-54 | after a child splits, the split key goes in at findChildIndex(splitKey) and the child at that position is set to the child that split; with a duplicated split key that position lies right of the child that split, so a sibling is overwritten | order 4, keys 5, 5, 5, 5, 8, 1, 2 with record ids 0 to 6: the last insert splits the leaf [1, 2, 5, 5] under key 5, findChildIndex(5) is 1, and child 1, the leaf [5, 5, 8], is replaced; the root becomes [5, 5] over [1, 2], [1, 2], [5, 5], search(8) returns nothing and search(5) two of four ids | the split key and the sibling go in at the position the insert went down (keys.add(idx, splitKey), children.set(idx, child), children.add(idx + 1, sibling)), so every inserted pair stays stored | not executed | BPlusTree.LostSibling | BPlusTree.CorrectedTreeInsertEntries |
