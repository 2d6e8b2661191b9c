/** Table: a heap file of slotted pages reached through the buffer pool, every
    page change handed to the transaction manager with the page's bytes from
    just before and just after it. The byte layout and its properties are in
    HeapPage; here are the loops and in-place writes of Table.java over a
    page's byte array, and the table operations over the pool. */
module Tables {
  import opened Bytes
  import opened Wrappers
  import opened Disk
  import opened Buffer
  import Wal
  import opened Transactions
  import opened Schemas
  import opened Tuples
  import opened HeapPage

  // ----- ByteBuffer and System.arraycopy over a page's bytes

  /** ByteBuffer.putInt(at, v) on the page array; out of range it throws
      before writing anything. */
  method PutIntInto(data: array<Byte>, at: int, v: Int32) returns (ok: bool)
    requires data.Length == PAGE_SIZE
    modifies data
    ensures ok <==> PutInt(old(data[..]), at, v).Some?
    ensures data[..] == if ok then PutInt(old(data[..]), at, v).value else old(data[..])
    ensures !ok ==> unchanged(data)
  {
    if !(0 <= at <= PAGE_SIZE - INT_BYTES) {
      return false;
    }
    var b := EncodeInt32(v);
    data[at], data[at + 1], data[at + 2], data[at + 3] := b[0], b[1], b[2], b[3];
    assert data[..] == old(data[..])[..at] + b + old(data[..])[at + INT_BYTES..];
    ok := true;
  }

  /** System.arraycopy(rec, 0, data, at, rec.length): checks the bounds first,
      then copies. Its ArrayIndexOutOfBoundsException is reported by callers
      under the superclass name IndexOutOfBoundsException. */
  method CopyInto(data: array<Byte>, at: int, rec: seq<Byte>) returns (ok: bool)
    requires data.Length == PAGE_SIZE
    modifies data
    ensures ok <==> 0 <= at && at + |rec| <= PAGE_SIZE
    ensures data[..] == if ok then WriteAt(old(data[..]), at, rec) else old(data[..])
  {
    if !(0 <= at && at + |rec| <= PAGE_SIZE) {
      return false;
    }
    ghost var p := data[..];
    forall k | 0 <= k < |rec| {
      data[at + k] := rec[k];
    }
    assert data[..] == p[..at] + rec + p[at + |rec|..];
    ok := true;
  }

  /** The loop findPageWithSpace and writeRecordIntoPage share: the header plus,
      for every slot, four bytes and the length at the slot's offset, in int
      arithmetic. A getInt outside the page throws. */
  method UsedBytes(page: seq<Byte>) returns (r: Option<Int32>)
    requires |page| == PAGE_SIZE
    ensures r == NextOffset(page)
  {
    var slots: int := SlotCount(page);
    var used: Int32 := HEADER_SIZE;
    var i: nat := 0;
    while i < slots
      invariant 0 <= i && (slots >= 0 ==> i <= slots)
      invariant OffsetFrom(Ints(page), slots, i, used) == NextOffset(page)
      decreases slots - i
    {
      var off := GetInt(page, SlotPos(i));
      if off.None? {
        return None;
      }
      var len := GetInt(page, off.value);
      if len.None? {
        return None;
      }
      used := Wrap32(used + INT_BYTES + len.value);
      i := i + 1;
    }
    r := Some(used);
  }

  /** findPageWithSpace's test on one page: the free gap between the used
      bytes and the slot directory, computed in int arithmetic, against
      recLen + BYTES. */
  method HasRoom(page: seq<Byte>, recLen: nat) returns (r: Option<bool>)
    requires |page| == PAGE_SIZE && recLen <= MAX_RECORD
    ensures r == HasSpace(page, recLen)
  {
    var numSlots: int := SlotCount(page);
    var used := UsedBytes(page);
    if used.None? {
      return None;
    }
    var slotDirStart: int := Wrap32(PAGE_SIZE - Wrap32(4 * numSlots));
    var free: int := Wrap32(slotDirStart - used.value);
    r := Some(free >= recLen + INT_BYTES);
  }

  /** writeRecordIntoPage: the length and payload at the next offset, the
      offset in slot N, and N + 1 as the slot count, in that order; an
      exception part way leaves the writes made before it. */
  method WriteRecordIntoPage(data: array<Byte>, rec: seq<Byte>) returns (r: Option<Int32>)
    requires data.Length == PAGE_SIZE && |rec| <= MAX_RECORD
    modifies data
    ensures data[..] == Place(old(data[..]), rec).page
    ensures r == Place(old(data[..]), rec).offset
  {
    var slots: Int32 := SlotCount(data[..]);
    var offset := UsedBytes(data[..]);
    if offset.None? {
      return None;
    }
    var ok := PutIntInto(data, offset.value, |rec|);
    if !ok {
      return None;
    }
    ok := CopyInto(data, offset.value + INT_BYTES, rec);
    if !ok {
      return None;
    }
    ok := PutIntInto(data, NewSlotPos(slots), offset.value);
    if !ok {
      return None;
    }
    ok := PutIntInto(data, 0, Wrap32(slots as int + 1));
    r := offset;
  }

  /** The in-place branch of updateTuple, once the old length at off was
      read: the new length, then the new payload. */
  method RewriteInPlace(data: array<Byte>, off: Int32, rec: seq<Byte>) returns (ok: bool)
    requires data.Length == PAGE_SIZE && 0 <= off <= PAGE_SIZE - INT_BYTES && |rec| <= PAGE_SIZE
    modifies data
    ensures data[..] == Rewrite(old(data[..]), off, rec).page
    ensures ok <==> Rewrite(old(data[..]), off, rec).offset.Some?
  {
    var _ := PutIntInto(data, off, |rec|);
    ok := CopyInto(data, off + INT_BYTES, rec);
  }

  /** A scan that has collected out and has rest still to come ends with whole:
      a failure in the rest is the scan's failure, otherwise the rows follow out. */
  ghost predicate Resumes(whole: Result<seq<Row>>, out: seq<Row>, rest: Result<seq<Row>>)
  {
    if rest.Err? then whole == rest else whole.Ok? && whole.value == out + rest.value
  }

  /** The rows kept from a live record in front of the rest of a scan. */
  function Prepend(kept: seq<Row>, rest: Result<seq<Row>>): (r: Result<seq<Row>>)
    ensures r.Ok? <==> rest.Ok?
  {
    if rest.Err? then rest else Ok(kept + rest.value)
  }

  /** One slot of the scan: cur, from this slot on, is next, from the following
      slot on, behind the rows kept here (none for a tombstone). */
  ghost predicate Step(cur: Result<seq<Row>>, kept: seq<Row>, next: Result<seq<Row>>)
  {
    (kept == [] && cur == next) || cur == Prepend(kept, next)
  }

  lemma StepResumes(whole: Result<seq<Row>>, out: seq<Row>, cur: Result<seq<Row>>, kept: seq<Row>, next: Result<seq<Row>>)
    requires Resumes(whole, out, cur) && Step(cur, kept, next)
    ensures Resumes(whole, out + kept, next)
  {
    if next.Ok? {
      assert out + [] == out;
      assert out + (kept + next.value) == out + kept + next.value;
    }
  }

  /** The body of the slot loop of scanRows at slot i: a failure ends the
      scan, otherwise the record's row is kept when the predicate holds. */
  method ScanSlot(page: seq<Byte>, schema: Schema, pid: PageId, pred: Tuple -> bool, slots: int, i: nat)
    returns (stop: Option<string>, kept: seq<Row>)
    requires |page| == PAGE_SIZE && WellFormed(schema) && i < slots
    ensures var cur := ScanFrom(Decode(schema), Ints(page), page, pid, pred, slots, i);
            stop.Some? ==> cur == Err(stop.value)
    ensures stop.None? ==>
              Step(ScanFrom(Decode(schema), Ints(page), page, pid, pred, slots, i), kept,
                   ScanFrom(Decode(schema), Ints(page), page, pid, pred, slots, i + 1))
  {
    kept := [];
    var off := GetInt(page, SlotPos(i));
    if off.None? {
      return Some("IndexOutOfBoundsException"), [];
    }
    var len := GetInt(page, off.value);
    if len.None? {
      return Some("IndexOutOfBoundsException"), [];
    }
    if len.value <= 0 {
      return None, [];
    }
    var rec := Payload(page, off.value, len.value);
    if rec.None? {
      return Some("IndexOutOfBoundsException"), [];
    }
    var t := Deserialize(schema, rec.value);
    assert Decode(schema)(rec.value) == t;
    if t.Err? {
      return Some(t.msg), [];
    }
    stop := None;
    kept := if pred(t.value) then [Row(RecordId(pid, off.value), t.value)] else [];
  }

  /** The slot loop of scanRows over one page: tombstones are skipped, every
      other record is deserialized with the schema and kept, as a row with
      its page and offset, when the predicate holds. */
  method ScanPage(page: seq<Byte>, schema: Schema, pid: PageId, pred: Tuple -> bool)
    returns (r: Result<seq<Row>>)
    requires |page| == PAGE_SIZE && WellFormed(schema)
    ensures r == PageRows(schema, page, pid, pred)
  {
    ghost var dec, get := Decode(schema), Ints(page);
    ghost var whole := PageRows(schema, page, pid, pred);
    var slots: int := SlotCount(page);
    var out: seq<Row> := [];
    var i: nat := 0;
    assert whole.Ok? ==> [] + whole.value == whole.value;
    while i < slots
      invariant 0 <= i && (slots >= 0 ==> i <= slots)
      invariant Resumes(whole, out, ScanFrom(dec, get, page, pid, pred, slots, i))
      decreases slots - i
    {
      var stop, kept := ScanSlot(page, schema, pid, pred, slots, i);
      if stop.Some? {
        return Err(stop.value);
      }
      StepResumes(whole, out, ScanFrom(dec, get, page, pid, pred, slots, i), kept,
                  ScanFrom(dec, get, page, pid, pred, slots, i + 1));
      out := out + kept;
      i := i + 1;
    }
    assert out + [] == out;
    r := Ok(out);
  }

  // ----- the table's pages as the pool shows them

  /** The id allocatePage hands out next lies just past the file's last whole
      page, as it does when the file is opened (until the counter wraps). */
  ghost predicate NextIsEnd(file: seq<Byte>, next: Int32)
  {
    0 <= next && next * PAGE_SIZE <= |file| < next * PAGE_SIZE + PAGE_SIZE
  }

  /** A whole-page write over a page that exists keeps the file's length. */
  lemma WriteBackLength(file: seq<Byte>, f: Frame)
    requires |f.bytes| == PAGE_SIZE && PageImage(file, f.id).Some?
    ensures |WriteBack(file, f)| == |file|
  {
  }

  /** allocatePage at the end of the file: the new page reads as zeros, every
      other page as before, and a coherent cache stays coherent. */
  lemma AllocKeeps(fs: seq<Frame>, file: seq<Byte>, n: PageId)
    requires CoherentF(fs, file, -1) && n * PAGE_SIZE <= |file| < n * PAGE_SIZE + PAGE_SIZE
    ensures var file' := WriteAt(file, n * PAGE_SIZE, Zeros(PAGE_SIZE));
            && CoherentF(fs, file', -1)
            && |file'| == n * PAGE_SIZE + PAGE_SIZE
            && ViewMap(fs, file') == ViewMap(fs, file)[n := Some(Zeros(PAGE_SIZE))]
  {
    var z := Zeros(PAGE_SIZE);
    var file' := WriteAt(file, n * PAGE_SIZE, z);
    ReadAfterWrite(file, n, z);
    forall j: PageId | j != n
      ensures PageImage(file', j) == PageImage(file, j)
    {
      if j < n {
        assert j * PAGE_SIZE + PAGE_SIZE <= n * PAGE_SIZE;
      }
      WriteKeepsOtherPages(file, n, z, j);
    }
    forall i | 0 <= i < |fs|
      ensures fs[i].id != n
    {
      assert PageImage(file, fs[i].id).Some?;
    }
    forall j: PageId
      ensures ViewF(fs, file', j) == ViewMap(fs, file)[n := Some(z)][j]
    {
      if j in IdsF(fs) {
        assert j != n;
      }
    }
  }

  /** A page of zeros, as allocatePage leaves it, has room for any record
      insertTuple accepts. */
  lemma ZerosRoom(recLen: nat)
    requires recLen <= MAX_RECORD
    ensures HasSpace(Zeros(PAGE_SIZE), recLen) == Some(true)
  {
    var z := Zeros(PAGE_SIZE);
    assert Word(z, 0, 4) == 0 by {
      assert Word(z, 0, 0) == 0;
      assert Word(z, 0, 1) == 0;
      assert Word(z, 0, 2) == 0;
      assert Word(z, 0, 3) == 0;
    }
    assert SlotCount(z) == 0;
    assert NextOffset(z) == Some(HEADER_SIZE);
  }

  /** findPageWithSpace's test on the page whose view is img: whether its gap
      is at least recLen + BYTES, or the exception the test throws (a page past
      the end of the file, a getInt outside the page). */
  ghost function RoomIn(img: Option<seq<Byte>>, recLen: nat): Result<bool>
    requires recLen <= MAX_RECORD
  {
    if img.None? then Err("EOFException")
    else if |img.value| != PAGE_SIZE then Err("IndexOutOfBoundsException")
    else
      var room := HasSpace(img.value, recLen);
      if room.None? then Err("IndexOutOfBoundsException") else Ok(room.value)
  }

  /** The page findPageWithSpace settles on among ids, given the pages' views:
      the first that passes the test, none when no page does, or the first
      exception. */
  ghost function FirstFit(views: imap<PageId, Option<seq<Byte>>>, ids: seq<PageId>, recLen: nat)
    : (r: Result<Option<PageId>>)
    requires recLen <= MAX_RECORD
    ensures r.Ok? && r.value.Some? ==>
              r.value.value in ids && r.value.value in views && RoomIn(views[r.value.value], recLen) == Ok(true)
  {
    if ids == [] then Ok(None)
    else
      var room := RoomIn(if ids[0] in views then views[ids[0]] else None, recLen);
      if room.Err? then Err(room.msg)
      else if room.value then Ok(Some(ids[0]))
      else FirstFit(views, ids[1..], recLen)
  }

  /** FirstFit from position i of ids: the test on ids[i] decides, or the
      search goes on from i + 1. */
  lemma FirstFitAt(views: imap<PageId, Option<seq<Byte>>>, ids: seq<PageId>, i: nat, recLen: nat)
    requires i < |ids| && recLen <= MAX_RECORD && ids[i] in views
    ensures var room := RoomIn(views[ids[i]], recLen);
            FirstFit(views, ids[i..], recLen) ==
              if room.Err? then Err(room.msg)
              else if room.value then Ok(Some(ids[i]))
              else FirstFit(views, ids[i + 1..], recLen)
  {
    assert ids[i..][1..] == ids[i + 1..];
  }

  /** The rows the slot loop of scanRows collects from page pid, whose view
      is img, or the exception that ends the scan there. */
  ghost function RowsIn(img: Option<seq<Byte>>, schema: Schema, pid: PageId, pred: Tuple -> bool)
    : Result<seq<Row>>
    requires WellFormed(schema)
  {
    if img.None? then Err("EOFException")
    else if |img.value| != PAGE_SIZE then Err("IndexOutOfBoundsException")
    else PageRows(schema, img.value, pid, pred)
  }

  /** The rows scanRows returns for the pages ids, given their views: each
      page's rows in turn, the first failure ending the scan. */
  ghost function TableRows(views: imap<PageId, Option<seq<Byte>>>, schema: Schema, ids: seq<PageId>, pred: Tuple -> bool)
    : (r: Result<seq<Row>>)
    requires WellFormed(schema)
  {
    if ids == [] then Ok([])
    else
      var rows := RowsIn(if ids[0] in views then views[ids[0]] else None, schema, ids[0], pred);
      if rows.Err? then rows else Prepend(rows.value, TableRows(views, schema, ids[1..], pred))
  }

  /** What readTuple returns for the record at off of a page whose view is img. */
  ghost function ReadFrom(img: Option<seq<Byte>>, schema: Schema, off: Int32): Result<Tuple>
    requires WellFormed(schema)
  {
    if img.None? then Err("EOFException")
    else if |img.value| != PAGE_SIZE then Err("IndexOutOfBoundsException")
    else
      var rec := ReadRecord(img.value, off);
      if rec.Err? then Err(rec.msg) else Deserialize(schema, rec.value)
  }

  /** Changing in place the bytes of p, the most recently used page of a
      coherent pool: p's page now reads as those bytes, every other page as
      before, and the pool is coherent but for p's page until it is marked
      dirty. */
  twostate lemma ChangedView(pool: BufferPool)
    requires old(pool.Valid()) && old(pool.lru) != [] && old(pool.Coherent())
    requires unchanged(pool, pool.disk) && forall q :: q in old(pool.lru) ==> unchanged(q)
    requires forall q :: q in old(pool.lru) && q.data != old(pool.lru[|pool.lru| - 1].data) ==> unchanged(q.data)
    ensures var p := pool.lru[|pool.lru| - 1];
            && pool.Valid() && pool.CoherentExcept(p.pageId)
            && pool.Views() == old(pool.Views())[p.pageId := Some(p.data[..])]
  {
    var s := old(pool.Snapshot());
    FramesOk(pool.lru, pool.capacity);
    assert pool.lru == old(pool.lru);
    var k := |s| - 1;
    var p := pool.lru[k];
    var file := pool.disk.file;
    var gs := s[k := s[k].(bytes := p.data[..])];
    forall i | 0 <= i < k
      ensures pool.Snapshot()[i] == gs[i]
    {
      var q := pool.lru[i];
      assert q in old(pool.lru) && q.data != old(pool.lru[|pool.lru| - 1].data);
      assert FrameOf(q) == old(FrameOf(q));
    }
    assert pool.Snapshot()[k] == gs[k];
    assert pool.Snapshot() == gs;
    WrittenLast(s, gs, file, p.pageId, p.data[..]);
  }

  /** The snapshot of a coherent pool whose most recently used entry, page
      id, now holds bytes: id reads as bytes, every other page as before, and
      the pool is coherent but for id. */
  lemma WrittenLast(s: seq<Frame>, gs: seq<Frame>, file: seq<Byte>, id: PageId, bytes: seq<Byte>)
    requires DistinctF(s) && WholeF(s) && CoherentF(s, file, -1) && |s| > 0 && |bytes| == PAGE_SIZE
    requires s[|s| - 1].id == id && gs == s[|s| - 1 := s[|s| - 1].(bytes := bytes)]
    ensures CoherentF(gs, file, id) && ViewMap(gs, file) == ViewMap(s, file)[id := Some(bytes)]
  {
    OverwriteLast(s, file, bytes);
  }

  /** recordPageUpdate(tx, pid, before, after) ran: the UPDATE record is
      appended to the log and synced, and when tx is open (ok) its undo list
      ends with the before-image; for any other tx the call throws after
      logging, and ok is false. */
  twostate predicate Logged(tm: TransactionManager, tx: Int64, pid: PageId, before: seq<Byte>, after: seq<Byte>, ok: bool)
    reads tm, tm.wal
  {
    && Wal.Encodable(Wal.Record.Update(tx, pid, before, after))
    && tm.wal.log == old(tm.wal.log) + Wal.Encode(Wal.Record.Update(tx, pid, before, after))
    && tm.wal.durable == |tm.wal.log|
    && ok == (tx in old(tm.updates))
    && tm.updates == (if ok then old(tm.updates)[tx := old(tm.updates)[tx] + [UndoEntry(pid, before)]]
                      else old(tm.updates))
    && tm.nextTxId == old(tm.nextTxId)
  }

  /** The undo lists u1 are u0 with the entries of the pages pids appended to
      the list of the open transaction tx. */
  ghost predicate Appended(u0: map<Int64, seq<UndoEntry>>, u1: map<Int64, seq<UndoEntry>>, tx: Int64, pids: seq<PageId>)
  {
    && tx in u0 && tx in u1
    && var n := |u0[tx]|;
    && |u1[tx]| == n + |pids|
    && u1 == u0[tx := u1[tx]]
    && u1[tx][..n] == u0[tx]
    && (forall i :: 0 <= i < |pids| ==> u1[tx][n + i].pageId == pids[i])
  }

  /** One more entry e after the entries of pids. */
  lemma AppendedOneMore(u0: map<Int64, seq<UndoEntry>>, u1: map<Int64, seq<UndoEntry>>, tx: Int64, pid: PageId, e: UndoEntry)
    requires Appended(u0, u1, tx, [pid])
    ensures Appended(u0, u1[tx := u1[tx] + [e]], tx, [pid, e.pageId])
  {
    var n := |u0[tx]|;
    var list := u1[tx] + [e];
    assert list[..n] == u1[tx][..n];
    assert list[n] == u1[tx][n] && list[n + 1] == e;
  }

  /** The open transaction tx gained the undo entries of the pages pids, in
      that order, and the log grew and is durable. */
  twostate predicate Noted(tm: TransactionManager, tx: Int64, pids: seq<PageId>)
    reads tm, tm.wal
  {
    && Appended(old(tm.updates), tm.updates, tx, pids)
    && old(tm.wal.log) <= tm.wal.log && tm.wal.durable == |tm.wal.log|
    && tm.nextTxId == old(tm.nextTxId)
  }

  /** A record moved from page from to page to: the undo list of tx gained
      the entry of to, then the entry of from with its image from before the
      move. */
  twostate predicate Moved(tm: TransactionManager, tx: Int64, to: PageId, from: PageId, before: seq<Byte>)
    reads tm, tm.wal
  {
    && Noted(tm, tx, [to, from])
    && tm.updates[tx][|tm.updates[tx]| - 1] == UndoEntry(from, before)
  }

  /** The log ends with the bytes e. */
  ghost predicate EndsWith(log: seq<Byte>, e: seq<Byte>)
  {
    |e| <= |log| && log[|log| - |e|..] == e
  }

  lemma EndsWithAppended(log: seq<Byte>, e: seq<Byte>)
    ensures EndsWith(log + e, e)
  {
    assert (log + e)[|log|..] == e;
  }

  /** Nothing reached the transaction manager. */
  twostate predicate Unlogged(tm: TransactionManager)
    reads tm, tm.wal
  {
    && tm.wal.log == old(tm.wal.log) && tm.wal.durable == old(tm.wal.durable)
    && tm.updates == old(tm.updates) && tm.nextTxId == old(tm.nextTxId)
  }

  /** deleteTuple on the page whose view is img: the page with a zero length
      at off, or the exception (a page past the end of the file, an offset
      outside the page). */
  ghost function Deleted(img: Option<seq<Byte>>, off: Int32): (r: Result<seq<Byte>>)
    ensures r.Ok? ==> |r.value| == PAGE_SIZE
  {
    if img.None? then Err("EOFException")
    else if |img.value| != PAGE_SIZE then Err("IndexOutOfBoundsException")
    else
      var q := Tombstone(img.value, off);
      if q.None? then Err("IndexOutOfBoundsException") else Ok(q.value)
  }

  /** updateTuple's choice for a new record of recLen bytes at off of the page
      whose view is img: in place (true) when it is no longer than the record
      there, elsewhere (false) otherwise; a deleted record, a page past the
      end of the file or an offset outside the page fail. */
  ghost function InPlace(img: Option<seq<Byte>>, off: Int32, recLen: nat): (r: Result<bool>)
    ensures r.Ok? ==> img.Some? && |img.value| == PAGE_SIZE && 0 <= off <= PAGE_SIZE - INT_BYTES
  {
    if img.None? then Err("EOFException")
    else if |img.value| != PAGE_SIZE then Err("IndexOutOfBoundsException")
    else
      var len := GetInt(img.value, off);
      if len.None? then Err("IndexOutOfBoundsException")
      else if len.value <= 0 then Err("Cannot update deleted tuple")
      else Ok(recLen <= len.value)
  }

  /** The page insertTuple writes into, and whether it is allocated for the
      record. */
  datatype Choice = Choice(pid: PageId, grows: bool)

  /** insertTuple's page for a record of recLen bytes: a new page (the next
      id) when the table has none, otherwise the page findPageWithSpace
      settles on, itself a new page when no page has room. */
  ghost function ChoosePage(views: imap<PageId, Option<seq<Byte>>>, ids: seq<PageId>, next: PageId, recLen: nat)
    : (r: Result<Choice>)
    requires recLen <= MAX_RECORD
    ensures r.Ok? && r.value.grows ==> r.value.pid == next
    ensures r.Ok? && !r.value.grows ==>
              r.value.pid in ids && r.value.pid in views && RoomIn(views[r.value.pid], recLen) == Ok(true)
  {
    if ids == [] then Ok(Choice(next, true))
    else
      var ff := FirstFit(views, ids, recLen);
      if ff.Err? then Err(ff.msg)
      else if ff.value.Some? then Ok(Choice(ff.value.value, false))
      else Ok(Choice(next, true))
  }

  /** The bytes of the chosen page before the record goes in. */
  ghost function ChosenImage(views: imap<PageId, Option<seq<Byte>>>, c: Choice): (img: seq<Byte>)
    requires c.grows || (c.pid in views && views[c.pid].Some?)
  {
    if c.grows then Zeros(PAGE_SIZE) else views[c.pid].value
  }

  // ----- what the operations promise one another, page by page

  /** insertTuple then readTuple: on a packed page with room for the record
      and its slot, the record goes at the page's end and reads back as the
      tuple inserted. */
  lemma InsertThenRead(page: seq<Byte>, schema: Schema, t: Tuple)
    requires Packed(page) && Shaped(t) && t.schema == schema && WellTyped(schema.types, t.values)
    requires Serialize(t).Ok? && 1 <= |Serialize(t).value| <= MAX_RECORD
    requires PAGE_SIZE - 4 * SlotCount(page) - End(page) >= |Serialize(t).value| + 8
    ensures var w := Place(page, Serialize(t).value);
            w.offset == Some(End(page)) && ReadFrom(Some(w.page), schema, End(page)) == Ok(t)
  {
    PlaceRead(page, Serialize(t).value);
    SerializeRoundTrip(t);
  }

  /** insertTuple then scanRows: on a packed page with room for the record
      and its slot, the page's rows are the rows it had, followed by the new
      tuple's row when the predicate keeps it. */
  lemma InsertThenScan(page: seq<Byte>, schema: Schema, pid: PageId, pred: Tuple -> bool, t: Tuple)
    requires Packed(page) && Shaped(t) && t.schema == schema && WellTyped(schema.types, t.values)
    requires Serialize(t).Ok? && 1 <= |Serialize(t).value| <= MAX_RECORD
    requires PAGE_SIZE - 4 * SlotCount(page) - End(page) >= |Serialize(t).value| + 8
    requires PageRows(schema, page, pid, pred).Ok?
    ensures var w := Place(page, Serialize(t).value);
            PageRows(schema, w.page, pid, pred) ==
              Ok(PageRows(schema, page, pid, pred).value + if pred(t) then [Row(RecordId(pid, End(page)), t)] else [])
  {
    var rec := Serialize(t).value;
    var w := Place(page, rec);
    PlacePacked(page, rec);
    PageRowsPacked(schema, page, pid, pred);
    PageRowsPacked(schema, w.page, pid, pred);
    RowsOfAppend(Decode(schema), pid, pred, Entries(page), Entry(End(page), rec));
    SerializeRoundTrip(t);
    assert Decode(schema)(rec) == Ok(t);
  }

  /** deleteTuple then readTuple or updateTuple at the same offset: the
      record reads as deleted and cannot be updated. */
  lemma DeleteThenRead(img: Option<seq<Byte>>, schema: Schema, off: Int32, recLen: nat)
    requires WellFormed(schema)
    ensures var d := Deleted(img, off);
            d.Ok? ==>
              && ReadFrom(Some(d.value), schema, off) == Err("Deleted tuple")
              && InPlace(Some(d.value), off, recLen) == Err("Cannot update deleted tuple")
  {
    if img.Some? && |img.value| == PAGE_SIZE {
      TombstoneRead(img.value, off);
    }
  }

  /** updateTuple in place then readTuple at the same offset: when the new
      record fits where the old one was and the copy stays in the page, it
      reads back as the new tuple. */
  lemma UpdateThenRead(page: seq<Byte>, schema: Schema, off: Int32, t: Tuple)
    requires Shaped(t) && t.schema == schema && WellTyped(schema.types, t.values)
    requires Serialize(t).Ok? && 1 <= |Serialize(t).value|
    requires InPlace(Some(page), off, |Serialize(t).value|) == Ok(true)
    ensures var w := Rewrite(page, off, Serialize(t).value);
            w.offset.Some? ==> ReadFrom(Some(w.page), schema, off) == Ok(t)
  {
    RewriteRead(page, off, Serialize(t).value);
    SerializeRoundTrip(t);
  }

  /** The tuples of rows, in order: what scan collects where scanRows
      collects rows. */
  function TuplesOf(rows: seq<Row>): (ts: seq<Tuple>)
    ensures |ts| == |rows| && forall k :: 0 <= k < |rows| ==> ts[k] == rows[k].tuple
  {
    if rows == [] then [] else [rows[0].tuple] + TuplesOf(rows[1..])
  }

  /** scanAll's predicate. */
  function AnyTuple(t: Tuple): bool
  {
    true
  }

  /** Rows the predicate accepts, each from one of the pages ids. */
  ghost predicate FromPages(pred: Tuple -> bool, ids: seq<PageId>, rows: seq<Row>)
  {
    forall k :: 0 <= k < |rows| ==> pred(rows[k].tuple) && rows[k].rid.pageId in ids
  }

  /** The rows of one page are rows of that page the predicate accepts. */
  lemma RowsInKept(img: Option<seq<Byte>>, schema: Schema, pid: PageId, pred: Tuple -> bool)
    requires WellFormed(schema)
    ensures RowsIn(img, schema, pid, pred).Ok? ==> Kept(pid, pred, RowsIn(img, schema, pid, pred).value)
  {
    if img.Some? && |img.value| == PAGE_SIZE {
      ScanKept(Decode(schema), Ints(img.value), img.value, pid, pred, SlotCount(img.value), 0);
    }
  }

  lemma JoinFromPages(pred: Tuple -> bool, ids: seq<PageId>, a: seq<Row>, b: seq<Row>)
    requires ids != [] && Kept(ids[0], pred, a) && FromPages(pred, ids[1..], b)
    ensures FromPages(pred, ids, a + b)
  {
    forall k | 0 <= k < |a + b|
      ensures pred((a + b)[k].tuple) && (a + b)[k].rid.pageId in ids
    {
      if k >= |a| {
        assert (a + b)[k] == b[k - |a|] && b[k - |a|].rid.pageId in ids[1..];
      }
    }
  }

  /** scanRows keeps only rows the predicate accepts, each from one of the
      table's pages. */
  lemma {:induction false} TableRowsKept(views: imap<PageId, Option<seq<Byte>>>, schema: Schema, ids: seq<PageId>,
                                         pred: Tuple -> bool)
    requires WellFormed(schema)
    ensures var r := TableRows(views, schema, ids, pred);
            r.Ok? ==> FromPages(pred, ids, r.value)
  {
    if ids != [] {
      var img := if ids[0] in views then views[ids[0]] else None;
      RowsInKept(img, schema, ids[0], pred);
      TableRowsKept(views, schema, ids[1..], pred);
      var rows := RowsIn(img, schema, ids[0], pred);
      var rest := TableRows(views, schema, ids[1..], pred);
      if rows.Ok? && rest.Ok? {
        JoinFromPages(pred, ids, rows.value, rest.value);
      }
    }
  }

  /** One page of scanRows: TableRows from position i on. */
  lemma TableRowsAt(views: imap<PageId, Option<seq<Byte>>>, schema: Schema, ids: seq<PageId>, i: nat,
                    pred: Tuple -> bool)
    requires WellFormed(schema) && i < |ids| && ids[i] in views
    ensures var rows := RowsIn(views[ids[i]], schema, ids[i], pred);
            TableRows(views, schema, ids[i..], pred) ==
              if rows.Err? then rows else Prepend(rows.value, TableRows(views, schema, ids[i + 1..], pred))
  {
    assert ids[i..][1..] == ids[i + 1..];
  }

  /** The second of two updates of one page's view hides the first. */
  lemma UpdateTwice(views: imap<PageId, Option<seq<Byte>>>, id: PageId, a: Option<seq<Byte>>, b: Option<seq<Byte>>)
    ensures views[id := a][id := b] == views[id := b]
  {
  }

  class Table {
    const name: string
    const schema: Schema
    const pool: BufferPool
    const disk: DiskManager
    /** The table's pages, in the order they were added. */
    var pageIds: seq<PageId>
    /** The pages handed to catalog.registerPage, in order. */
    var registered: seq<PageId>

    /** new Table(name, schema, pool, disk, catalog, existingPages); the
        shorter constructor passes no pages. */
    constructor (name: string, schema: Schema, pool: BufferPool, disk: DiskManager, existingPages: seq<PageId>)
      requires WellFormed(schema)
      ensures this.name == name && this.schema == schema && this.pool == pool && this.disk == disk
      ensures pageIds == existingPages && registered == []
    {
      this.name := name;
      this.schema := schema;
      this.pool := pool;
      this.disk := disk;
      pageIds := existingPages;
      registered := [];
    }

    /** The table, its pool, its disk and the transaction manager share the
        same pool and disk. */
    ghost predicate Linked(tm: TransactionManager)
      reads this, tm, pool
    {
      && WellFormed(schema)
      && pool.disk == disk && tm.pool == pool && tm.disk == disk
      && tm.Valid() && pool.Valid()
    }


    /** A pool of at least one page over the table's disk that agrees with the
        file, except, while a caller is changing it, on page skip. */
    ghost predicate CachedExcept(skip: int)
      reads this, pool, pool.lru, DatasOf(pool.lru), disk
    {
      && pool.disk == disk && pool.Valid() && pool.capacity >= 1
      && CoherentF(pool.Snapshot(), disk.file, skip)
    }

    ghost predicate Cached()
      reads this, pool, pool.lru, DatasOf(pool.lru), disk
    {
      CachedExcept(-1)
    }

    /** Cached, and the next page id lies just past the file's last page. */
    ghost predicate Sound()
      reads this, pool, pool.lru, DatasOf(pool.lru), disk
    {
      Cached() && NextIsEnd(disk.file, disk.nextPageId)
    }

    /** bufPool.getPage(id), seen through the views: none of them changes,
        and the page returned, now the most recently used, holds the view of
        id. */
    method Fetch(id: PageId) returns (r: Option<Page>)
      requires pool.Valid() && pool.disk == disk
      modifies pool, disk
      ensures pool.Valid() && disk.nextPageId == old(disk.nextPageId)
      ensures forall q :: q in pool.lru ==> q in old(pool.lru) || (fresh(q) && fresh(q.data))
      ensures r.Some? ==> r.value.pageId == id && r.value.data.Length == PAGE_SIZE
      ensures r.Some? ==> r.value in old(pool.lru) || fresh(r.value.data)
      ensures old(Cached()) ==> Cached() && pool.Views() == old(pool.Views()) && |disk.file| == old(|disk.file|)
      ensures old(Cached()) ==> (r.Some? <==> old(pool.View(id)).Some?)
      ensures old(Cached()) && r.Some? ==>
                && r.value.data[..] == old(pool.View(id)).value
                && pool.lru != [] && pool.lru[|pool.lru| - 1] == r.value
    {
      ghost var s0, f0, lru0 := pool.Snapshot(), disk.file, pool.lru;
      ghost var cached := Cached();
      FramesOk(lru0, pool.capacity);
      assert cached ==> pool.Coherent();
      r := pool.GetPage(id);
      if id in IdsOf(lru0) {
        var i := FirstIndex(IdsOf(lru0), id);
        MoveMembers(lru0, i);
        assert ViewF(s0, f0, id) == Some(s0[i].bytes);
      } else if r.Some? {
        EvictMembers(lru0 + [r.value], pool.capacity);
        if cached && |lru0| + 1 > pool.capacity {
          WriteBackLength(f0, s0[0]);
        }
      }
    }

    /** allocateFreshPage: a new page from the disk, appended to the table's
        pages and registered with the catalog. A failing allocatePage
        (a negative next id) still advances the counter. */
    method AllocateFreshPage() returns (r: Option<PageId>)
      requires pool.disk == disk
      modifies this, disk
      ensures disk.nextPageId == Wrap32(old(disk.nextPageId) + 1)
      ensures old(disk.nextPageId) < 0 ==>
                r == None && pageIds == old(pageIds) && registered == old(registered) && disk.file == old(disk.file)
      ensures old(disk.nextPageId) >= 0 ==>
                && r == Some(old(disk.nextPageId))
                && pageIds == old(pageIds) + [r.value] && registered == old(registered) + [r.value]
      ensures old(Sound()) ==> Cached()
      ensures old(Sound()) && old(disk.nextPageId) < INT32_MAX ==> Sound()
      ensures old(Sound()) ==> r.Some? && pool.Views() == old(pool.Views())[r.value := Some(Zeros(PAGE_SIZE))]
    {
      ghost var s0, f0 := pool.Snapshot(), disk.file;
      ghost var sound := Sound();
      r := disk.AllocatePage();
      if r.None? {
        return;
      }
      if sound {
        AllocKeeps(s0, f0, r.value);
      }
      pageIds := pageIds + [r.value];
      registered := registered + [r.value];
      assert pool.Snapshot() == s0;
    }

    /** One page of findPageWithSpace: getPage, then the test on its bytes. */
    method Probe(id: PageId, recLen: nat) returns (r: Result<bool>)
      requires pool.Valid() && pool.disk == disk && recLen <= MAX_RECORD
      modifies pool, disk
      ensures pool.Valid() && disk.nextPageId == old(disk.nextPageId)
      ensures forall q :: q in pool.lru ==> q in old(pool.lru) || (fresh(q) && fresh(q.data))
      ensures old(Cached()) ==>
                && r == RoomIn(old(pool.Views())[id], recLen)
                && Cached() && pool.Views() == old(pool.Views()) && |disk.file| == old(|disk.file|)
    {
      assert pool.View(id) == pool.Views()[id];
      var p := Fetch(id);
      if p.None? {
        return Err("EOFException");
      }
      ghost var s1, f1 := pool.Snapshot(), disk.file;
      var room := HasRoom(p.value.data[..], recLen);
      assert pool.Snapshot() == s1 && disk.file == f1;
      if room.None? {
        return Err("IndexOutOfBoundsException");
      }
      r := Ok(room.value);
    }

    /** The loop of findPageWithSpace over the table's pages, through the pool. */
    method FirstWithRoom(recLen: nat) returns (r: Result<Option<PageId>>)
      requires pool.Valid() && pool.disk == disk && recLen <= MAX_RECORD
      modifies pool, disk
      ensures pool.Valid() && disk.nextPageId == old(disk.nextPageId)
      ensures forall q :: q in pool.lru ==> q in old(pool.lru) || (fresh(q) && fresh(q.data))
      ensures old(Cached()) ==>
                && r == FirstFit(old(pool.Views()), pageIds, recLen)
                && Cached() && pool.Views() == old(pool.Views()) && |disk.file| == old(|disk.file|)
    {
      ghost var v0, cached := pool.Views(), Cached();
      var i := 0;
      while i < |pageIds|
        invariant 0 <= i <= |pageIds|
        invariant pool.Valid() && disk.nextPageId == old(disk.nextPageId)
        invariant forall q :: q in pool.lru ==> q in old(pool.lru) || (fresh(q) && fresh(q.data))
        invariant cached ==> Cached() && pool.Views() == v0 && |disk.file| == old(|disk.file|)
        invariant cached ==> FirstFit(v0, pageIds, recLen) == FirstFit(v0, pageIds[i..], recLen)
      {
        var room := Probe(pageIds[i], recLen);
        if cached {
          FirstFitAt(v0, pageIds, i, recLen);
        }
        if room.Err? {
          return Err(room.msg);
        }
        if room.value {
          return Ok(Some(pageIds[i]));
        }
        i := i + 1;
      }
      r := Ok(None);
    }

    /** findPageWithSpace: the first of the table's pages whose gap fits the
        record, as FirstFit finds it, leaving every view as it was; when none
        does, a freshly allocated page of zeros. */
    method FindPageWithSpace(recLen: nat) returns (r: Result<PageId>)
      requires pool.Valid() && pool.disk == disk && recLen <= MAX_RECORD
      modifies this, pool, disk
      ensures pool.Valid()
      ensures forall q :: q in pool.lru ==> q in old(pool.lru) || (fresh(q) && fresh(q.data))
      ensures var ff := FirstFit(old(pool.Views()), old(pageIds), recLen);
              old(Cached()) && ff != Ok(None) ==>
                && r == (if ff.Err? then Err(ff.msg) else Ok(ff.value.value))
                && pageIds == old(pageIds) && registered == old(registered)
                && disk.nextPageId == old(disk.nextPageId) && |disk.file| == old(|disk.file|)
                && Cached() && pool.Views() == old(pool.Views())
      ensures FirstFit(old(pool.Views()), old(pageIds), recLen) == Ok(None) && old(Sound()) ==>
                && r == Ok(old(disk.nextPageId))
                && pageIds == old(pageIds) + [r.value] && registered == old(registered) + [r.value]
                && disk.nextPageId == Wrap32(old(disk.nextPageId) + 1)
                && Cached() && (old(disk.nextPageId) < INT32_MAX ==> Sound())
                && pool.Views() == old(pool.Views())[r.value := Some(Zeros(PAGE_SIZE))]
    {
      var ff := FirstWithRoom(recLen);
      if ff.Err? {
        return Err(ff.msg);
      }
      if ff.value.Some? {
        return Ok(ff.value.value);
      }
      var a := AllocateFreshPage();
      if a.None? {
        return Err("IOException");
      }
      r := Ok(a.value);
    }

    /** tm.recordPageUpdate(tx, p's id, before, after), where after is what p
        holds now: the record reaches the log, p's page is marked dirty, and
        no page's view changes. */
    method LogChange(tm: TransactionManager, tx: Int64, p: Page, before: seq<Byte>) returns (ok: bool)
      requires Linked(tm) && |before| == PAGE_SIZE && p.data.Length == PAGE_SIZE
      modifies tm, tm.wal, pool, pool.lru
      ensures Linked(tm) && pool.Views() == old(pool.Views()) && forall q :: q in pool.lru ==> q in old(pool.lru)
      ensures Logged(tm, tx, p.pageId, before, old(p.data[..]), ok)
      ensures old(CachedExcept(p.pageId)) ==> Cached()
    {
      ok := tm.RecordPageUpdate(tx, p.pageId, before, p.data[..]);
    }

    /** writeRecordIntoPage on the most recently used page of a coherent
        pool: that page now reads as the page with the record placed, every
        other page as before, and the pool is coherent but for that page. */
    method WriteInto(page: Page, rec: seq<Byte>) returns (off: Option<Int32>)
      requires pool.Valid() && page.data.Length == PAGE_SIZE && |rec| <= MAX_RECORD
      modifies page.data
      ensures page.data[..] == Place(old(page.data[..]), rec).page
      ensures off == Place(old(page.data[..]), rec).offset
      ensures old(Cached()) && old(pool.lru) != [] && old(pool.lru[|pool.lru| - 1]) == page ==>
                CachedExcept(page.pageId) && pool.Views() == old(pool.Views())[page.pageId := Some(page.data[..])]
    {
      ghost var cached := Cached() && pool.lru != [] && pool.lru[|pool.lru| - 1] == page;
      ghost var lru0 := pool.lru;
      off := WriteRecordIntoPage(page.data, rec);
      assert pool.lru == lru0;
      if cached {
        ChangedView(pool);
      }
    }

    /** getPage(pid), a copy of its bytes, then writeRecordIntoPage: through
        a coherent pool, the copy is pid's view, and pid now reads as that
        view with the record placed. */
    method FetchAndWrite(pid: PageId, rec: seq<Byte>) returns (page: Option<Page>, before: seq<Byte>, off: Option<Int32>)
      requires pool.Valid() && pool.disk == disk && |rec| <= MAX_RECORD
      modifies pool, disk, DatasOf(pool.lru)
      ensures pool.Valid() && disk.nextPageId == old(disk.nextPageId)
      ensures forall q :: q in pool.lru ==> q in old(pool.lru) || (fresh(q) && fresh(q.data))
      ensures page.Some? ==> page.value.pageId == pid && page.value.data.Length == PAGE_SIZE && |before| == PAGE_SIZE
      ensures old(Cached()) ==>
                var img := old(pool.Views())[pid];
                && |disk.file| == old(|disk.file|)
                && (page.Some? <==> img.Some?)
                && (img.None? ==> Cached() && pool.Views() == old(pool.Views()))
                && (img.Some? ==>
                      && before == img.value && |before| == PAGE_SIZE
                      && var w := Place(before, rec);
                      && off == w.offset && page.value.data[..] == w.page
                      && CachedExcept(pid) && pool.Views() == old(pool.Views())[pid := Some(w.page)])
    {
      assert pool.View(pid) == pool.Views()[pid];
      page := Fetch(pid);
      if page.None? {
        return page, [], None;
      }
      before := page.value.data[..];
      off := WriteInto(page.value, rec);
    }

    /** The part of insertTuple from getPage(pid) on: the record written into
        the page, then the change logged. Through a coherent pool, the page's
        view becomes the page with the record placed; when placing it throws
        part way, the writes made so far stay in the page, which is not
        marked dirty and nothing is logged. */
    method PlaceRecord(tx: Int64, tm: TransactionManager, pid: PageId, rec: seq<Byte>) returns (r: Result<RecordId>)
      requires Linked(tm) && |rec| <= MAX_RECORD
      modifies pool, disk, pool.lru, DatasOf(pool.lru), tm, tm.wal
      ensures forall q :: q in pool.lru ==> q in old(pool.lru) || (fresh(q) && fresh(q.data))
      ensures Linked(tm) && disk.nextPageId == old(disk.nextPageId)
      ensures old(tm.wal.log) <= tm.wal.log
      ensures r.Ok? ==> r.value.pageId == pid && Noted(tm, tx, [pid])
      ensures old(Cached()) ==>
                var img := old(pool.Views())[pid];
                && |disk.file| == old(|disk.file|)
                && (img.None? ==>
                      r == Err("EOFException") && Cached() && pool.Views() == old(pool.Views()) && Unlogged(tm))
                && (img.Some? ==>
                      && |img.value| == PAGE_SIZE
                      && var w := Place(img.value, rec);
                      && pool.Views() == old(pool.Views())[pid := Some(w.page)]
                      && (w.offset.None? ==>
                            r == Err("IndexOutOfBoundsException") && CachedExcept(pid) && Unlogged(tm))
                      && (w.offset.Some? ==>
                            && Cached() && Logged(tm, tx, pid, img.value, w.page, tx in old(tm.updates))
                            && r == if tx in old(tm.updates) then Ok(RecordId(pid, w.offset.value))
                                    else Err("NullPointerException")))
    {
      ghost var log0, durable0, updates0, next0 := tm.wal.log, tm.wal.durable, tm.updates, tm.nextTxId;
      var page, before, off := FetchAndWrite(pid, rec);
      assert tm.wal.log == log0 && tm.wal.durable == durable0 && tm.updates == updates0 && tm.nextTxId == next0;
      if page.None? {
        return Err("EOFException");
      }
      if off.None? {
        return Err("IndexOutOfBoundsException");
      }
      ghost var file1, next1 := disk.file, disk.nextPageId;
      var ok := LogChange(tm, tx, page.value, before);
      assert disk.file == file1 && disk.nextPageId == next1;
      r := if ok then Ok(RecordId(pid, off.value)) else Err("NullPointerException");
    }

    /** Line 53 of insertTuple: a table without pages gets one, which
        findPageWithSpace then picks, since a page of zeros has room. */
    method FirstPage(recLen: nat) returns (r: Result<PageId>)
      requires pool.Valid() && pool.disk == disk && recLen <= MAX_RECORD && pageIds == []
      modifies this, pool, disk
      ensures pool.Valid()
      ensures forall q :: q in pool.lru ==> q in old(pool.lru) || (fresh(q) && fresh(q.data))
      ensures old(Sound()) ==>
                && r == Ok(old(disk.nextPageId)) && Cached()
                && pool.Views() == old(pool.Views())[r.value := Some(Zeros(PAGE_SIZE))]
                && pageIds == [r.value] && registered == old(registered) + [r.value]
                && disk.nextPageId == Wrap32(old(disk.nextPageId) + 1)
                && (old(disk.nextPageId) < INT32_MAX ==> Sound())
    {
      ghost var sound := Sound();
      var a := AllocateFreshPage();
      if a.None? {
        return Err("IOException");
      }
      if sound {
        ZerosRoom(recLen);
        assert FirstFit(pool.Views(), pageIds, recLen) == Ok(Some(a.value));
      }
      r := FindPageWithSpace(recLen);
    }

    /** findPageWithSpace on a table that has pages, in the terms of ChoosePage. */
    method PageAmong(recLen: nat) returns (r: Result<PageId>)
      requires pool.Valid() && pool.disk == disk && recLen <= MAX_RECORD && pageIds != []
      modifies this, pool, disk
      ensures pool.Valid()
      ensures forall q :: q in pool.lru ==> q in old(pool.lru) || (fresh(q) && fresh(q.data))
      ensures old(Sound()) ==>
                var c := ChoosePage(old(pool.Views()), old(pageIds), old(disk.nextPageId), recLen);
                && (c.Err? ==>
                      && r == Err(c.msg) && pageIds == old(pageIds) && registered == old(registered)
                      && Sound() && pool.Views() == old(pool.Views()))
                && (c.Ok? ==>
                      && r == Ok(c.value.pid) && Cached()
                      && pool.Views() == old(pool.Views())[c.value.pid := Some(ChosenImage(old(pool.Views()), c.value))]
                      && pageIds == old(pageIds) + (if c.value.grows then [c.value.pid] else [])
                      && registered == old(registered) + (if c.value.grows then [c.value.pid] else [])
                      && (c.value.grows ==>
                            disk.nextPageId == Wrap32(old(disk.nextPageId) + 1)
                            && (old(disk.nextPageId) < INT32_MAX ==> Sound()))
                      && (!c.value.grows ==> disk.nextPageId == old(disk.nextPageId) && Sound()))
    {
      ghost var sound, v0 := Sound(), pool.Views();
      r := FindPageWithSpace(recLen);
      if sound && r.Ok? && r.value in old(pageIds) {
        assert v0[r.value := v0[r.value]] == v0;
      }
    }

    /** Lines 53-54 of insertTuple: the page the record goes to, as ChoosePage
        says; only a page added at the end changes the views. */
    method PickPage(recLen: nat) returns (r: Result<PageId>)
      requires pool.Valid() && pool.disk == disk && recLen <= MAX_RECORD
      modifies this, pool, disk
      ensures pool.Valid()
      ensures forall q :: q in pool.lru ==> q in old(pool.lru) || (fresh(q) && fresh(q.data))
      ensures old(Sound()) ==>
                var c := ChoosePage(old(pool.Views()), old(pageIds), old(disk.nextPageId), recLen);
                && (c.Err? ==>
                      && r == Err(c.msg) && pageIds == old(pageIds) && registered == old(registered)
                      && Sound() && pool.Views() == old(pool.Views()))
                && (c.Ok? ==>
                      && r == Ok(c.value.pid) && Cached()
                      && pool.Views() == old(pool.Views())[c.value.pid := Some(ChosenImage(old(pool.Views()), c.value))]
                      && pageIds == old(pageIds) + (if c.value.grows then [c.value.pid] else [])
                      && registered == old(registered) + (if c.value.grows then [c.value.pid] else [])
                      && (c.value.grows ==>
                            disk.nextPageId == Wrap32(old(disk.nextPageId) + 1)
                            && (old(disk.nextPageId) < INT32_MAX ==> Sound()))
                      && (!c.value.grows ==> disk.nextPageId == old(disk.nextPageId) && Sound()))
    {
      if |pageIds| == 0 {
        r := FirstPage(recLen);
      } else {
        r := PageAmong(recLen);
      }
    }

    /** Lines 53-63 of insertTuple, once the record is known to fit a page:
        the bytes go into the page ChoosePage picks, at the offset
        writeRecordIntoPage chooses, and the page change is logged. */
    method InsertRecord(tx: Int64, tm: TransactionManager, rec: seq<Byte>) returns (r: Result<RecordId>)
      requires Linked(tm) && |rec| <= MAX_RECORD
      modifies this, pool, disk, pool.lru, DatasOf(pool.lru), tm, tm.wal
      ensures forall q :: q in pool.lru ==> q in old(pool.lru) || (fresh(q) && fresh(q.data))
      ensures Linked(tm) && old(tm.wal.log) <= tm.wal.log
      ensures r.Ok? ==> Noted(tm, tx, [r.value.pageId])
      ensures old(Sound()) ==>
                var c := ChoosePage(old(pool.Views()), old(pageIds), old(disk.nextPageId), |rec|);
                && (c.Err? ==> r == Err(c.msg) && Unlogged(tm) && pageIds == old(pageIds) && Sound())
                && (c.Ok? ==>
                      && pageIds == old(pageIds) + (if c.value.grows then [c.value.pid] else [])
                      && registered == old(registered) + (if c.value.grows then [c.value.pid] else [])
                      && var img := ChosenImage(old(pool.Views()), c.value);
                      && |img| == PAGE_SIZE
                      && var w := Place(img, rec);
                      && pool.Views() == old(pool.Views())[c.value.pid := Some(w.page)]
                      && (w.offset.None? ==>
                            r == Err("IndexOutOfBoundsException") && CachedExcept(c.value.pid) && Unlogged(tm))
                      && (w.offset.Some? ==>
                            && Logged(tm, tx, c.value.pid, img, w.page, tx in old(tm.updates))
                            && r == (if tx in old(tm.updates) then Ok(RecordId(c.value.pid, w.offset.value))
                                     else Err("NullPointerException"))
                            && Cached() && (!c.value.grows || old(disk.nextPageId) < INT32_MAX ==> Sound())))
    {
      ghost var sound, v0 := Sound(), pool.Views();
      ghost var c := if sound then ChoosePage(v0, pageIds, disk.nextPageId, |rec|) else Err("");
      ghost var log0, durable0, updates0, next0 := tm.wal.log, tm.wal.durable, tm.updates, tm.nextTxId;
      var pid := PickPage(|rec|);
      assert tm.wal.log == log0 && tm.wal.durable == durable0 && tm.updates == updates0 && tm.nextTxId == next0;
      if pid.Err? {
        return Err(pid.msg);
      }
      ghost var ids1, reg1, v1 := pageIds, registered, pool.Views();
      ghost var img := if sound && c.Ok? then ChosenImage(v0, c.value) else [];
      assert sound ==> v1 == v0[pid.value := Some(img)];
      r := PlaceRecord(tx, tm, pid.value, rec);
      assert pageIds == ids1 && registered == reg1;
      if sound {
        ghost var w := Place(img, rec);
        assert pool.Views() == v1[pid.value := Some(w.page)];
        UpdateTwice(v0, pid.value, Some(img), Some(w.page));
      }
    }

    /** insertTuple: a tuple that does not serialize, or whose record is over
        MAX_RECORD bytes, is refused before anything changes; otherwise it is
        InsertRecord of its bytes. */
    method InsertTuple(tx: Int64, tm: TransactionManager, t: Tuple) returns (r: Result<RecordId>)
      requires Linked(tm) && Shaped(t)
      modifies this, pool, disk, pool.lru, DatasOf(pool.lru), tm, tm.wal
      ensures forall q :: q in pool.lru ==> q in old(pool.lru) || (fresh(q) && fresh(q.data))
      ensures Linked(tm) && old(tm.wal.log) <= tm.wal.log
      ensures r.Ok? ==> Noted(tm, tx, [r.value.pageId])
      ensures Serialize(t).Err? || |Serialize(t).value| > MAX_RECORD ==>
                && unchanged(this, pool, disk) && unchanged(pool.lru) && unchanged(DatasOf(pool.lru))
                && pool.lru == old(pool.lru)
      ensures Serialize(t).Err? ==> r == Err(Serialize(t).msg) && Unlogged(tm) && pageIds == old(pageIds)
      ensures Serialize(t).Ok? && |Serialize(t).value| > MAX_RECORD ==>
                r == Err("Tuple too large") && Unlogged(tm) && pageIds == old(pageIds)
      ensures var rec := Serialize(t);
              old(Sound()) && rec.Ok? && |rec.value| <= MAX_RECORD ==>
                var c := ChoosePage(old(pool.Views()), old(pageIds), old(disk.nextPageId), |rec.value|);
                && (c.Err? ==> r == Err(c.msg) && Unlogged(tm))
                && (c.Ok? ==>
                      && var img := ChosenImage(old(pool.Views()), c.value);
                      && |img| == PAGE_SIZE
                      && var w := Place(img, rec.value);
                      && pool.Views() == old(pool.Views())[c.value.pid := Some(w.page)]
                      && (w.offset.None? ==> r == Err("IndexOutOfBoundsException") && Unlogged(tm))
                      && (w.offset.Some? ==>
                            && Logged(tm, tx, c.value.pid, img, w.page, tx in old(tm.updates))
                            && r == (if tx in old(tm.updates) then Ok(RecordId(c.value.pid, w.offset.value))
                                     else Err("NullPointerException"))))
    {
      var rec := Serialize(t);
      if rec.Err? {
        return Err(rec.msg);
      }
      if |rec.value| > MAX_RECORD {
        return Err("Tuple too large");
      }
      r := InsertRecord(tx, tm, rec.value);
    }

    /** deleteTuple's putInt(offset, 0) on the most recently used page of a
        coherent pool: that page now reads as the page with the tombstone,
        every other page as before. An offset outside the page writes
        nothing. */
    method TombstoneInto(page: Page, off: Int32) returns (ok: bool)
      requires pool.Valid() && page.data.Length == PAGE_SIZE
      modifies page.data
      ensures ok <==> Tombstone(old(page.data[..]), off).Some?
      ensures ok ==> page.data[..] == Tombstone(old(page.data[..]), off).value
      ensures !ok ==> unchanged(page.data) && (old(Cached()) ==> Cached() && pool.Views() == old(pool.Views()))
      ensures ok && old(Cached()) && old(pool.lru) != [] && old(pool.lru[|pool.lru| - 1]) == page ==>
                CachedExcept(page.pageId) && pool.Views() == old(pool.Views())[page.pageId := Some(page.data[..])]
    {
      ghost var cached := Cached() && pool.lru != [] && pool.lru[|pool.lru| - 1] == page;
      ghost var lru0 := pool.lru;
      ok := PutIntInto(page.data, off, 0);
      assert pool.lru == lru0;
      if !ok {
        assert pool.Snapshot() == old(pool.Snapshot());
      } else if cached {
        ChangedView(pool);
      }
    }

    /** getPage(rid's page), a copy of its bytes, then the tombstone: through
        a coherent pool, the copy is the page's view and the page now reads
        as Deleted says. */
    method FetchAndDelete(rid: RecordId) returns (page: Option<Page>, before: seq<Byte>, ok: bool)
      requires pool.Valid() && pool.disk == disk
      modifies pool, disk, DatasOf(pool.lru)
      ensures pool.Valid() && disk.nextPageId == old(disk.nextPageId)
      ensures forall q :: q in pool.lru ==> q in old(pool.lru) || (fresh(q) && fresh(q.data))
      ensures page.Some? ==> page.value.pageId == rid.pageId && page.value.data.Length == PAGE_SIZE && |before| == PAGE_SIZE
      ensures old(Cached()) ==>
                var img := old(pool.Views())[rid.pageId];
                && |disk.file| == old(|disk.file|)
                && (page.Some? <==> img.Some?)
                && (img.None? ==> Cached() && pool.Views() == old(pool.Views()))
                && (img.Some? ==>
                      && before == img.value
                      && (ok <==> Tombstone(before, rid.offset).Some?)
                      && (!ok ==> Cached() && pool.Views() == old(pool.Views()))
                      && (ok ==>
                            && page.value.data[..] == Tombstone(before, rid.offset).value
                            && CachedExcept(rid.pageId)
                            && pool.Views() == old(pool.Views())[rid.pageId := Some(page.value.data[..])]))
    {
      assert pool.View(rid.pageId) == pool.Views()[rid.pageId];
      page := Fetch(rid.pageId);
      if page.None? {
        return page, [], false;
      }
      before := page.value.data[..];
      ghost var file1, lru1 := disk.file, pool.lru;
      ok := TombstoneInto(page.value, rid.offset);
      assert disk.file == file1 && pool.lru == lru1;
    }

    /** deleteTuple: the record's length becomes 0 and the page change is
        logged. Through a coherent pool the page's view becomes Deleted's
        page; a page past the end of the file or an offset outside the page
        fails before anything is logged. */
    method DeleteTuple(tx: Int64, tm: TransactionManager, rid: RecordId) returns (r: Result<()>)
      requires Linked(tm)
      modifies pool, disk, pool.lru, DatasOf(pool.lru), tm, tm.wal
      ensures Linked(tm) && disk.nextPageId == old(disk.nextPageId)
      ensures old(tm.wal.log) <= tm.wal.log
      ensures old(Cached()) ==>
                var img := old(pool.Views())[rid.pageId];
                var d := Deleted(img, rid.offset);
                && |disk.file| == old(|disk.file|) && Cached()
                && (d.Err? ==> r == Err(d.msg) && pool.Views() == old(pool.Views()) && Unlogged(tm))
                && (d.Ok? ==>
                      && pool.Views() == old(pool.Views())[rid.pageId := Some(d.value)]
                      && Logged(tm, tx, rid.pageId, img.value, d.value, tx in old(tm.updates))
                      && r == if tx in old(tm.updates) then Ok(()) else Err("NullPointerException"))
    {
      ghost var log0, durable0, updates0, next0 := tm.wal.log, tm.wal.durable, tm.updates, tm.nextTxId;
      var page, before, ok := FetchAndDelete(rid);
      assert tm.wal.log == log0 && tm.wal.durable == durable0 && tm.updates == updates0 && tm.nextTxId == next0;
      if page.None? {
        return Err("EOFException");
      }
      if !ok {
        return Err("IndexOutOfBoundsException");
      }
      ghost var file1, next1 := disk.file, disk.nextPageId;
      var logged := LogChange(tm, tx, page.value, before);
      assert disk.file == file1 && disk.nextPageId == next1;
      r := if logged then Ok(()) else Err("NullPointerException");
    }

    /** readTuple: through a coherent pool, what ReadFrom says of the
        record's page view; nothing the pool shows changes. */
    method ReadTuple(rid: RecordId) returns (r: Result<Tuple>)
      requires pool.Valid() && pool.disk == disk && WellFormed(schema)
      modifies pool, disk
      ensures pool.Valid() && disk.nextPageId == old(disk.nextPageId)
      ensures forall q :: q in pool.lru ==> q in old(pool.lru) || (fresh(q) && fresh(q.data))
      ensures old(Cached()) ==>
                && r == ReadFrom(old(pool.Views())[rid.pageId], schema, rid.offset)
                && Cached() && pool.Views() == old(pool.Views()) && |disk.file| == old(|disk.file|)
    {
      assert pool.View(rid.pageId) == pool.Views()[rid.pageId];
      var p := Fetch(rid.pageId);
      if p.None? {
        return Err("EOFException");
      }
      ghost var s1, f1 := pool.Snapshot(), disk.file;
      var rec := ReadRecord(p.value.data[..], rid.offset);
      if rec.Err? {
        return Err(rec.msg);
      }
      r := Deserialize(schema, rec.value);
      assert pool.Snapshot() == s1 && disk.file == f1;
    }

    /** updateTuple's in-place write on the most recently used page of a
        coherent pool: that page now reads as Rewrite's page, every other page
        as before. */
    method RewriteInto(page: Page, off: Int32, rec: seq<Byte>) returns (ok: bool)
      requires pool.Valid() && page.data.Length == PAGE_SIZE
      requires 0 <= off <= PAGE_SIZE - INT_BYTES && |rec| <= PAGE_SIZE
      modifies page.data
      ensures page.data[..] == Rewrite(old(page.data[..]), off, rec).page
      ensures ok <==> Rewrite(old(page.data[..]), off, rec).offset.Some?
      ensures old(Cached()) && old(pool.lru) != [] && old(pool.lru[|pool.lru| - 1]) == page ==>
                CachedExcept(page.pageId) && pool.Views() == old(pool.Views())[page.pageId := Some(page.data[..])]
    {
      ghost var cached := Cached() && pool.lru != [] && pool.lru[|pool.lru| - 1] == page;
      ghost var lru0 := pool.lru;
      ok := RewriteInPlace(page.data, off, rec);
      assert pool.lru == lru0;
      if cached {
        ChangedView(pool);
      }
    }

    /** The part of updateTuple from getPage on, up to the choice between
        rewriting in place and moving the record: through a coherent pool,
        res is InPlace's verdict, and only a rewrite in place changes the
        page, to Rewrite's page. */
    method FetchForUpdate(rid: RecordId, rec: seq<Byte>) returns (page: Option<Page>, before: seq<Byte>, res: Result<bool>)
      requires pool.Valid() && pool.disk == disk && |rec| <= PAGE_SIZE
      modifies pool, disk, DatasOf(pool.lru)
      ensures pool.Valid() && disk.nextPageId == old(disk.nextPageId)
      ensures forall q :: q in pool.lru ==> q in old(pool.lru) || (fresh(q) && fresh(q.data))
      ensures page.None? ==> res == Err("EOFException")
      ensures page.Some? ==>
                && page.value.pageId == rid.pageId && page.value.data.Length == PAGE_SIZE && |before| == PAGE_SIZE
                && (page.value in old(pool.lru) || fresh(page.value.data))
      ensures res == Ok(false) ==> page.Some? && page.value.data[..] == before
      ensures res == Ok(false) && old(Cached()) ==> pool.lru != [] && pool.lru[|pool.lru| - 1] == page.value
      ensures old(Cached()) ==>
                var img := old(pool.Views())[rid.pageId];
                var ip := InPlace(img, rid.offset, |rec|);
                && |disk.file| == old(|disk.file|)
                && (page.Some? <==> img.Some?)
                && (ip.Err? ==> res == Err(ip.msg) && Cached() && pool.Views() == old(pool.Views()))
                && (ip == Ok(false) ==> res == ip && Cached() && pool.Views() == old(pool.Views()) && before == img.value)
                && (ip == Ok(true) ==>
                      && before == img.value
                      && var w := Rewrite(before, rid.offset, rec);
                      && res == (if w.offset.Some? then Ok(true) else Err("IndexOutOfBoundsException"))
                      && page.value.data[..] == w.page
                      && CachedExcept(rid.pageId) && pool.Views() == old(pool.Views())[rid.pageId := Some(w.page)])
    {
      assert pool.View(rid.pageId) == pool.Views()[rid.pageId];
      page := Fetch(rid.pageId);
      if page.None? {
        return page, [], Err("EOFException");
      }
      before := page.value.data[..];
      var oldLen := GetInt(before, rid.offset);
      if oldLen.None? {
        return page, before, Err("IndexOutOfBoundsException");
      }
      if oldLen.value <= 0 {
        return page, before, Err("Cannot update deleted tuple");
      }
      if |rec| > oldLen.value {
        return page, before, Ok(false);
      }
      ghost var file1, lru1 := disk.file, pool.lru;
      var ok := RewriteInto(page.value, rid.offset, rec);
      assert disk.file == file1 && pool.lru == lru1;
      res := if ok then Ok(true) else Err("IndexOutOfBoundsException");
    }

    /** The else branch of updateTuple: a tombstone at the old offset, then
        MoveTuple. The tombstone is written before any page is marked dirty,
        so a record over MAX_RECORD bytes leaves it in the cache with nothing
        logged. */
    method Relocate(tx: Int64, tm: TransactionManager, page: Page, off: Int32, before: seq<Byte>, t: Tuple)
      returns (r: Result<RecordId>)
      requires Linked(tm) && Shaped(t) && page.data.Length == PAGE_SIZE && |before| == PAGE_SIZE
      modifies this, pool, disk, pool.lru, DatasOf(pool.lru), page.data, tm, tm.wal
      ensures Linked(tm) && old(tm.wal.log) <= tm.wal.log
      ensures r.Ok? ==> Moved(tm, tx, r.value.pageId, page.pageId, before)
      ensures var rec := Serialize(t);
              rec.Ok? && |rec.value| > MAX_RECORD && old(page.data[..]) == before && Tombstone(before, off).Some? ==>
                && r == Err("Tuple too large") && Unlogged(tm)
                && (old(Cached()) && old(pool.lru) != [] && old(pool.lru[|pool.lru| - 1]) == page ==>
                      CachedExcept(page.pageId)
                      && pool.Views() == old(pool.Views())[page.pageId := Some(Tombstone(before, off).value)])
    {
      ghost var lru0 := pool.lru;
      var _ := TombstoneInto(page, off);
      assert pool.lru == lru0;
      r := MoveTuple(tx, tm, page, before, t);
    }

    /** Lines 82-86 of updateTuple: insertTuple, then the old page's change
        logged. A successful move adds two undo entries, the new record's
        page and then the old page with its image from before the update,
        and ends the log with the old page's change. */
    method MoveTuple(tx: Int64, tm: TransactionManager, page: Page, before: seq<Byte>, t: Tuple)
      returns (r: Result<RecordId>)
      requires Linked(tm) && Shaped(t) && page.data.Length == PAGE_SIZE && |before| == PAGE_SIZE
      modifies this, pool, disk, pool.lru, DatasOf(pool.lru), tm, tm.wal
      ensures Linked(tm) && old(tm.wal.log) <= tm.wal.log
      ensures r.Ok? ==>
                && Moved(tm, tx, r.value.pageId, page.pageId, before)
                && EndsWith(tm.wal.log, Wal.Encode(Wal.Record.Update(tx, page.pageId, before, page.data[..])))
      ensures Serialize(t).Ok? && |Serialize(t).value| > MAX_RECORD ==>
                && r == Err("Tuple too large") && Unlogged(tm)
                && unchanged(this, pool, disk) && unchanged(pool.lru) && unchanged(DatasOf(pool.lru))
                && pool.lru == old(pool.lru)
    {
      ghost var u1, log1, next1 := tm.updates, tm.wal.log, tm.nextTxId;
      r := InsertTuple(tx, tm, t);
      if r.Err? {
        return;
      }
      ghost var u2, log2 := tm.updates, tm.wal.log;
      var logged := LogChange(tm, tx, page, before);
      assert logged;
      AppendedOneMore(u1, u2, tx, r.value.pageId, UndoEntry(page.pageId, before));
      EndsWithAppended(log2, Wal.Encode(Wal.Record.Update(tx, page.pageId, before, page.data[..])));
    }

    /** updateTuple: a record no longer than the one at rid is rewritten in
        place and the page change logged; a longer one is moved (Relocate).
        Through a coherent pool, InPlace decides between the two and names
        the failures. */
    method UpdateTuple(tx: Int64, tm: TransactionManager, rid: RecordId, t: Tuple) returns (r: Result<RecordId>)
      requires Linked(tm) && Shaped(t)
      modifies this, pool, disk, pool.lru, DatasOf(pool.lru), tm, tm.wal
      ensures Linked(tm) && old(tm.wal.log) <= tm.wal.log
      ensures Serialize(t).Err? ==> r == Err(Serialize(t).msg) && Unlogged(tm)
      ensures var rec := Serialize(t);
              old(Cached()) && rec.Ok? ==>
                var img := old(pool.Views())[rid.pageId];
                var ip := InPlace(img, rid.offset, |rec.value|);
                && (ip.Err? ==> r == Err(ip.msg) && Unlogged(tm) && Cached() && pool.Views() == old(pool.Views()))
                && (ip == Ok(true) ==>
                      && var w := Rewrite(img.value, rid.offset, rec.value);
                      && pool.Views() == old(pool.Views())[rid.pageId := Some(w.page)]
                      && (w.offset.None? ==>
                            r == Err("IndexOutOfBoundsException") && CachedExcept(rid.pageId) && Unlogged(tm))
                      && (w.offset.Some? ==>
                            && Cached() && Logged(tm, tx, rid.pageId, img.value, w.page, tx in old(tm.updates))
                            && r == if tx in old(tm.updates) then Ok(rid) else Err("NullPointerException")))
                && (ip == Ok(false) && |rec.value| > MAX_RECORD ==>
                      && r == Err("Tuple too large") && Unlogged(tm) && CachedExcept(rid.pageId)
                      && pool.Views() == old(pool.Views())[rid.pageId := Some(Tombstone(img.value, rid.offset).value)])
                && (ip == Ok(false) && r.Ok? ==> Moved(tm, tx, r.value.pageId, rid.pageId, img.value))
    {
      var rec := Serialize(t);
      if rec.Err? {
        return Err(rec.msg);
      }
      ghost var log0, durable0, updates0, next0 := tm.wal.log, tm.wal.durable, tm.updates, tm.nextTxId;
      var page, before, res := FetchForUpdate(rid, rec.value);
      assert tm.wal.log == log0 && tm.wal.durable == durable0 && tm.updates == updates0 && tm.nextTxId == next0;
      if res.Err? {
        return Err(res.msg);
      }
      if !res.value {
        r := Relocate(tx, tm, page.value, rid.offset, before, t);
        return;
      }
      var logged := LogChange(tm, tx, page.value, before);
      r := if logged then Ok(rid) else Err("NullPointerException");
    }

    /** The body of scanRows' page loop for page id: getPage, then the slot
        loop. Through a coherent pool it returns RowsIn of id's view and
        changes no view. */
    method PageRowsOf(id: PageId, pred: Tuple -> bool) returns (r: Result<seq<Row>>)
      requires pool.Valid() && pool.disk == disk && WellFormed(schema)
      modifies pool, disk
      ensures pool.Valid() && disk.nextPageId == old(disk.nextPageId)
      ensures forall q :: q in pool.lru ==> q in old(pool.lru) || (fresh(q) && fresh(q.data))
      ensures old(Cached()) ==>
                && r == RowsIn(old(pool.Views())[id], schema, id, pred)
                && Cached() && pool.Views() == old(pool.Views()) && |disk.file| == old(|disk.file|)
    {
      assert pool.View(id) == pool.Views()[id];
      var p := Fetch(id);
      if p.None? {
        return Err("EOFException");
      }
      ghost var s1, f1 := pool.Snapshot(), disk.file;
      r := ScanPage(p.value.data[..], schema, id, pred);
      assert pool.Snapshot() == s1 && disk.file == f1;
    }

    /** scanRows: through a coherent pool, the rows TableRows gives for the
        table's pages in order; no view changes. */
    method ScanRows(pred: Tuple -> bool) returns (r: Result<seq<Row>>)
      requires pool.Valid() && pool.disk == disk && WellFormed(schema)
      modifies pool, disk
      ensures pool.Valid() && disk.nextPageId == old(disk.nextPageId)
      ensures forall q :: q in pool.lru ==> q in old(pool.lru) || (fresh(q) && fresh(q.data))
      ensures old(Cached()) ==>
                && r == TableRows(old(pool.Views()), schema, pageIds, pred)
                && Cached() && pool.Views() == old(pool.Views()) && |disk.file| == old(|disk.file|)
    {
      ghost var v0, cached := pool.Views(), Cached();
      ghost var whole := TableRows(v0, schema, pageIds, pred);
      var out: seq<Row> := [];
      var i := 0;
      assert pageIds[0..] == pageIds;
      assert whole.Ok? ==> [] + whole.value == whole.value;
      while i < |pageIds|
        invariant 0 <= i <= |pageIds|
        invariant pool.Valid() && disk.nextPageId == old(disk.nextPageId)
        invariant forall q :: q in pool.lru ==> q in old(pool.lru) || (fresh(q) && fresh(q.data))
        invariant cached ==>
                    && Cached() && pool.Views() == v0 && |disk.file| == old(|disk.file|)
                    && Resumes(whole, out, TableRows(v0, schema, pageIds[i..], pred))
      {
        var rows := PageRowsOf(pageIds[i], pred);
        if cached {
          TableRowsAt(v0, schema, pageIds, i, pred);
        }
        if rows.Err? {
          return Err(rows.msg);
        }
        if cached {
          StepResumes(whole, out, TableRows(v0, schema, pageIds[i..], pred), rows.value,
                      TableRows(v0, schema, pageIds[i + 1..], pred));
        }
        out := out + rows.value;
        i := i + 1;
      }
      assert pageIds[i..] == [];
      assert out + [] == out;
      r := Ok(out);
    }

    /** scan: the same loop as scanRows collecting only the tuples, so
        through a coherent pool the tuples of TableRows' rows, in order. */
    method Scan(pred: Tuple -> bool) returns (r: Result<seq<Tuple>>)
      requires pool.Valid() && pool.disk == disk && WellFormed(schema)
      modifies pool, disk
      ensures pool.Valid() && disk.nextPageId == old(disk.nextPageId)
      ensures forall q :: q in pool.lru ==> q in old(pool.lru) || (fresh(q) && fresh(q.data))
      ensures old(Cached()) ==>
                var rows := TableRows(old(pool.Views()), schema, pageIds, pred);
                && r == (if rows.Err? then Err(rows.msg) else Ok(TuplesOf(rows.value)))
                && Cached() && pool.Views() == old(pool.Views()) && |disk.file| == old(|disk.file|)
    {
      var rows := ScanRows(pred);
      r := if rows.Err? then Err(rows.msg) else Ok(TuplesOf(rows.value));
    }

    /** scanAll: scan with a predicate that accepts every tuple. */
    method ScanAll() returns (r: Result<seq<Tuple>>)
      requires pool.Valid() && pool.disk == disk && WellFormed(schema)
      modifies pool, disk
      ensures pool.Valid() && disk.nextPageId == old(disk.nextPageId)
      ensures old(Cached()) ==>
                var rows := TableRows(old(pool.Views()), schema, pageIds, AnyTuple);
                && r == (if rows.Err? then Err(rows.msg) else Ok(TuplesOf(rows.value)))
                && Cached() && pool.Views() == old(pool.Views())
    {
      r := Scan(AnyTuple);
    }
  }
}
