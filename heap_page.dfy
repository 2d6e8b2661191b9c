/** The slotted layout of a table page as Table reads and writes it through a
    ByteBuffer over the page's bytes: the slot count at offset 0, records
    [len:int32][payload] stored upwards from offset 4, and slot i, the offset of
    record i, at PAGE_SIZE - 4(i + 1), the slot directory growing downwards.
    A record length of 0 marks a deleted record. Every int the code computes is a
    Java int, so sums wrap; every getInt/putInt outside the page and every copy
    running past its end is an IndexOutOfBoundsException. A copy's failure is
    System.arraycopy's ArrayIndexOutOfBoundsException, a subclass, which the
    model names by that superclass, as a caller catching either sees it. */
module HeapPage {
  import opened Bytes
  import opened Wrappers
  import opened Disk
  import opened Schemas
  import opened Tuples

  /** Table.HEADER_SIZE: the slot count. */
  const HEADER_SIZE: nat := 4
  /** Integer.BYTES: the size of a length prefix and of a slot. */
  const INT_BYTES: nat := 4
  /** capacityPerPage - BYTES: the longest record insertTuple accepts. */
  const MAX_RECORD: nat := PAGE_SIZE - HEADER_SIZE - INT_BYTES

  /** RecordId: a page id and the offset of the record's length prefix. */
  datatype RecordId = RecordId(pageId: PageId, offset: Int32)

  /** Table.Row: a record id and the tuple stored there. */
  datatype Row = Row(rid: RecordId, tuple: Tuple)

  /** The unsigned big-endian value of the k bytes from at on. */
  function Word(page: seq<Byte>, at: int, k: nat): (u: nat)
    requires 0 <= at && at + k <= |page|
    ensures u < Pow256(k)
  {
    if k == 0 then 0 else Word(page, at, k - 1) * 256 + page[at + k - 1]
  }

  /** Four unsigned bytes read as a two's complement int. */
  function Signed(u: nat): (r: Int32)
    requires u < Pow256(4)
    ensures r % 0x1_0000_0000 == u % 0x1_0000_0000
  {
    Pow256Widths();
    if u >= 0x8000_0000 then u - 0x1_0000_0000 else u
  }

  /** ByteBuffer.getInt(at): a failure unless all four bytes lie in the page. */
  function GetInt(page: seq<Byte>, at: int): (r: Option<Int32>)
    requires |page| == PAGE_SIZE
    ensures r.Some? <==> 0 <= at <= PAGE_SIZE - INT_BYTES
  {
    if 0 <= at <= PAGE_SIZE - INT_BYTES then Some(Signed(Word(page, at, 4))) else None
  }

  lemma {:induction false} WordSlice(page: seq<Byte>, at: int, k: nat)
    requires 0 <= at && at + k <= |page|
    ensures Word(page, at, k) == FromBE(page[at..at + k])
  {
    if k > 0 {
      WordSlice(page, at, k - 1);
      assert page[at..at + k][..k - 1] == page[at..at + k - 1];
    }
  }

  /** getInt reads the same int as DataInput.readInt from the four bytes at. */
  lemma GetIntDecode(page: seq<Byte>, at: int)
    requires |page| == PAGE_SIZE && 0 <= at <= PAGE_SIZE - INT_BYTES
    ensures GetInt(page, at) == Some(DecodeInt32(page[at..at + INT_BYTES]))
  {
    WordSlice(page, at, 4);
  }

  /** ByteBuffer.putInt(at, v): the page with four bytes replaced, which getInt
      at the same place reads back as v. */
  function PutInt(page: seq<Byte>, at: int, v: Int32): (r: Option<seq<Byte>>)
    requires |page| == PAGE_SIZE
    ensures r.Some? <==> 0 <= at <= PAGE_SIZE - INT_BYTES
    ensures r.Some? ==> |r.value| == PAGE_SIZE && GetInt(r.value, at) == Some(v)
    ensures r.Some? ==> r.value[at..at + INT_BYTES] == EncodeInt32(v)
  {
    if 0 <= at <= PAGE_SIZE - INT_BYTES then
      var q := page[..at] + EncodeInt32(v) + page[at + INT_BYTES..];
      assert q[at..at + INT_BYTES] == EncodeInt32(v);
      Int32RoundTrip(v);
      GetIntDecode(q, at);
      Some(q)
    else None
  }

  /** getInt reads only its four bytes. */
  lemma GetIntSame(p: seq<Byte>, q: seq<Byte>, at: int)
    requires |p| == |q| == PAGE_SIZE
    requires forall k :: at <= k < at + INT_BYTES && 0 <= k < PAGE_SIZE ==> p[k] == q[k]
    ensures GetInt(p, at) == GetInt(q, at)
  {
    if 0 <= at <= PAGE_SIZE - INT_BYTES {
      assert p[at..at + INT_BYTES] == q[at..at + INT_BYTES];
      GetIntDecode(p, at);
      GetIntDecode(q, at);
    }
  }

  /** The ints of a page as the slotted layout reads them: getInt at each position. */
  type Reader = int -> Option<Int32>

  function Ints(page: seq<Byte>): Reader
    requires |page| == PAGE_SIZE
  {
    x => GetInt(page, x)
  }

  /** Where slot i lives. */
  function SlotPos(i: int): int
  {
    PAGE_SIZE - 4 * (i + 1)
  }

  /** The slot count, data.getInt(0). */
  function SlotCount(page: seq<Byte>): Int32
    requires |page| == PAGE_SIZE
  {
    GetInt(page, 0).value
  }

  /** The loop findPageWithSpace and writeRecordIntoPage share, from slot i on:
      acc plus, for every slot, four bytes and the length found at the slot's
      offset. A failing getInt (slot 1024 lies before the page) ends it. */
  function OffsetFrom(get: Reader, slots: int, i: nat, acc: Int32): Option<Int32>
    decreases slots - i
  {
    if i >= slots then Some(acc)
    else
      var off := get(SlotPos(i));
      if off.None? then None
      else
        var len := get(off.value);
        if len.None? then None
        else OffsetFrom(get, slots, i + 1, Wrap32(acc + INT_BYTES + len.value))
  }

  /** Where writeRecordIntoPage puts the next record, and what findPageWithSpace
      counts as used: the header plus every record's current length and prefix. */
  function NextOffset(page: seq<Byte>): Option<Int32>
    requires |page| == PAGE_SIZE
  {
    OffsetFrom(Ints(page), SlotCount(page), 0, HEADER_SIZE)
  }

  /** findPageWithSpace's free: the start of the slot directory minus the used bytes. */
  function FreeSpace(page: seq<Byte>): Option<Int32>
    requires |page| == PAGE_SIZE
  {
    var used := NextOffset(page);
    if used.None? then None
    else Some(Wrap32(Wrap32(PAGE_SIZE - Wrap32(4 * SlotCount(page))) - used.value))
  }

  /** findPageWithSpace's test for one page: free >= recLen + BYTES. */
  function HasSpace(page: seq<Byte>, recLen: nat): Option<bool>
    requires |page| == PAGE_SIZE && recLen <= MAX_RECORD
  {
    var free := FreeSpace(page);
    if free.None? then None else Some(free.value >= recLen + INT_BYTES)
  }

  /** The page after writeRecordIntoPage, and the offset it returns; no offset
      when it threw, the page then holding the writes made before the throw. */
  datatype Placed = Placed(page: seq<Byte>, offset: Option<Int32>)

  /** PAGE_SIZE - BYTES * (slots + 1) in int arithmetic. */
  function NewSlotPos(slots: Int32): (r: Int32)
    ensures 0 <= slots <= 1024 ==> r == SlotPos(slots)
  {
    Wrap32(PAGE_SIZE - Wrap32(4 * Wrap32(slots + 1)))
  }

  /** writeRecordIntoPage: the length and payload at NextOffset, that offset in
      slot N, and N + 1 as the slot count. */
  function Place(page: seq<Byte>, rec: seq<Byte>): (r: Placed)
    requires |page| == PAGE_SIZE && |rec| <= MAX_RECORD
    ensures |r.page| == PAGE_SIZE
  {
    var slots := SlotCount(page);
    var off := NextOffset(page);
    if off.None? then Placed(page, None)
    else
      var p1 := PutInt(page, off.value, |rec|);
      if p1.None? then Placed(page, None)
      else if off.value + INT_BYTES + |rec| > PAGE_SIZE then Placed(p1.value, None)
      else
        var p2 := WriteAt(p1.value, off.value + INT_BYTES, rec);
        var p3 := PutInt(p2, NewSlotPos(slots), off.value);
        if p3.None? then Placed(p2, None)
        else Placed(PutInt(p3.value, 0, Wrap32(slots + 1)).value, off)
  }

  /** The payload of the record at off with length len, if the copy stays in the page. */
  function Payload(page: seq<Byte>, off: int, len: Int32): (r: Option<seq<Byte>>)
    requires |page| == PAGE_SIZE && len >= 1
    ensures r.Some? ==> |r.value| == len
  {
    if off + INT_BYTES < 0 || off + INT_BYTES + len > PAGE_SIZE then None
    else Some(page[off + INT_BYTES..off + INT_BYTES + len])
  }

  /** The bytes readTuple copies out for the record at off: a length that is
      not positive is a deleted tuple; a copy past the page's end is the
      ArrayIndexOutOfBoundsException, under its superclass's name. */
  function ReadRecord(page: seq<Byte>, off: int): (r: Result<seq<Byte>>)
    requires |page| == PAGE_SIZE
    ensures r.Ok? ==> |r.value| >= 1
  {
    var len := GetInt(page, off);
    if len.None? then Err("IndexOutOfBoundsException")
    else if len.value <= 0 then Err("Deleted tuple")
    else
      var payload := Payload(page, off, len.value);
      if payload.None? then Err("IndexOutOfBoundsException") else Ok(payload.value)
  }

  /** deleteTuple's write: length 0 at the record's offset. */
  function Tombstone(page: seq<Byte>, off: int): Option<seq<Byte>>
    requires |page| == PAGE_SIZE
  {
    PutInt(page, off, 0)
  }

  /** updateTuple in place, once the old length was found to be at least
      |rec|: the new length, then the new payload; the copy can still run off
      the page, after the length was written. */
  function Rewrite(page: seq<Byte>, off: int, rec: seq<Byte>): (r: Placed)
    requires |page| == PAGE_SIZE && 0 <= off <= PAGE_SIZE - INT_BYTES && |rec| <= PAGE_SIZE
    ensures |r.page| == PAGE_SIZE
  {
    var p1 := PutInt(page, off, |rec|).value;
    if off + INT_BYTES + |rec| > PAGE_SIZE then Placed(p1, None)
    else Placed(WriteAt(p1, off + INT_BYTES, rec), Some(off))
  }

  /** The rows the inner loop of scanRows collects from slot i on, reading the
      slots and lengths through get and copying payloads out of page: slots
      whose length is not positive are skipped, the others deserialized and
      kept when the predicate holds. The first exception ends the scan. */
  function ScanFrom(dec: Decoder, get: Reader, page: seq<Byte>, pid: PageId, pred: Tuple -> bool, slots: int, i: nat)
    : (r: Result<seq<Row>>)
    requires |page| == PAGE_SIZE
    decreases slots - i
  {
    if i >= slots then Ok([])
    else
      var off := get(SlotPos(i));
      if off.None? then Err("IndexOutOfBoundsException")
      else
        var len := get(off.value);
        if len.None? then Err("IndexOutOfBoundsException")
        else if len.value <= 0 then ScanFrom(dec, get, page, pid, pred, slots, i + 1)
        else
          var payload := Payload(page, off.value, len.value);
          if payload.None? then Err("IndexOutOfBoundsException")
          else Keep(dec, pid, pred, Entry(off.value, payload.value), ScanFrom(dec, get, page, pid, pred, slots, i + 1))
  }

  /** Every row scanRows returns satisfies the predicate and names the page
      it was read from. */
  lemma {:induction false} ScanKept(dec: Decoder, get: Reader, page: seq<Byte>, pid: PageId, pred: Tuple -> bool, slots: int, i: nat)
    requires |page| == PAGE_SIZE
    ensures var r := ScanFrom(dec, get, page, pid, pred, slots, i);
            r.Ok? ==> Kept(pid, pred, r.value)
    decreases slots - i
  {
    if i < slots {
      ScanKept(dec, get, page, pid, pred, slots, i + 1);
    }
  }

  /** The rows scanRows collects from one page. */
  function PageRows(schema: Schema, page: seq<Byte>, pid: PageId, pred: Tuple -> bool): Result<seq<Row>>
    requires WellFormed(schema) && |page| == PAGE_SIZE
  {
    ScanFrom(Decode(schema), Ints(page), page, pid, pred, SlotCount(page), 0)
  }

  /** How scanRows turns a record's bytes into a tuple: Tuple.deserialize
      against the table's schema. */
  type Decoder = seq<Byte> -> Result<Tuple>

  function Decode(schema: Schema): Decoder
    requires WellFormed(schema)
  {
    data => Deserialize(schema, data)
  }

  /** Rows of the page pid that satisfy the predicate. */
  ghost predicate Kept(pid: PageId, pred: Tuple -> bool, rows: seq<Row>)
  {
    forall k :: 0 <= k < |rows| ==> pred(rows[k].tuple) && rows[k].rid.pageId == pid
  }

  /** One live record followed by the rows of the later slots: the record is
      deserialized (a failure ends the scan) and kept, as a row naming its
      page and offset, when the predicate holds. */
  function Keep(dec: Decoder, pid: PageId, pred: Tuple -> bool, e: Entry, rest: Result<seq<Row>>)
    : (r: Result<seq<Row>>)
    ensures r.Ok? ==> rest.Ok? && |rest.value| <= |r.value| <= |rest.value| + 1
  {
    var t := dec(e.payload);
    if t.Err? then Err(t.msg)
    else if rest.Err? then rest
    else Ok((if pred(t.value) then [Row(RecordId(pid, e.offset), t.value)] else []) + rest.value)
  }

  // ----- pages whose records lie back to back

  /** Slots i..n-1 point at records lying back to back from off on, each with
      a positive length, and the last ends before the slot directory. This is
      the layout inserts alone produce, with no record deleted or shrunk. */
  ghost predicate RunFrom(get: Reader, n: nat, i: nat, off: int)
    requires i <= n
    decreases n - i
  {
    if i == n then HEADER_SIZE <= off <= PAGE_SIZE - 4 * n
    else
      var len := get(off);
      && get(SlotPos(i)) == Some(off)
      && len.Some? && len.value >= 1
      && RunFrom(get, n, i + 1, off + INT_BYTES + len.value)
  }

  /** Where the records of a run end. */
  ghost function EndFrom(get: Reader, n: nat, i: nat, off: int): (e: int)
    requires i <= n && RunFrom(get, n, i, off)
    ensures HEADER_SIZE <= e <= PAGE_SIZE - 4 * n
    ensures off <= e && (i < n ==> off < e)
    decreases n - i
  {
    if i == n then off
    else EndFrom(get, n, i + 1, off + INT_BYTES + get(off).value)
  }

  /** getInt agrees on the positions whose four bytes lie in lo..hi. */
  ghost predicate Agree(gp: Reader, gq: Reader, lo: int, hi: int)
  {
    forall x :: lo <= x <= hi - INT_BYTES ==> gq(x) == gp(x)
  }

  /** A run that another reader agrees with on its records and its slots,
      followed by one more record (at e, of length len) that slot n points at,
      is a run of n + 1 slots for the other reader. */
  lemma {:induction false} RunExtend(gp: Reader, gq: Reader, n: nat, i: nat, off: int, len: int)
    requires i <= n && RunFrom(gp, n, i, off)
    requires Agree(gp, gq, off, EndFrom(gp, n, i, off)) && Agree(gp, gq, PAGE_SIZE - 4 * n, PAGE_SIZE - 4 * i)
    requires var e := EndFrom(gp, n, i, off);
             gq(SlotPos(n)) == Some(e) && gq(e) == Some(len) && len >= 1 && e + INT_BYTES + len <= PAGE_SIZE - 4 * (n + 1)
    ensures RunFrom(gq, n + 1, i, off)
    ensures EndFrom(gq, n + 1, i, off) == EndFrom(gp, n, i, off) + INT_BYTES + len
    decreases n - i
  {
    if i < n {
      var l := gp(off).value;
      assert gq(SlotPos(i)) == Some(off) && gq(off) == Some(l);
      RunExtend(gp, gq, n, i + 1, off + INT_BYTES + l, len);
    } else {
      assert RunFrom(gq, n + 1, n + 1, off + INT_BYTES + len);
    }
  }

  /** A page whose slots all point at back-to-back records. */
  ghost predicate Packed(page: seq<Byte>)
  {
    && |page| == PAGE_SIZE
    && 0 <= SlotCount(page)
    && RunFrom(Ints(page), SlotCount(page), 0, HEADER_SIZE)
  }

  ghost function End(page: seq<Byte>): int
    requires Packed(page)
  {
    EndFrom(Ints(page), SlotCount(page), 0, HEADER_SIZE)
  }

  /** A live record: the offset of its length prefix and its payload. */
  datatype Entry = Entry(offset: Int32, payload: seq<Byte>)

  /** The records of a run, read straight off the slots. */
  ghost function RunEntries(get: Reader, page: seq<Byte>, n: nat, i: nat, off: int): (r: seq<Entry>)
    requires |page| == PAGE_SIZE && i <= n && 0 <= off && RunFrom(get, n, i, off)
    ensures |r| == n - i
    decreases n - i
  {
    if i == n then []
    else
      var len := get(off).value;
      var next := off + INT_BYTES + len;
      assert next <= EndFrom(get, n, i + 1, next);
      [Entry(off, page[off + INT_BYTES..next])] + RunEntries(get, page, n, i + 1, next)
  }

  lemma RunEntriesHead(get: Reader, page: seq<Byte>, n: nat, i: nat, off: int)
    requires |page| == PAGE_SIZE && i < n && 0 <= off && RunFrom(get, n, i, off)
    ensures var next := off + INT_BYTES + get(off).value;
            && next <= EndFrom(get, n, i + 1, next)
            && RunEntries(get, page, n, i, off) == [Entry(off, page[off + INT_BYTES..next])] + RunEntries(get, page, n, i + 1, next)
  {
  }

  /** The records of a packed page, in slot order. */
  ghost function Entries(page: seq<Byte>): seq<Entry>
    requires Packed(page)
  {
    RunEntries(Ints(page), page, SlotCount(page), 0, HEADER_SIZE)
  }

  /** Entry k of a run is record k, at the offset slot i + k names, and
      holds the bytes its length prefix delimits. */
  lemma {:induction false} RunEntryAt(get: Reader, page: seq<Byte>, n: nat, i: nat, off: int, k: nat)
    requires |page| == PAGE_SIZE && i <= n && 0 <= off && RunFrom(get, n, i, off) && k < n - i
    ensures var x := RunEntries(get, page, n, i, off)[k];
            && x.offset == Nth(get, off, k)
            && get(x.offset) == Some(|x.payload|) && 1 <= |x.payload|
            && 0 <= x.offset && x.offset + INT_BYTES + |x.payload| <= PAGE_SIZE
            && x.payload == page[x.offset + INT_BYTES..x.offset + INT_BYTES + |x.payload|]
    decreases k
  {
    RunEntriesHead(get, page, n, i, off);
    if k > 0 {
      var next := off + INT_BYTES + get(off).value;
      RunEntryAt(get, page, n, i + 1, next, k - 1);
    }
  }

  /** Over a run, the shared loop of findPageWithSpace and writeRecordIntoPage
      adds up the records exactly, also when reading through another reader
      that agrees on the records and the slots. */
  lemma {:induction false} RunSum(gp: Reader, gq: Reader, n: nat, i: nat, off: int, acc: int)
    requires i <= n <= 1023 && RunFrom(gp, n, i, off) && 0 <= acc <= off
    requires Agree(gp, gq, off, EndFrom(gp, n, i, off)) && Agree(gp, gq, PAGE_SIZE - 4 * n, PAGE_SIZE - 4 * i)
    ensures OffsetFrom(gq, n, i, acc) == Some(acc + EndFrom(gp, n, i, off) - off)
    decreases n - i
  {
    if i < n {
      var len := gp(off).value;
      var next := off + INT_BYTES + len;
      var e := EndFrom(gp, n, i + 1, next);
      assert gq(SlotPos(i)) == Some(off) && gq(off) == Some(len);
      RunSum(gp, gq, n, i + 1, next, acc + INT_BYTES + len);
    }
  }

  /** A packed page has at most 1023 slots, and its next record goes where the
      records end: the free space findPageWithSpace computes is exactly the gap
      between the records and the slot directory. */
  lemma PackedFree(page: seq<Byte>)
    requires Packed(page)
    ensures SlotCount(page) <= 1023
    ensures NextOffset(page) == Some(End(page))
    ensures FreeSpace(page) == Some(PAGE_SIZE - 4 * SlotCount(page) - End(page))
  {
    var e := End(page);
    RunSum(Ints(page), Ints(page), SlotCount(page), 0, HEADER_SIZE, HEADER_SIZE);
  }

  /** findPageWithSpace accepts a packed page for a record of recLen bytes when
      the gap is at least recLen + 4, although an insert takes recLen + 8. */
  lemma FitCheckGap(page: seq<Byte>, recLen: nat)
    requires Packed(page) && recLen <= MAX_RECORD
    ensures HasSpace(page, recLen) ==
              Some(PAGE_SIZE - 4 * SlotCount(page) - End(page) >= recLen + INT_BYTES)
  {
    PackedFree(page);
  }

  /** Agreement on a range of bytes. */
  ghost predicate Same(p: seq<Byte>, q: seq<Byte>, lo: int, hi: int)
    requires |p| == |q| == PAGE_SIZE
  {
    forall k :: lo <= k < hi && 0 <= k < PAGE_SIZE ==> q[k] == p[k]
  }

  lemma SameAgree(p: seq<Byte>, q: seq<Byte>, lo: int, hi: int)
    requires |p| == |q| == PAGE_SIZE && 0 <= lo && hi <= PAGE_SIZE && Same(p, q, lo, hi)
    ensures Agree(Ints(p), Ints(q), lo, hi)
  {
    forall x | lo <= x <= hi - INT_BYTES
      ensures Ints(q)(x) == Ints(p)(x)
    {
      GetIntSame(p, q, x);
    }
  }

  /** The four writes of writeRecordIntoPage when the next offset e leaves room
      for the record and its slot: the length prefix and the payload at e, the
      new slot, and the new count. */
  lemma PlaceSteps(page: seq<Byte>, rec: seq<Byte>, n: nat, e: int)
    requires |page| == PAGE_SIZE && 1 <= |rec| <= MAX_RECORD
    requires SlotCount(page) == n <= 1023 && NextOffset(page) == Some(e)
    requires HEADER_SIZE <= e && e + INT_BYTES + |rec| <= PAGE_SIZE - 4 * n
    ensures var p1 := PutInt(page, e, |rec|).value;
            var p2 := WriteAt(p1, e + INT_BYTES, rec);
            var p3 := PutInt(p2, SlotPos(n), e).value;
            Place(page, rec) == Placed(PutInt(p3, 0, n + 1).value, Some(e))
  {
  }

  /** readTuple of a record whose length prefix and payload are in place. */
  lemma ReadBack(q: seq<Byte>, e: int, rec: seq<Byte>)
    requires |q| == PAGE_SIZE && 0 <= e && 1 <= |rec| && e + INT_BYTES + |rec| <= PAGE_SIZE
    requires GetInt(q, e) == Some(|rec|) && q[e + INT_BYTES..e + INT_BYTES + |rec|] == rec
    ensures ReadRecord(q, e) == Ok(rec)
  {
  }

  /** What those four writes leave alone, and the new slot and count. */
  lemma WritesFrame(page: seq<Byte>, p1: seq<Byte>, p2: seq<Byte>, p3: seq<Byte>, p4: seq<Byte>,
                    rec: seq<Byte>, n: nat, e: int)
    requires |page| == PAGE_SIZE && 1 <= |rec| && n <= 1023
    requires HEADER_SIZE <= e && e + INT_BYTES + |rec| <= PAGE_SIZE - 4 * (n + 1)
    requires PutInt(page, e, |rec|) == Some(p1) && p2 == WriteAt(p1, e + INT_BYTES, rec)
    requires PutInt(p2, SlotPos(n), e) == Some(p3) && PutInt(p3, 0, n + 1) == Some(p4)
    ensures |p4| == PAGE_SIZE
    ensures Same(page, p4, HEADER_SIZE, e) && Same(page, p4, PAGE_SIZE - 4 * n, PAGE_SIZE)
    ensures GetInt(p4, SlotPos(n)) == Some(e) && SlotCount(p4) == n + 1
  {
    GetIntSame(p3, p4, SlotPos(n));
  }

  /** The record the writes put at e, which readTuple reads back. */
  lemma WritesRecord(p1: seq<Byte>, p2: seq<Byte>, p3: seq<Byte>, p4: seq<Byte>,
                     rec: seq<Byte>, n: nat, e: int)
    requires |p1| == PAGE_SIZE && 1 <= |rec| && n <= 1023
    requires HEADER_SIZE <= e && e + INT_BYTES + |rec| <= PAGE_SIZE - 4 * (n + 1)
    requires GetInt(p1, e) == Some(|rec|) && p2 == WriteAt(p1, e + INT_BYTES, rec)
    requires PutInt(p2, SlotPos(n), e) == Some(p3) && PutInt(p3, 0, n + 1) == Some(p4)
    ensures p4[e + INT_BYTES..e + INT_BYTES + |rec|] == rec
    ensures GetInt(p4, e) == Some(|rec|)
    ensures ReadRecord(p4, e) == Ok(rec)
  {
    var a, b := e + INT_BYTES, e + INT_BYTES + |rec|;
    SlotCountSame(p2, p3, p4, n, e, e, b);
    SameSub(p2, p4, e, b, e, a);
    WrittenPrefix(p1, p2, p4, rec, e);
    SameSlice(p2, p4, e, b, a, b);
    ReadBack(p4, e, rec);
  }

  /** The new slot and count leave the bytes between them alone. */
  lemma SlotCountSame(p2: seq<Byte>, p3: seq<Byte>, p4: seq<Byte>, n: nat, e: Int32, lo: int, hi: int)
    requires |p2| == PAGE_SIZE && n <= 1023 && HEADER_SIZE <= lo && hi <= SlotPos(n)
    requires PutInt(p2, SlotPos(n), e) == Some(p3) && PutInt(p3, 0, n + 1) == Some(p4)
    ensures |p4| == PAGE_SIZE && Same(p2, p4, lo, hi)
  {
    PutIntSame(p2, SlotPos(n), e, lo, hi);
    PutIntSame(p3, 0, n + 1, lo, hi);
    SameTrans(p2, p3, p4, lo, hi);
  }

  /** Copying the payload in after the length prefix leaves the prefix alone. */
  lemma WrittenPrefix(p1: seq<Byte>, p2: seq<Byte>, p4: seq<Byte>, rec: seq<Byte>, e: int)
    requires |p1| == |p4| == PAGE_SIZE && 0 <= e && e + INT_BYTES + |rec| <= PAGE_SIZE
    requires p2 == WriteAt(p1, e + INT_BYTES, rec) && Same(p2, p4, e, e + INT_BYTES)
    ensures GetInt(p4, e) == GetInt(p1, e)
  {
    var a := e + INT_BYTES;
    WriteAtSame(p1, a, rec, e, a);
    SameTrans(p1, p2, p4, e, a);
    GetIntRange(p1, p4, e);
  }

  /** Hence on such a page writeRecordIntoPage succeeds at e, writing the
      record and its slot and changing nothing else. */
  lemma PlaceWrites(page: seq<Byte>, rec: seq<Byte>, n: nat, e: int)
    requires |page| == PAGE_SIZE && 1 <= |rec| <= MAX_RECORD
    requires SlotCount(page) == n <= 1023 && NextOffset(page) == Some(e)
    requires HEADER_SIZE <= e && e + INT_BYTES + |rec| <= PAGE_SIZE - 4 * (n + 1)
    ensures var r := Place(page, rec);
            && r.offset == Some(e)
            && Same(page, r.page, HEADER_SIZE, e) && Same(page, r.page, PAGE_SIZE - 4 * n, PAGE_SIZE)
            && r.page[e + INT_BYTES..e + INT_BYTES + |rec|] == rec
            && GetInt(r.page, e) == Some(|rec|) && GetInt(r.page, SlotPos(n)) == Some(e)
            && SlotCount(r.page) == n + 1
            && ReadRecord(r.page, e) == Ok(rec)
  {
    PlaceSteps(page, rec, n, e);
    var p1 := PutInt(page, e, |rec|).value;
    var p2 := WriteAt(p1, e + INT_BYTES, rec);
    var p3 := PutInt(p2, SlotPos(n), e).value;
    var p4 := PutInt(p3, 0, n + 1).value;
    WritesFrame(page, p1, p2, p3, p4, rec, n, e);
    WritesRecord(p1, p2, p3, p4, rec, n, e);
  }

  /** Bytes that agree on a range agree on every slice of it. */
  lemma SameSlice(p: seq<Byte>, q: seq<Byte>, lo: int, hi: int, a: int, b: int)
    requires |p| == |q| == PAGE_SIZE && 0 <= lo <= a <= b <= hi <= PAGE_SIZE && Same(p, q, lo, hi)
    ensures q[a..b] == p[a..b]
  {
  }

  lemma SameTrans(p: seq<Byte>, q: seq<Byte>, r: seq<Byte>, lo: int, hi: int)
    requires |p| == |q| == |r| == PAGE_SIZE && Same(p, q, lo, hi) && Same(q, r, lo, hi)
    ensures Same(p, r, lo, hi)
  {
  }

  lemma SameSub(p: seq<Byte>, q: seq<Byte>, lo: int, hi: int, lo': int, hi': int)
    requires |p| == |q| == PAGE_SIZE && lo <= lo' && hi' <= hi && Same(p, q, lo, hi)
    ensures Same(p, q, lo', hi')
  {
  }

  /** putInt leaves every byte outside its four alone. */
  lemma PutIntSame(p: seq<Byte>, at: int, v: Int32, lo: int, hi: int)
    requires |p| == PAGE_SIZE && 0 <= at <= PAGE_SIZE - INT_BYTES
    requires hi <= at || at + INT_BYTES <= lo
    ensures Same(p, PutInt(p, at, v).value, lo, hi)
  {
    var q := PutInt(p, at, v).value;
    assert q == p[..at] + EncodeInt32(v) + p[at + INT_BYTES..];
  }

  /** A copy into the page leaves every byte outside the copied range alone. */
  lemma WriteAtSame(p: seq<Byte>, off: nat, d: seq<Byte>, lo: int, hi: int)
    requires |p| == PAGE_SIZE && off + |d| <= PAGE_SIZE
    requires hi <= off || off + |d| <= lo
    ensures |WriteAt(p, off, d)| == PAGE_SIZE && Same(p, WriteAt(p, off, d), lo, hi)
  {
  }

  /** getInt over bytes that agree. */
  lemma GetIntRange(p: seq<Byte>, q: seq<Byte>, at: int)
    requires |p| == |q| == PAGE_SIZE && 0 <= at <= PAGE_SIZE - INT_BYTES && Same(p, q, at, at + INT_BYTES)
    ensures GetInt(q, at) == GetInt(p, at)
  {
    GetIntSame(p, q, at);
  }

  /** The entries of a run followed by one more record, at the run's end,
      read through a page that agrees on the run's bytes. */
  lemma {:induction false} EntriesExtend(gp: Reader, gq: Reader, page: seq<Byte>, q: seq<Byte>,
                                         n: nat, i: nat, off: int, rec: seq<Byte>)
    requires |page| == |q| == PAGE_SIZE && i <= n && 0 <= off
    requires RunFrom(gp, n, i, off) && RunFrom(gq, n + 1, i, off)
    requires Agree(gp, gq, off, EndFrom(gp, n, i, off))
    requires var e := EndFrom(gp, n, i, off);
             && gq(e) == Some(|rec|) && e + INT_BYTES + |rec| <= PAGE_SIZE
             && Same(page, q, off, e) && q[e + INT_BYTES..e + INT_BYTES + |rec|] == rec
    ensures RunEntries(gq, q, n + 1, i, off) == RunEntries(gp, page, n, i, off) + [Entry(EndFrom(gp, n, i, off), rec)]
    decreases n - i
  {
    var e := EndFrom(gp, n, i, off);
    RunEntriesHead(gq, q, n + 1, i, off);
    if i < n {
      var l := gp(off).value;
      var next := off + INT_BYTES + l;
      assert gq(off) == Some(l);
      RunEntriesHead(gp, page, n, i, off);
      SameSub(page, q, off, e, next, e);
      EntriesExtend(gp, gq, page, q, n, i + 1, next, rec);
      SameSlice(page, q, off, e, off + INT_BYTES, next);
    }
  }

  /** A page that agrees with a packed one on its records and its slots, with
      one more record right after them that slot n points at, holds a run of
      n + 1 slots that ends after that record. */
  lemma AppendRun(page: seq<Byte>, q: seq<Byte>, len: int, n: nat, e: int)
    requires Packed(page) && SlotCount(page) == n && End(page) == e
    requires |q| == PAGE_SIZE && 1 <= len && e + INT_BYTES + len <= PAGE_SIZE - 4 * (n + 1)
    requires Same(page, q, HEADER_SIZE, e) && Same(page, q, PAGE_SIZE - 4 * n, PAGE_SIZE)
    requires GetInt(q, e) == Some(len) && GetInt(q, SlotPos(n)) == Some(e)
    ensures RunFrom(Ints(q), n + 1, 0, HEADER_SIZE)
    ensures EndFrom(Ints(q), n + 1, 0, HEADER_SIZE) == e + INT_BYTES + len
  {
    SameAgree(page, q, HEADER_SIZE, e);
    SameAgree(page, q, PAGE_SIZE - 4 * n, PAGE_SIZE);
    RunExtend(Ints(page), Ints(q), n, 0, HEADER_SIZE, len);
  }

  /** ... so with n + 1 as its slot count it is packed, with that record as
      its last entry. */
  lemma PackedAppend(page: seq<Byte>, q: seq<Byte>, rec: seq<Byte>, n: nat, e: int)
    requires Packed(page) && SlotCount(page) == n && End(page) == e
    requires |q| == PAGE_SIZE && 1 <= |rec| && e + INT_BYTES + |rec| <= PAGE_SIZE - 4 * (n + 1)
    requires Same(page, q, HEADER_SIZE, e) && Same(page, q, PAGE_SIZE - 4 * n, PAGE_SIZE)
    requires q[e + INT_BYTES..e + INT_BYTES + |rec|] == rec
    requires GetInt(q, e) == Some(|rec|) && GetInt(q, SlotPos(n)) == Some(e) && SlotCount(q) == n + 1
    ensures Packed(q)
    ensures End(q) == e + INT_BYTES + |rec|
    ensures Entries(q) == Entries(page) + [Entry(e, rec)]
  {
    AppendRun(page, q, |rec|, n, e);
    SameAgree(page, q, HEADER_SIZE, e);
    EntriesExtend(Ints(page), Ints(q), page, q, n, 0, HEADER_SIZE, rec);
  }

  /** Inserting into a packed page with room for the record and its slot
      keeps it packed, with the record appended as its last entry. */
  lemma PlacePacked(page: seq<Byte>, rec: seq<Byte>)
    requires Packed(page) && 1 <= |rec| <= MAX_RECORD
    requires PAGE_SIZE - 4 * SlotCount(page) - End(page) >= |rec| + 8
    ensures var r := Place(page, rec);
            && r.offset == Some(End(page))
            && Packed(r.page)
            && SlotCount(r.page) == SlotCount(page) + 1
            && End(r.page) == End(page) + INT_BYTES + |rec|
            && Entries(r.page) == Entries(page) + [Entry(End(page), rec)]
  {
    var e, n := End(page), SlotCount(page);
    PackedFree(page);
    PlaceWrites(page, rec, n, e);
    PackedAppend(page, Place(page, rec).page, rec, n, e);
  }

  /** writeRecordIntoPage followed by readTuple at the offset it returned gives
      the record back, on a packed page with room for the record and its slot. */
  lemma PlaceRead(page: seq<Byte>, rec: seq<Byte>)
    requires Packed(page) && 1 <= |rec| <= MAX_RECORD
    requires PAGE_SIZE - 4 * SlotCount(page) - End(page) >= |rec| + 8
    ensures Place(page, rec).offset == Some(End(page))
    ensures ReadRecord(Place(page, rec).page, End(page)) == Ok(rec)
  {
    PackedFree(page);
    PlaceWrites(page, rec, SlotCount(page), End(page));
  }

  /** readTuple finds every entry of a packed page. */
  lemma ReadEntry(page: seq<Byte>, k: nat)
    requires Packed(page) && k < |Entries(page)|
    ensures ReadRecord(page, Entries(page)[k].offset) == Ok(Entries(page)[k].payload)
  {
    RunEntryAt(Ints(page), page, SlotCount(page), 0, HEADER_SIZE, k);
    var x := Entries(page)[k];
    assert GetInt(page, x.offset) == Some(|x.payload|);
    ReadBack(page, x.offset, x.payload);
  }

  /** The writes of writeRecordIntoPage when the gap is exactly the record
      plus four bytes leave its length prefix alone ... */
  lemma OverlapPrefix(p1: seq<Byte>, p2: seq<Byte>, p3: seq<Byte>, p4: seq<Byte>, rec: seq<Byte>, n: nat, e: int)
    requires |p1| == PAGE_SIZE && 4 <= |rec| && n <= 1023
    requires HEADER_SIZE <= e && e + INT_BYTES + |rec| == PAGE_SIZE - 4 * n
    requires p2 == WriteAt(p1, e + INT_BYTES, rec)
    requires PutInt(p2, SlotPos(n), e) == Some(p3) && PutInt(p3, 0, n + 1) == Some(p4)
    ensures GetInt(p4, e) == GetInt(p1, e)
  {
    SlotCountSame(p2, p3, p4, n, e, e, e + INT_BYTES);
    WrittenPrefix(p1, p2, p4, rec, e);
  }

  /** ... but put the new slot over the last four bytes of its payload. */
  lemma OverlapPayload(p2: seq<Byte>, p3: seq<Byte>, p4: seq<Byte>, rec: seq<Byte>, n: nat, e: int)
    requires |p2| == PAGE_SIZE && 4 <= |rec| && n <= 1023
    requires HEADER_SIZE <= e && e + INT_BYTES + |rec| == PAGE_SIZE - 4 * n
    requires p2[e + INT_BYTES..e + INT_BYTES + |rec|] == rec
    requires PutInt(p2, SlotPos(n), e) == Some(p3) && PutInt(p3, 0, n + 1) == Some(p4)
    ensures p4[e + INT_BYTES..e + INT_BYTES + |rec|] == rec[..|rec| - 4] + EncodeInt32(e)
  {
    var a, b := e + INT_BYTES, e + |rec|;
    PutIntSame(p2, b, e, a, b);
    PutIntSame(p3, 0, n + 1, a, b + INT_BYTES);
    SameSub(p3, p4, a, b + INT_BYTES, a, b);
    SameTrans(p2, p3, p4, a, b);
    SameSlice(p2, p4, a, b, a, b);
    SameSlice(p3, p4, a, b + INT_BYTES, b, b + INT_BYTES);
    SlicePrefix(p2, a, rec, |rec| - 4);
    SliceSplit(p4, a, b, b + INT_BYTES);
  }

  lemma SliceSplit(p: seq<Byte>, a: int, b: int, c: int)
    requires 0 <= a <= b <= c <= |p|
    ensures p[a..c] == p[a..b] + p[b..c]
  {
  }

  lemma SlicePrefix(p: seq<Byte>, a: int, rec: seq<Byte>, k: int)
    requires 0 <= a && a + |rec| <= |p| && 0 <= k <= |rec| && p[a..a + |rec|] == rec
    ensures p[a..a + k] == rec[..k]
  {
    assert forall j :: 0 <= j < k ==> p[a..a + k][j] == rec[j];
  }

  /** ... so readTuple at e returns the record with that tail. */
  lemma OverlapRead(page: seq<Byte>, p1: seq<Byte>, p2: seq<Byte>, p3: seq<Byte>, p4: seq<Byte>,
                    rec: seq<Byte>, n: nat, e: int)
    requires |page| == PAGE_SIZE && 4 <= |rec| && n <= 1023
    requires HEADER_SIZE <= e && e + INT_BYTES + |rec| == PAGE_SIZE - 4 * n
    requires PutInt(page, e, |rec|) == Some(p1) && p2 == WriteAt(p1, e + INT_BYTES, rec)
    requires PutInt(p2, SlotPos(n), e) == Some(p3) && PutInt(p3, 0, n + 1) == Some(p4)
    ensures ReadRecord(p4, e) == Ok(rec[..|rec| - 4] + EncodeInt32(e))
  {
    OverlapPrefix(p1, p2, p3, p4, rec, n, e);
    OverlapPayload(p2, p3, p4, rec, n, e);
    ReadBack(p4, e, rec[..|rec| - 4] + EncodeInt32(e));
  }

  /** writeRecordIntoPage when the next offset e leaves exactly the record
      plus four bytes before slot n: it succeeds, and readTuple at e then
      returns the record with its last four bytes replaced by e's encoding. */
  lemma OverlapPlace(page: seq<Byte>, rec: seq<Byte>, n: nat, e: int)
    requires |page| == PAGE_SIZE && 4 <= |rec| <= MAX_RECORD
    requires SlotCount(page) == n <= 1023 && NextOffset(page) == Some(e)
    requires HEADER_SIZE <= e && e + INT_BYTES + |rec| == PAGE_SIZE - 4 * n
    ensures Place(page, rec).offset == Some(e)
    ensures ReadRecord(Place(page, rec).page, e) == Ok(rec[..|rec| - 4] + EncodeInt32(e))
  {
    PlaceSteps(page, rec, n, e);
    var p1 := PutInt(page, e, |rec|).value;
    var p2 := WriteAt(p1, e + INT_BYTES, rec);
    var p3 := PutInt(p2, SlotPos(n), e).value;
    OverlapRead(page, p1, p2, p3, PutInt(p3, 0, n + 1).value, rec, n, e);
  }

  /** findPageWithSpace accepts a record that fills the gap of a packed page
      but for four bytes, and writeRecordIntoPage then puts the record's slot
      over the last four bytes of its payload: readTuple returns the record
      with its tail replaced by the encoded offset. */
  lemma FitCheckOverlap(page: seq<Byte>, rec: seq<Byte>)
    requires Packed(page) && 4 <= |rec| <= MAX_RECORD
    requires PAGE_SIZE - 4 * SlotCount(page) - End(page) == |rec| + INT_BYTES
    ensures HasSpace(page, |rec|) == Some(true)
    ensures Place(page, rec).offset == Some(End(page))
    ensures ReadRecord(Place(page, rec).page, End(page)) == Ok(rec[..|rec| - 4] + EncodeInt32(End(page)))
  {
    PackedFree(page);
    FitCheckGap(page, |rec|);
    OverlapPlace(page, rec, SlotCount(page), End(page));
  }

  /** The fit test findPageWithSpace evidently intends: room for the length
      prefix, the payload and the new slot, free >= recLen + 2 * BYTES. */
  function Fits(page: seq<Byte>, recLen: nat): Option<bool>
    requires |page| == PAGE_SIZE && recLen <= MAX_RECORD
  {
    var free := FreeSpace(page);
    if free.None? then None else Some(free.value >= recLen + 2 * INT_BYTES)
  }

  /** On a packed page the corrected test accepts exactly the records for
      which writeRecordIntoPage has room, and every record it accepts is
      stored whole: the page stays packed, the record is its last entry, and
      readTuple at the returned offset gives it back. */
  lemma RoomPlaceRead(page: seq<Byte>, rec: seq<Byte>)
    requires Packed(page) && 1 <= |rec| <= MAX_RECORD
    ensures Fits(page, |rec|) == Some(PAGE_SIZE - 4 * SlotCount(page) - End(page) >= |rec| + 8)
    ensures Fits(page, |rec|) == Some(true) ==>
              && Place(page, rec).offset == Some(End(page))
              && Packed(Place(page, rec).page)
              && Entries(Place(page, rec).page) == Entries(page) + [Entry(End(page), rec)]
              && ReadRecord(Place(page, rec).page, End(page)) == Ok(rec)
  {
    PackedFree(page);
    if Fits(page, |rec|) == Some(true) {
      PlacePacked(page, rec);
      PlaceRead(page, rec);
    }
  }

  // ----- deletes

  /** deleteTuple writes a zero length over the record's prefix and changes no
      other byte; readTuple at that offset then reports a deleted tuple. */
  lemma TombstoneRead(page: seq<Byte>, off: int)
    requires |page| == PAGE_SIZE
    ensures Tombstone(page, off).Some? <==> 0 <= off <= PAGE_SIZE - INT_BYTES
    ensures Tombstone(page, off).Some? ==>
              && ReadRecord(Tombstone(page, off).value, off) == Err("Deleted tuple")
              && Same(page, Tombstone(page, off).value, 0, off)
              && Same(page, Tombstone(page, off).value, off + INT_BYTES, PAGE_SIZE)
  {
  }

  /** The zeroed record itself: the loop adds four bytes for its prefix and
      then sums the rest of the run as before. */
  lemma TombAt(gp: Reader, gq: Reader, n: nat, i: nat, off: int, acc: int)
    requires i < n <= 1023 && RunFrom(gp, n, i, off) && 0 <= acc <= off
    requires gq(SlotPos(i)) == Some(off) && gq(off) == Some(0)
    requires Agree(gp, gq, off + INT_BYTES, EndFrom(gp, n, i, off))
    requires Agree(gp, gq, PAGE_SIZE - 4 * n, PAGE_SIZE - 4 * i)
    ensures OffsetFrom(gq, n, i, acc) == Some(acc + EndFrom(gp, n, i, off) - off - gp(off).value)
  {
    var len := gp(off).value;
    var next := off + INT_BYTES + len;
    assert OffsetFrom(gq, n, i, acc) == OffsetFrom(gq, n, i + 1, acc + INT_BYTES);
    RunSum(gp, gq, n, i + 1, next, acc + INT_BYTES);
  }

  /** The offset of record j of the records lying back to back from off on. */
  ghost function Nth(gp: Reader, off: int, j: nat): int
    decreases j
  {
    if j == 0 then off
    else
      var len := gp(off);
      if len.None? then off else Nth(gp, off + INT_BYTES + len.value, j - 1)
  }

  /** In a run, record j lies after the records before it. */
  lemma {:induction false} NthAfter(gp: Reader, n: nat, i: nat, off: int, j: nat)
    requires i + j <= n && RunFrom(gp, n, i, off)
    ensures off <= Nth(gp, off, j)
    ensures 0 < j ==> off + INT_BYTES + gp(off).value <= Nth(gp, off, j)
    decreases j
  {
    if j > 0 {
      NthAfter(gp, n, i + 1, off + INT_BYTES + gp(off).value, j - 1);
    }
  }

  /** ... and its length prefix lies before the end of the run. */
  lemma {:induction false} NthBefore(gp: Reader, n: nat, i: nat, off: int, j: nat)
    requires i + j < n && RunFrom(gp, n, i, off)
    ensures var t := Nth(gp, off, j);
            gp(t).Some? && 1 <= gp(t).value && t + INT_BYTES + gp(t).value <= EndFrom(gp, n, i, off)
    decreases j
  {
    if j > 0 {
      NthBefore(gp, n, i + 1, off + INT_BYTES + gp(off).value, j - 1);
    }
  }

  /** Over a run in which record j of the slots i..n-1, at t, now has length 0
      and everything else reads as before, the shared offset loop skips only
      that record's payload: it still counts the four bytes of its prefix. */
  lemma {:induction false} TombSum(gp: Reader, gq: Reader, n: nat, i: nat, off: int, acc: int, j: nat, t: int)
    requires i + j < n <= 1023 && RunFrom(gp, n, i, off) && 0 <= acc <= off && Nth(gp, off, j) == t
    requires Agree(gp, gq, off, t) && Agree(gp, gq, t + INT_BYTES, EndFrom(gp, n, i, off)) && gq(t) == Some(0)
    requires Agree(gp, gq, PAGE_SIZE - 4 * n, PAGE_SIZE - 4 * i)
    ensures gp(t).Some? && OffsetFrom(gq, n, i, acc) == Some(acc + EndFrom(gp, n, i, off) - off - gp(t).value)
    decreases j
  {
    var len := gp(off).value;
    var next := off + INT_BYTES + len;
    if j > 0 {
      NthAfter(gp, n, i, off, j);
      assert gq(SlotPos(i)) == Some(off) && gq(off) == Some(len);
      TombSum(gp, gq, n, i + 1, next, acc + INT_BYTES + len, j - 1, t);
    } else {
      TombAt(gp, gq, n, i, off, acc);
    }
  }

  /** What getInt reads after deleteTuple's write at t: 0 at t, the slot
      count and every int clear of t's four bytes as before. */
  lemma TombReads(page: seq<Byte>, t: int)
    requires |page| == PAGE_SIZE && 4 <= t <= PAGE_SIZE - INT_BYTES
    ensures var q := Tombstone(page, t);
            && q.Some?
            && SlotCount(q.value) == SlotCount(page)
            && ReadRecord(q.value, t) == Err("Deleted tuple")
            && Ints(q.value)(t) == Some(0)
            && Agree(Ints(page), Ints(q.value), 0, t)
            && Agree(Ints(page), Ints(q.value), t + INT_BYTES, PAGE_SIZE)
  {
    TombstoneRead(page, t);
    var q := Tombstone(page, t).value;
    GetIntRange(page, q, 0);
    SameAgree(page, q, 0, t);
    SameAgree(page, q, t + INT_BYTES, PAGE_SIZE);
  }

  /** The same over a whole page's run. */
  lemma TombRun(gp: Reader, gq: Reader, n: nat, k: nat, t: int, len: int, e: int)
    requires k < n <= 1023 && RunFrom(gp, n, 0, HEADER_SIZE) && Nth(gp, HEADER_SIZE, k) == t && gp(t) == Some(len)
    requires Agree(gp, gq, 0, t) && Agree(gp, gq, t + INT_BYTES, PAGE_SIZE) && gq(t) == Some(0)
    requires e == EndFrom(gp, n, 0, HEADER_SIZE)
    ensures OffsetFrom(gq, n, 0, HEADER_SIZE) == Some(e - len)
  {
    NthIn(gp, n, k);
    TombSum(gp, gq, n, 0, HEADER_SIZE, HEADER_SIZE, k, t);
  }

  /** Record k of a whole page's run lies between the header and the end of the run. */
  lemma NthIn(gp: Reader, n: nat, k: nat)
    requires k < n && RunFrom(gp, n, 0, HEADER_SIZE)
    ensures var t := Nth(gp, HEADER_SIZE, k);
            && HEADER_SIZE <= t && gp(t).Some? && 1 <= gp(t).value
            && t + INT_BYTES + gp(t).value <= EndFrom(gp, n, 0, HEADER_SIZE) <= PAGE_SIZE - 4 * n
  {
    NthAfter(gp, n, 0, HEADER_SIZE, k);
    NthBefore(gp, n, 0, HEADER_SIZE, k);
  }

  /** Zeroing the length of record k of a packed page, at t: readTuple at t
      then reports a deleted tuple, and the next insert goes len bytes before
      the end of the records still on the page. */
  lemma TombNth(page: seq<Byte>, k: nat, t: int, len: int)
    requires Packed(page) && k < SlotCount(page) && Nth(Ints(page), HEADER_SIZE, k) == t
    requires GetInt(page, t) == Some(len)
    ensures var q := Tombstone(page, t);
            && q.Some?
            && SlotCount(q.value) == SlotCount(page)
            && ReadRecord(q.value, t) == Err("Deleted tuple")
            && NextOffset(q.value) == Some(End(page) - len)
  {
    NthIn(Ints(page), SlotCount(page), k);
    TombReads(page, t);
    TombNext(page, Tombstone(page, t).value, k, t, len);
  }

  /** The offset loop over a page that reads like the packed page but for a
      zero at record k's prefix. */
  lemma TombNext(page: seq<Byte>, q: seq<Byte>, k: nat, t: int, len: int)
    requires Packed(page) && k < SlotCount(page) && Nth(Ints(page), HEADER_SIZE, k) == t && GetInt(page, t) == Some(len)
    requires |q| == PAGE_SIZE && SlotCount(q) == SlotCount(page) && Ints(q)(t) == Some(0)
    requires Agree(Ints(page), Ints(q), 0, t) && Agree(Ints(page), Ints(q), t + INT_BYTES, PAGE_SIZE)
    ensures NextOffset(q) == Some(End(page) - len)
  {
    var gp, gq, n, e := Ints(page), Ints(q), SlotCount(page), End(page);
    assert n <= 1023 && gp(t) == Some(len);
    TombRun(gp, gq, n, k, t, len, e);
  }

  /** Deleting record k of a packed page keeps its slot but zeroes its length,
      and the next insert then goes End - len bytes in, before the end of the
      records still on the page: the layout is no longer packed, and a new
      record overwrites live ones unless k was the last record. */
  lemma DeleteNext(page: seq<Byte>, k: nat)
    requires Packed(page) && k < SlotCount(page)
    ensures var x := Entries(page)[k];
            var q := Tombstone(page, x.offset);
            && q.Some?
            && SlotCount(q.value) == SlotCount(page)
            && ReadRecord(q.value, x.offset) == Err("Deleted tuple")
            && NextOffset(q.value) == Some(End(page) - |x.payload|)
  {
    RunEntryAt(Ints(page), page, SlotCount(page), 0, HEADER_SIZE, k);
    var x := Entries(page)[k];
    assert GetInt(page, x.offset) == Some(|x.payload|);
    TombNth(page, k, x.offset, |x.payload|);
  }

  /** The delete the shared offset loop evidently needs: the length negated
      rather than zeroed. readTuple, scanRows and updateTuple treat every
      length that is not positive as deleted, so they read the page as before,
      while the record keeps its extent. A record already deleted is left as
      it is. */
  function Retire(page: seq<Byte>, off: int): Option<seq<Byte>>
    requires |page| == PAGE_SIZE
  {
    var len := GetInt(page, off);
    if len.None? then None
    else if len.value <= 0 then Some(page)
    else PutInt(page, off, -len.value)
  }

  /** Math.abs on an int: the smallest int is its own absolute value. */
  function Abs32(v: Int32): (r: Int32)
    ensures v > -0x8000_0000 ==> r >= 0 && (r == v || r == -v)
  {
    if v < 0 then Wrap32(-(v as int)) else v
  }

  /** The offset loop to go with Retire: it adds the absolute value of each
      length, so deleted records still count with their whole extent. */
  function SpanFrom(get: Reader, slots: int, i: nat, acc: Int32): Option<Int32>
    decreases slots - i
  {
    if i >= slots then Some(acc)
    else
      var off := get(SlotPos(i));
      if off.None? then None
      else
        var len := get(off.value);
        if len.None? then None
        else SpanFrom(get, slots, i + 1, Wrap32(acc + INT_BYTES + Abs32(len.value)))
  }

  function NextSpan(page: seq<Byte>): Option<Int32>
    requires |page| == PAGE_SIZE
  {
    SpanFrom(Ints(page), SlotCount(page), 0, HEADER_SIZE)
  }

  /** Over a run, SpanFrom adds up the records as OffsetFrom does. */
  lemma {:induction false} SpanSum(gp: Reader, gq: Reader, n: nat, i: nat, off: int, acc: int)
    requires i <= n <= 1023 && RunFrom(gp, n, i, off) && 0 <= acc <= off
    requires Agree(gp, gq, off, EndFrom(gp, n, i, off)) && Agree(gp, gq, PAGE_SIZE - 4 * n, PAGE_SIZE - 4 * i)
    ensures SpanFrom(gq, n, i, acc) == Some(acc + EndFrom(gp, n, i, off) - off)
    decreases n - i
  {
    if i < n {
      var len := gp(off).value;
      var next := off + INT_BYTES + len;
      var e := EndFrom(gp, n, i + 1, next);
      assert gq(SlotPos(i)) == Some(off) && gq(off) == Some(len);
      SpanSum(gp, gq, n, i + 1, next, acc + INT_BYTES + len);
    }
  }

  /** The record with the negated length itself: the loop adds its whole
      extent and then sums the rest of the run as before. */
  lemma SpanAt(gp: Reader, gq: Reader, n: nat, i: nat, off: int, acc: int)
    requires i < n <= 1023 && RunFrom(gp, n, i, off) && 0 <= acc <= off
    requires gq(SlotPos(i)) == Some(off) && gp(off).Some? && gq(off).Some? && gq(off).value as int == -(gp(off).value as int)
    requires Agree(gp, gq, off + INT_BYTES, EndFrom(gp, n, i, off))
    requires Agree(gp, gq, PAGE_SIZE - 4 * n, PAGE_SIZE - 4 * i)
    ensures SpanFrom(gq, n, i, acc) == Some(acc + EndFrom(gp, n, i, off) - off)
  {
    var len := gp(off).value;
    var next := off + INT_BYTES + len;
    assert Abs32(gq(off).value) == len;
    assert SpanFrom(gq, n, i, acc) == SpanFrom(gq, n, i + 1, acc + INT_BYTES + len);
    SpanSum(gp, gq, n, i + 1, next, acc + INT_BYTES + len);
  }

  /** Over a run in which record j, at t, now has its length negated and
      everything else reads as before, SpanFrom still counts every record. */
  lemma {:induction false} SpanRetired(gp: Reader, gq: Reader, n: nat, i: nat, off: int, acc: int, j: nat, t: int)
    requires i + j < n <= 1023 && RunFrom(gp, n, i, off) && 0 <= acc <= off && Nth(gp, off, j) == t
    requires Agree(gp, gq, off, t) && Agree(gp, gq, t + INT_BYTES, EndFrom(gp, n, i, off))
    requires gp(t).Some? && gq(t).Some? && gq(t).value as int == -(gp(t).value as int)
    requires Agree(gp, gq, PAGE_SIZE - 4 * n, PAGE_SIZE - 4 * i)
    ensures SpanFrom(gq, n, i, acc) == Some(acc + EndFrom(gp, n, i, off) - off)
    decreases j
  {
    if j > 0 {
      var len := gp(off).value;
      var next := off + INT_BYTES + len;
      NthAfter(gp, n, i, off, j);
      assert gq(SlotPos(i)) == Some(off) && gq(off) == Some(len);
      SpanRetired(gp, gq, n, i + 1, next, acc + INT_BYTES + len, j - 1, t);
    } else {
      SpanAt(gp, gq, n, i, off, acc);
    }
  }

  /** What getInt reads after Retire at t: -len at t, the rest as before. */
  lemma RetireReads(page: seq<Byte>, t: int, len: int)
    requires |page| == PAGE_SIZE && 4 <= t <= PAGE_SIZE - INT_BYTES && GetInt(page, t) == Some(len) && len >= 1
    ensures var q := Retire(page, t);
            && q.Some?
            && SlotCount(q.value) == SlotCount(page)
            && ReadRecord(q.value, t) == Err("Deleted tuple")
            && Ints(q.value)(t) == Some(-len)
            && Agree(Ints(page), Ints(q.value), 0, t)
            && Agree(Ints(page), Ints(q.value), t + INT_BYTES, PAGE_SIZE)
  {
    var q := PutInt(page, t, -len).value;
    PutIntSame(page, t, -len, 0, t);
    PutIntSame(page, t, -len, t + INT_BYTES, PAGE_SIZE);
    GetIntRange(page, q, 0);
    SameAgree(page, q, 0, t);
    SameAgree(page, q, t + INT_BYTES, PAGE_SIZE);
  }

  /** The corrected offset loop over a page that reads like the packed page
      but for the negated length of record k, at t. */
  lemma SpanNext(page: seq<Byte>, q: seq<Byte>, k: nat, t: int, len: int)
    requires Packed(page) && k < SlotCount(page) && Nth(Ints(page), HEADER_SIZE, k) == t && GetInt(page, t) == Some(len)
    requires |q| == PAGE_SIZE && SlotCount(q) == SlotCount(page) && Ints(q)(t) == Some(-len)
    requires Agree(Ints(page), Ints(q), 0, t) && Agree(Ints(page), Ints(q), t + INT_BYTES, PAGE_SIZE)
    ensures NextSpan(q) == Some(End(page))
  {
    var gp, gq, n := Ints(page), Ints(q), SlotCount(page);
    PackedFree(page);
    NthIn(gp, n, k);
    SpanRetired(gp, gq, n, 0, HEADER_SIZE, HEADER_SIZE, k, t);
  }

  /** On a packed page the corrected loop agrees with findPageWithSpace's. */
  lemma SpanPacked(page: seq<Byte>)
    requires Packed(page)
    ensures NextSpan(page) == NextOffset(page) == Some(End(page))
  {
    PackedFree(page);
    SpanSum(Ints(page), Ints(page), SlotCount(page), 0, HEADER_SIZE, HEADER_SIZE);
  }

  /** Retire on record k of a packed page, at t. */
  lemma RetireNth(page: seq<Byte>, k: nat, t: int, len: int)
    requires Packed(page) && k < SlotCount(page) && Nth(Ints(page), HEADER_SIZE, k) == t
    requires GetInt(page, t) == Some(len)
    ensures var q := Retire(page, t);
            && q.Some?
            && SlotCount(q.value) == SlotCount(page)
            && ReadRecord(q.value, t) == Err("Deleted tuple")
            && NextSpan(q.value) == Some(End(page))
  {
    NthIn(Ints(page), SlotCount(page), k);
    RetireReads(page, t, len);
    SpanNext(page, Retire(page, t).value, k, t, len);
  }

  /** With the corrected delete and offset loop, the corrected loop agrees
      with findPageWithSpace's on a packed page, and deleting record k keeps
      the next insert where the records end: after every record, deleted or
      live, so it overwrites none of them. */
  lemma RetireNext(page: seq<Byte>, k: nat)
    requires Packed(page) && k < SlotCount(page)
    ensures NextSpan(page) == NextOffset(page) == Some(End(page))
    ensures var x := Entries(page)[k];
            var q := Retire(page, x.offset);
            && q.Some?
            && SlotCount(q.value) == SlotCount(page)
            && ReadRecord(q.value, x.offset) == Err("Deleted tuple")
            && NextSpan(q.value) == Some(End(page))
  {
    SpanPacked(page);
    RunEntryAt(Ints(page), page, SlotCount(page), 0, HEADER_SIZE, k);
    var x := Entries(page)[k];
    assert GetInt(page, x.offset) == Some(|x.payload|);
    RetireNth(page, k, x.offset, |x.payload|);
  }

  // ----- scans

  /** The rows scanRows keeps from a list of live records, with the same
      failure on the first record that does not deserialize. */
  function RowsOf(dec: Decoder, pid: PageId, pred: Tuple -> bool, es: seq<Entry>): (r: Result<seq<Row>>)
    ensures r.Ok? ==> |r.value| <= |es|
  {
    if es == [] then Ok([]) else Keep(dec, pid, pred, es[0], RowsOf(dec, pid, pred, es[1..]))
  }


  /** scanRows at a slot that points at a live record in the page. */
  lemma ScanStep(dec: Decoder, get: Reader, page: seq<Byte>, pid: PageId, pred: Tuple -> bool, n: nat, i: nat, off: int, len: int)
    requires |page| == PAGE_SIZE && i < n
    requires get(SlotPos(i)) == Some(off) && get(off) == Some(len)
    requires 1 <= len && 0 <= off && off + INT_BYTES + len <= PAGE_SIZE
    ensures ScanFrom(dec, get, page, pid, pred, n, i) ==
              Keep(dec, pid, pred, Entry(off, page[off + INT_BYTES..off + INT_BYTES + len]),
                   ScanFrom(dec, get, page, pid, pred, n, i + 1))
  {
  }

  /** Over a run, the slot loop of scanRows visits the run's records in slot order. */
  lemma {:induction false} ScanRun(dec: Decoder, get: Reader, page: seq<Byte>, pid: PageId, pred: Tuple -> bool,
                                   n: nat, i: nat, off: int)
    requires |page| == PAGE_SIZE && i <= n && 0 <= off
    requires RunFrom(get, n, i, off)
    ensures ScanFrom(dec, get, page, pid, pred, n, i) == RowsOf(dec, pid, pred, RunEntries(get, page, n, i, off))
    decreases n - i
  {
    if i < n {
      var len := get(off).value;
      var next := off + INT_BYTES + len;
      assert next <= EndFrom(get, n, i + 1, next);
      var e0 := Entry(off, page[off + INT_BYTES..next]);
      var es := RunEntries(get, page, n, i + 1, next);
      assert ([e0] + es)[1..] == es;
      RunEntriesHead(get, page, n, i, off);
      assert RowsOf(dec, pid, pred, [e0] + es) == Keep(dec, pid, pred, e0, RowsOf(dec, pid, pred, es));
      ScanStep(dec, get, page, pid, pred, n, i, off, len);
      ScanRun(dec, get, page, pid, pred, n, i + 1, next);
      assert ScanFrom(dec, get, page, pid, pred, n, i) == Keep(dec, pid, pred, e0, RowsOf(dec, pid, pred, es));
    }
  }

  /** On a packed page scanRows returns the records that deserialize and
      satisfy the predicate, in slot order, each with its page and offset. */
  lemma PageRowsPacked(schema: Schema, page: seq<Byte>, pid: PageId, pred: Tuple -> bool)
    requires WellFormed(schema) && Packed(page)
    ensures PageRows(schema, page, pid, pred) == RowsOf(Decode(schema), pid, pred, Entries(page))
  {
    ScanRun(Decode(schema), Ints(page), page, pid, pred, SlotCount(page), 0, HEADER_SIZE);
  }

  /** updateTuple in place followed by readTuple at the same offset gives the
      new record back, when the copy stays inside the page; bytes before the
      offset and after the new payload are untouched. */
  lemma RewriteRead(page: seq<Byte>, off: int, rec: seq<Byte>)
    requires |page| == PAGE_SIZE && 0 <= off <= PAGE_SIZE - INT_BYTES && 1 <= |rec| <= PAGE_SIZE
    ensures var w := Rewrite(page, off, rec);
            && (w.offset.Some? <==> off + INT_BYTES + |rec| <= PAGE_SIZE)
            && (w.offset.Some? ==>
                  && w.offset == Some(off) && ReadRecord(w.page, off) == Ok(rec)
                  && Same(page, w.page, 0, off) && Same(page, w.page, off + INT_BYTES + |rec|, PAGE_SIZE))
  {
    var p1 := PutInt(page, off, |rec|).value;
    if off + INT_BYTES + |rec| <= PAGE_SIZE {
      var p2 := WriteAt(p1, off + INT_BYTES, rec);
      WriteAtSame(p1, off + INT_BYTES, rec, off, off + INT_BYTES);
      GetIntRange(p1, p2, off);
      ReadBack(p2, off, rec);
      PutIntSame(page, off, |rec|, 0, off);
      WriteAtSame(p1, off + INT_BYTES, rec, 0, off);
      PutIntSame(page, off, |rec|, off + INT_BYTES + |rec|, PAGE_SIZE);
      WriteAtSame(p1, off + INT_BYTES, rec, off + INT_BYTES + |rec|, PAGE_SIZE);
    }
  }

  /** The rows of entries es followed by one more entry: a failure among es
      comes first, then a failure of the last entry; otherwise its row, when
      kept, follows the others. */
  lemma {:induction false} RowsOfAppend(dec: Decoder, pid: PageId, pred: Tuple -> bool, es: seq<Entry>, e: Entry)
    ensures var r := RowsOf(dec, pid, pred, es);
            var t := dec(e.payload);
            RowsOf(dec, pid, pred, es + [e]) ==
              if r.Err? then r
              else if t.Err? then Err(t.msg)
              else Ok(r.value + if pred(t.value) then [Row(RecordId(pid, e.offset), t.value)] else [])
    decreases |es|
  {
    if es == [] {
      assert es + [e] == [e] && [e][1..] == [];
      var t := dec(e.payload);
      if t.Ok? {
        var k := if pred(t.value) then [Row(RecordId(pid, e.offset), t.value)] else [];
        assert RowsOf(dec, pid, pred, [e]) == Ok(k + []);
        assert k + [] == [] + k;
      }
    } else {
      assert (es + [e])[0] == es[0] && (es + [e])[1..] == es[1..] + [e];
      RowsOfAppend(dec, pid, pred, es[1..], e);
      var r := RowsOf(dec, pid, pred, es[1..]);
      var t := dec(e.payload);
      if r.Ok? && t.Ok? {
        var k := if pred(t.value) then [Row(RecordId(pid, e.offset), t.value)] else [];
        var h := dec(es[0].payload);
        if h.Ok? {
          var kh := if pred(h.value) then [Row(RecordId(pid, es[0].offset), h.value)] else [];
          assert RowsOf(dec, pid, pred, es[1..] + [e]) == Ok(r.value + k);
          assert RowsOf(dec, pid, pred, es + [e]) == Ok(kh + (r.value + k));
          assert RowsOf(dec, pid, pred, es) == Ok(kh + r.value);
          assert kh + (r.value + k) == (kh + r.value) + k;
        }
      }
    }
  }
}
