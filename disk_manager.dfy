/** The page file: a flat byte file holding fixed-size pages, page i at byte
    offset i * PAGE_SIZE, and the counter that hands out page ids. */
module Disk {
  import opened Bytes
  import opened Wrappers

  /** Page.PAGE_SIZE: a page is 4 KB. */
  const PAGE_SIZE: nat := 4096

  /** A page id as the Java code passes it: a non-negative int. */
  type PageId = x: int | 0 <= x <= 0x7fff_ffff

  /** RandomAccessFile.seek(off) followed by write(d): overwrite |d| bytes at off,
      growing the file when the write ends past its end. A gap between the old end
      and off reads as zeros, as a sparse file does. */
  function WriteAt(file: seq<Byte>, off: nat, d: seq<Byte>): (r: seq<Byte>)
    ensures |r| == if off + |d| > |file| then off + |d| else |file|
    ensures r[off..off + |d|] == d
    ensures forall k :: 0 <= k < |r| && !(off <= k < off + |d|) ==>
                          r[k] == if k < |file| then file[k] else 0
  {
    if off <= |file| then
      file[..off] + d + (if off + |d| < |file| then file[off + |d|..] else [])
    else
      file + Zeros(off - |file|) + d
  }

  /** What readPage(id) returns: the PAGE_SIZE bytes at id * PAGE_SIZE, or a
      failure when readFully reaches the end of the file first. */
  function PageImage(file: seq<Byte>, id: PageId): Option<seq<Byte>>
  {
    var off := id * PAGE_SIZE;
    if off + PAGE_SIZE <= |file| then Some(file[off..off + PAGE_SIZE]) else None
  }

  /** A whole-page write reads back as written. */
  lemma ReadAfterWrite(file: seq<Byte>, id: PageId, d: seq<Byte>)
    requires |d| == PAGE_SIZE
    ensures PageImage(WriteAt(file, id * PAGE_SIZE, d), id) == Some(d)
  {
  }

  /** A whole-page write leaves every other page that existed as it was, and
      does not create pages past the written one. When the written page already
      existed, no page at all appears or disappears besides it. */
  lemma WriteKeepsOtherPages(file: seq<Byte>, id: PageId, d: seq<Byte>, j: PageId)
    requires |d| == PAGE_SIZE && j != id
    requires PageImage(file, j).Some? || j > id || PageImage(file, id).Some?
    ensures PageImage(WriteAt(file, id * PAGE_SIZE, d), j) == PageImage(file, j)
  {
    var r := WriteAt(file, id * PAGE_SIZE, d);
    var off := j * PAGE_SIZE;
    if j < id {
      assert off + PAGE_SIZE <= id * PAGE_SIZE;
    } else {
      assert off >= id * PAGE_SIZE + PAGE_SIZE;
    }
    if off + PAGE_SIZE <= |file| {
      assert r[off..off + PAGE_SIZE] == file[off..off + PAGE_SIZE];
    }
  }

  /** Whole-page writes keep the file an exact number of pages long. */
  lemma WriteKeepsWholePages(file: seq<Byte>, id: PageId, d: seq<Byte>)
    requires |file| % PAGE_SIZE == 0 && |d| == PAGE_SIZE
    ensures |WriteAt(file, id * PAGE_SIZE, d)| % PAGE_SIZE == 0
  {
  }

  /** One page write, as DiskManager.writePage(id, bytes) performs it. */
  datatype PageWrite = PageWrite(id: PageId, bytes: seq<Byte>)

  /** The file after the writes ws, performed in order. */
  function ApplyWrites(file: seq<Byte>, ws: seq<PageWrite>): seq<Byte>
  {
    if ws == [] then file
    else
      var w := ws[|ws| - 1];
      WriteAt(ApplyWrites(file, ws[..|ws| - 1]), w.id * PAGE_SIZE, w.bytes)
  }

  /** The file never shrinks. */
  lemma {:induction false} ApplyWritesGrows(file: seq<Byte>, ws: seq<PageWrite>)
    ensures |ApplyWrites(file, ws)| >= |file|
    ensures forall j :: 0 <= j <= 0x7fff_ffff && PageImage(file, j).Some? ==>
                          PageImage(ApplyWrites(file, ws), j).Some?
  {
    if ws != [] {
      ApplyWritesGrows(file, ws[..|ws| - 1]);
    }
  }

  /** With whole-page writes, a page ends with the bytes of the last write to it. */
  lemma {:induction false} LastWriteWins(file: seq<Byte>, ws: seq<PageWrite>, k: nat)
    requires forall i :: 0 <= i < |ws| ==> |ws[i].bytes| == PAGE_SIZE
    requires k < |ws|
    requires forall i :: k < i < |ws| ==> ws[i].id != ws[k].id
    ensures PageImage(ApplyWrites(file, ws), ws[k].id) == Some(ws[k].bytes)
  {
    var n := |ws|;
    var w := ws[n - 1];
    if k == n - 1 {
      ReadAfterWrite(ApplyWrites(file, ws[..n - 1]), w.id, w.bytes);
    } else {
      LastWriteWins(file, ws[..n - 1], k);
      WriteKeepsOtherPages(ApplyWrites(file, ws[..n - 1]), w.id, w.bytes, ws[k].id);
    }
  }

  /** With whole-page writes, a page that existed and is not written keeps its bytes. */
  lemma {:induction false} UnwrittenPageKept(file: seq<Byte>, ws: seq<PageWrite>, j: PageId)
    requires forall i :: 0 <= i < |ws| ==> |ws[i].bytes| == PAGE_SIZE && ws[i].id != j
    requires PageImage(file, j).Some?
    ensures PageImage(ApplyWrites(file, ws), j) == PageImage(file, j)
  {
    var n := |ws|;
    if n > 0 {
      UnwrittenPageKept(file, ws[..n - 1], j);
      WriteKeepsOtherPages(ApplyWrites(file, ws[..n - 1]), ws[n - 1].id, ws[n - 1].bytes, j);
    }
  }

  class DiskManager {
    /** The contents of database.db. */
    var file: seq<Byte>
    /** The id the next allocatePage returns (a Java int, so it wraps). */
    var nextPageId: Int32

    /** Opening the file: the next id is the number of whole pages in it. */
    constructor (existing: seq<Byte>)
      ensures file == existing
      ensures nextPageId == Wrap32(|existing| / PAGE_SIZE)
      ensures |existing| / PAGE_SIZE <= INT32_MAX ==> nextPageId == |existing| / PAGE_SIZE
    {
      file := existing;
      nextPageId := Wrap32(|existing| / PAGE_SIZE);
    }

    /** Hands out the current next id, advances the counter by one and writes a
        zero page at the new id. After the counter wrapped to a negative value the
        seek fails. */
    method AllocatePage() returns (r: Option<PageId>)
      modifies this
      ensures nextPageId == Wrap32(old(nextPageId) + 1)
      ensures old(nextPageId) >= 0 ==>
                r == Some(old(nextPageId)) &&
                file == WriteAt(old(file), old(nextPageId) * PAGE_SIZE, Zeros(PAGE_SIZE)) &&
                PageImage(file, old(nextPageId)) == Some(Zeros(PAGE_SIZE))
      ensures old(nextPageId) < 0 ==> r == None && file == old(file)
    {
      var id := nextPageId;
      nextPageId := Wrap32(nextPageId + 1);
      if id < 0 {
        return None;
      }
      WritePage(id, Zeros(PAGE_SIZE));
      ReadAfterWrite(old(file), id, Zeros(PAGE_SIZE));
      r := Some(id);
    }

    /** Overwrites the bytes of page id with d; the length of d is not checked.
        A whole page written reads back as written. */
    method WritePage(id: PageId, d: seq<Byte>)
      modifies this
      ensures file == WriteAt(old(file), id * PAGE_SIZE, d)
      ensures nextPageId == old(nextPageId)
      ensures |d| == PAGE_SIZE ==> ReadPage(id) == Some(d)
    {
      file := WriteAt(file, id * PAGE_SIZE, d);
      if |d| == PAGE_SIZE {
        ReadAfterWrite(old(file), id, d);
      }
    }

    /** Reads page id: the PAGE_SIZE bytes at its offset, or a failure when
        the file ends before them. */
    function ReadPage(id: PageId): (r: Option<seq<Byte>>)
      reads this
      ensures r.Some? <==> (id + 1) * PAGE_SIZE <= |file|
      ensures r.Some? ==> r.value == file[id * PAGE_SIZE..(id + 1) * PAGE_SIZE]
    {
      PageImage(file, id)
    }
  }
}
