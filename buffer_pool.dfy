/** The LRU page cache over the page file. Pages are objects: the Page that
    getPage returns is the cached one, and callers change its bytes in place. */
module Buffer {
  import opened Bytes
  import opened Wrappers
  import opened Disk

  /** A cached page: its id, a PAGE_SIZE byte array, and the dirty flag. */
  class Page {
    const pageId: PageId
    const data: array<Byte>
    var dirty: bool

    constructor (id: PageId)
      ensures pageId == id && !dirty
      ensures fresh(data) && data.Length == PAGE_SIZE && data[..] == Zeros(PAGE_SIZE)
    {
      pageId := id;
      data := new Byte[PAGE_SIZE](_ => 0);
      dirty := false;
    }
  }

  /** The position of the first occurrence of x in s. */
  function FirstIndex<T(==)>(s: seq<T>, x: T): (i: nat)
    requires x in s
    ensures i < |s| && s[i] == x && x !in s[..i]
  {
    if s[0] == x then 0 else 1 + FirstIndex(s[1..], x)
  }

  /** s with its i-th element moved to the end (made most recently used). */
  function MoveToEnd<T>(s: seq<T>, i: nat): (r: seq<T>)
    requires i < |s|
    ensures |r| == |s| && r[|s| - 1] == s[i]
    ensures forall k :: 0 <= k < |s| - 1 ==> r[k] == if k < i then s[k] else s[k + 1]
  {
    s[..i] + s[i + 1..] + [s[i]]
  }

  /** Moving an entry to the end keeps the same entries. */
  lemma MoveToEndMembers<T>(s: seq<T>, i: nat)
    requires i < |s|
    ensures forall x :: x in MoveToEnd(s, i) ==> x in s
  {
  }

  /** The entries left after an insertion: the eldest is dropped when there
      are more than capacity of them (LinkedHashMap.removeEldestEntry). */
  function Evict<T>(s: seq<T>, capacity: int): (r: seq<T>)
    ensures |s| > capacity && |s| > 0 ==> r == s[1..]
    ensures !(|s| > capacity && |s| > 0) ==> r == s
  {
    if |s| > capacity && |s| > 0 then s[1..] else s
  }

  /** The recency order (least recently used first) after an access to id: a
      hit moves id to the end; a miss appends it and then evicts. */
  function Touch(order: seq<PageId>, id: PageId, capacity: int): (r: seq<PageId>)
    ensures id in order ==> |r| == |order|
    ensures id !in order ==> |r| == if |order| + 1 > capacity then |order| else |order| + 1
  {
    if id in order then MoveToEnd(order, FirstIndex(order, id))
    else Evict(order + [id], capacity)
  }

  /** The recency order after the accesses ids, in order. */
  function AccessAll(order: seq<PageId>, ids: seq<PageId>, capacity: int): seq<PageId>
  {
    if ids == [] then order
    else Touch(AccessAll(order, ids[..|ids| - 1], capacity), ids[|ids| - 1], capacity)
  }

  ghost predicate Distinct<T>(s: seq<T>)
  {
    forall i, j :: 0 <= i < j < |s| ==> s[i] != s[j]
  }

  /** Starting from an empty pool, accessing distinct pages leaves exactly the
      last capacity of them resident, in access order. */
  lemma {:induction false} LastAccessedStay(ids: seq<PageId>, capacity: int)
    requires Distinct(ids) && capacity >= 1
    ensures AccessAll([], ids, capacity) ==
            if |ids| > capacity then ids[|ids| - capacity..] else ids
  {
    var n := |ids|;
    if n > 0 {
      var pre := ids[..n - 1];
      assert Distinct(pre);
      LastAccessedStay(pre, capacity);
      var start := if n - 1 > capacity then n - 1 - capacity else 0;
      WindowStep(ids, start, capacity);
    }
  }

  /** The induction step: the window ids[start..n-1] plus the new access ids[n-1]. */
  lemma WindowStep(ids: seq<PageId>, start: nat, capacity: int)
    requires Distinct(ids) && capacity >= 1 && |ids| > 0
    requires start == if |ids| - 1 > capacity then |ids| - 1 - capacity else 0
    ensures Touch(ids[start..|ids| - 1], ids[|ids| - 1], capacity) ==
            if |ids| > capacity then ids[|ids| - capacity..] else ids
  {
    var n := |ids|;
    var s := ids[start..n - 1];
    var x := ids[n - 1];
    assert x !in s;
    assert s + [x] == ids[start..];
  }

  /** The accesses of BufferPoolTest.testEvictionEvictsLeastRecentlyUsed
      (getPage p1, p2, p1, p2 and markDirty p2, pool of two) leave p2 the most
      recently used page ... */
  lemma ReaccessOrder(p1: PageId, p2: PageId)
    requires p1 != p2
    ensures AccessAll([], [p1, p2, p1, p2, p2], 2) == [p1, p2]
  {
    var s0: seq<PageId> := [];
    var s1 := s0 + [p1];
    var s2 := s1 + [p2];
    var s3 := s2 + [p1];
    var s4 := s3 + [p2];
    var s5 := s4 + [p2];
    AccessAllSnoc([], s0, p1, 2);
    AccessAllSnoc([], s1, p2, 2);
    AccessAllSnoc([], s2, p1, 2);
    AccessAllSnoc([], s3, p2, 2);
    AccessAllSnoc([], s4, p2, 2);
    TouchPair(p1, p2);
    TouchPair(p2, p1);
    assert s5 == [p1, p2, p1, p2, p2];
  }

  /** ... so the getPage of a third page p3 that follows evicts p1, not p2:
      the dirty page p2 stays cached and is not written by the eviction. */
  lemma ReaccessChangesVictim(p1: PageId, p2: PageId, p3: PageId)
    requires p1 != p2 && p1 != p3 && p2 != p3
    ensures AccessAll([], [p1, p2, p1, p2, p2, p3], 2) == [p2, p3]
  {
    ReaccessOrder(p1, p2);
    var s5: seq<PageId> := [p1, p2, p1, p2, p2];
    AccessAllSnoc([], s5, p3, 2);
    assert s5 + [p3] == [p1, p2, p1, p2, p2, p3];
  }

  /** Touch on a pool of two holding a and b. */
  lemma TouchPair(a: PageId, b: PageId)
    requires a != b
    ensures Touch([], a, 2) == [a] && Touch([a], b, 2) == [a, b]
    ensures Touch([a, b], a, 2) == [b, a] && Touch([a, b], b, 2) == [a, b]
  {
    assert FirstIndex([a, b], a) == 0;
    assert FirstIndex([a, b], b) == 1;
  }

  lemma AccessAllSnoc(order: seq<PageId>, ids: seq<PageId>, x: PageId, capacity: int)
    ensures AccessAll(order, ids + [x], capacity) == Touch(AccessAll(order, ids, capacity), x, capacity)
  {
    assert (ids + [x])[..|ids|] == ids;
  }

  /* ---------- cache contents as values ---------- */

  /** A snapshot of one cache entry. */
  datatype Frame = Frame(id: PageId, dirty: bool, bytes: seq<Byte>)

  function IdsF(fs: seq<Frame>): (r: seq<PageId>)
    ensures |r| == |fs| && forall i :: 0 <= i < |fs| ==> r[i] == fs[i].id
  {
    seq(|fs|, i requires 0 <= i < |fs| => fs[i].id)
  }

  ghost predicate DistinctF(fs: seq<Frame>)
  {
    forall i, j :: 0 <= i < j < |fs| ==> fs[i].id != fs[j].id
  }

  ghost predicate WholeF(fs: seq<Frame>)
  {
    forall i :: 0 <= i < |fs| ==> |fs[i].bytes| == PAGE_SIZE
  }

  /** Every cached page exists in the file, and a clean one holds exactly the
      file's bytes, except possibly page skip (the page a caller is changing
      before it marks it dirty). */
  ghost predicate CoherentF(fs: seq<Frame>, file: seq<Byte>, skip: int)
  {
    forall i :: 0 <= i < |fs| ==>
      PageImage(file, fs[i].id).Some? &&
      (fs[i].id != skip && !fs[i].dirty ==> PageImage(file, fs[i].id) == Some(fs[i].bytes))
  }

  /** The bytes of page id as a reader through the pool sees them: the cached
      bytes when resident, otherwise the file's. */
  ghost function ViewF(fs: seq<Frame>, file: seq<Byte>, id: PageId): Option<seq<Byte>>
  {
    if id in IdsF(fs) then Some(fs[FirstIndex(IdsF(fs), id)].bytes)
    else PageImage(file, id)
  }

  /** The view of every page at once. */
  ghost function ViewMap(fs: seq<Frame>, file: seq<Byte>): imap<PageId, Option<seq<Byte>>>
  {
    imap j: PageId | true :: ViewF(fs, file, j)
  }

  /** The writes flushAll performs: one per dirty entry, in recency order. */
  function DirtyWrites(fs: seq<Frame>): (ws: seq<PageWrite>)
    ensures |ws| <= |fs|
  {
    if fs == [] then []
    else
      var f := fs[|fs| - 1];
      DirtyWrites(fs[..|fs| - 1]) + if f.dirty then [PageWrite(f.id, f.bytes)] else []
  }

  /** The file after writing back f, as evictPage does: only when dirty. */
  function WriteBack(file: seq<Byte>, f: Frame): seq<Byte>
  {
    if f.dirty then WriteAt(file, f.id * PAGE_SIZE, f.bytes) else file
  }

  /** The frames after flushAll has visited the first i entries. */
  function CleanFirst(fs: seq<Frame>, i: nat): (r: seq<Frame>)
    ensures |r| == |fs|
    ensures forall k :: 0 <= k < |fs| ==> r[k] == if k < i then fs[k].(dirty := false) else fs[k]
  {
    seq(|fs|, k requires 0 <= k < |fs| => if k < i then fs[k].(dirty := false) else fs[k])
  }

  lemma AtIndex(fs: seq<Frame>, k: nat, file: seq<Byte>)
    requires DistinctF(fs) && k < |fs|
    ensures fs[k].id in IdsF(fs) && FirstIndex(IdsF(fs), fs[k].id) == k
    ensures ViewF(fs, file, fs[k].id) == Some(fs[k].bytes)
  {
  }

  /** Writing back a cached page that is coherent or dirty leaves its file
      image equal to its bytes and touches no other page. */
  lemma WriteBackImages(file: seq<Byte>, f: Frame)
    requires |f.bytes| == PAGE_SIZE && PageImage(file, f.id).Some?
    requires !f.dirty ==> PageImage(file, f.id) == Some(f.bytes)
    ensures PageImage(WriteBack(file, f), f.id) == Some(f.bytes)
    ensures forall j: PageId :: j != f.id ==> PageImage(WriteBack(file, f), j) == PageImage(file, j)
  {
    if f.dirty {
      ReadAfterWrite(file, f.id, f.bytes);
      forall j: PageId | j != f.id
        ensures PageImage(WriteBack(file, f), j) == PageImage(file, j)
      {
        WriteKeepsOtherPages(file, f.id, f.bytes, j);
      }
    }
  }

  /** A hit (getPage or markDirty) only reorders the cache: the views, the
      coherence and the distinctness of ids are kept. */
  lemma MoveKeeps(fs: seq<Frame>, i: nat, file: seq<Byte>, skip: int)
    requires DistinctF(fs) && i < |fs|
    ensures DistinctF(MoveToEnd(fs, i))
    ensures CoherentF(fs, file, skip) ==> CoherentF(MoveToEnd(fs, i), file, skip)
    ensures ViewMap(MoveToEnd(fs, i), file) == ViewMap(fs, file)
  {
    var gs := MoveToEnd(fs, i);
    var n := |fs|;
    assert forall k :: 0 <= k < n ==> gs[k] == fs[if k == n - 1 then i else if k < i then k else k + 1];
    MoveViews(fs, i, file);
  }

  lemma MoveViews(fs: seq<Frame>, i: nat, file: seq<Byte>)
    requires DistinctF(fs) && i < |fs|
    ensures ViewMap(MoveToEnd(fs, i), file) == ViewMap(fs, file)
  {
    var gs := MoveToEnd(fs, i);
    var n := |fs|;
    forall j
      ensures ViewF(gs, file, j) == ViewF(fs, file, j)
    {
      if j in IdsF(fs) {
        var k := FirstIndex(IdsF(fs), j);
        var k' := if k == i then n - 1 else if k < i then k else k - 1;
        assert gs[k'] == fs[k];
        MoveDistinct(fs, i);
        AtIndex(gs, k', file);
        AtIndex(fs, k, file);
      }
    }
  }

  lemma MoveDistinct(fs: seq<Frame>, i: nat)
    requires DistinctF(fs) && i < |fs|
    ensures DistinctF(MoveToEnd(fs, i))
  {
    var gs := MoveToEnd(fs, i);
    var n := |fs|;
    assert forall k :: 0 <= k < n ==> gs[k] == fs[if k == n - 1 then i else if k < i then k else k + 1];
  }

  /** The flags play no part in what a reader sees. */
  lemma FlagKeepsViews(fs: seq<Frame>, k: nat, flag: bool, file: seq<Byte>)
    requires k < |fs|
    ensures IdsF(fs[k := fs[k].(dirty := flag)]) == IdsF(fs)
    ensures ViewMap(fs[k := fs[k].(dirty := flag)], file) == ViewMap(fs, file)
  {
    assert IdsF(fs[k := fs[k].(dirty := flag)]) == IdsF(fs);
  }

  /** markDirty(id, true) on a resident page keeps the views, and makes the
      cache coherent again when only that page was out of step with the file. */
  lemma SetDirtyKeeps(fs: seq<Frame>, k: nat, file: seq<Byte>)
    requires DistinctF(fs) && k < |fs| && CoherentF(fs, file, fs[k].id)
    ensures var gs := fs[k := fs[k].(dirty := true)];
            DistinctF(gs) && CoherentF(gs, file, -1) &&
            ViewMap(gs, file) == ViewMap(fs, file)
  {
    var gs := fs[k := fs[k].(dirty := true)];
    assert IdsF(gs) == IdsF(fs);
  }

  /** A miss keeps the views: the loaded page holds the file's bytes, and the
      evicted page, written back if dirty, reads from the file as it was cached. */
  lemma LoadKeeps(fs: seq<Frame>, f: Frame, file: seq<Byte>, capacity: int)
    requires DistinctF(fs) && WholeF(fs) && CoherentF(fs, file, -1)
    requires f.id !in IdsF(fs) && !f.dirty && PageImage(file, f.id) == Some(f.bytes)
    ensures var gs := fs + [f];
            var file' := if |gs| > capacity then WriteBack(file, gs[0]) else file;
            var hs := Evict(gs, capacity);
            DistinctF(hs) && WholeF(hs) && CoherentF(hs, file', -1) &&
            ViewMap(hs, file') == ViewMap(fs, file)
  {
    AppendKeeps(fs, f, file);
    var gs := fs + [f];
    if |gs| > capacity {
      EvictKeeps(gs, file);
    }
  }

  /** Appending a clean frame that holds the file's bytes keeps every view. */
  lemma AppendKeeps(fs: seq<Frame>, f: Frame, file: seq<Byte>)
    requires DistinctF(fs) && WholeF(fs) && CoherentF(fs, file, -1)
    requires f.id !in IdsF(fs) && !f.dirty && PageImage(file, f.id) == Some(f.bytes)
    ensures DistinctF(fs + [f]) && WholeF(fs + [f]) && CoherentF(fs + [f], file, -1)
    ensures ViewMap(fs + [f], file) == ViewMap(fs, file)
  {
    var gs := fs + [f];
    var n := |gs|;
    forall j
      ensures ViewF(gs, file, j) == ViewF(fs, file, j)
    {
      if j in IdsF(fs) {
        var k := FirstIndex(IdsF(fs), j);
        AtIndex(gs, k, file);
        AtIndex(fs, k, file);
      } else if j == f.id {
        AtIndex(gs, n - 1, file);
      } else {
        assert j !in IdsF(gs);
      }
    }
  }

  /** Dropping the eldest frame after writing it back keeps every view. */
  lemma EvictKeeps(gs: seq<Frame>, file: seq<Byte>)
    requires DistinctF(gs) && WholeF(gs) && CoherentF(gs, file, -1) && |gs| > 0
    ensures var hs := gs[1..];
            var file' := WriteBack(file, gs[0]);
            DistinctF(hs) && WholeF(hs) && CoherentF(hs, file', -1) &&
            ViewMap(hs, file') == ViewMap(gs, file)
  {
    var q := gs[0];
    var file' := WriteBack(file, q);
    var hs := gs[1..];
    WriteBackImages(file, q);
    forall j
      ensures ViewF(hs, file', j) == ViewF(gs, file, j)
    {
      if j == q.id {
        AtIndex(gs, 0, file);
        assert j !in IdsF(hs);
      } else if j in IdsF(gs) {
        var k := FirstIndex(IdsF(gs), j);
        assert hs[k - 1] == gs[k];
        AtIndex(hs, k - 1, file');
        AtIndex(gs, k, file);
      } else {
        assert j !in IdsF(hs);
      }
    }
  }

  /** The recency order of the frames follows Touch: a hit moves the page to
      the end, a miss appends and evicts. */
  lemma TouchHit(fs: seq<Frame>, id: PageId, capacity: int)
    requires id in IdsF(fs)
    ensures IdsF(MoveToEnd(fs, FirstIndex(IdsF(fs), id))) == Touch(IdsF(fs), id, capacity)
  {
    var i := FirstIndex(IdsF(fs), id);
    assert IdsF(MoveToEnd(fs, i)) == MoveToEnd(IdsF(fs), i);
  }

  lemma TouchMiss(fs: seq<Frame>, f: Frame, capacity: int)
    requires f.id !in IdsF(fs)
    ensures IdsF(Evict(fs + [f], capacity)) == Touch(IdsF(fs), f.id, capacity)
  {
    assert IdsF(fs + [f]) == IdsF(fs) + [f.id];
  }

  /** One step of flushAll: writing back entry i and clearing its flag keeps
      the views and the coherence. */
  lemma FlushStep(fs: seq<Frame>, i: nat, file: seq<Byte>)
    requires DistinctF(fs) && WholeF(fs) && CoherentF(fs, file, -1) && i < |fs|
    ensures var gs := fs[i := fs[i].(dirty := false)];
            var file' := WriteBack(file, fs[i]);
            CoherentF(gs, file', -1) && ViewMap(gs, file') == ViewMap(fs, file)
  {
    var gs := fs[i := fs[i].(dirty := false)];
    var file' := WriteBack(file, fs[i]);
    WriteBackImages(file, fs[i]);
    assert IdsF(gs) == IdsF(fs);
    forall j
      ensures ViewF(gs, file', j) == ViewF(fs, file, j)
    {
      if j in IdsF(fs) {
        var k := FirstIndex(IdsF(fs), j);
        AtIndex(fs, k, file);
        AtIndex(gs, k, file');
      }
    }
  }

  /** Appending one more entry to a flush prefix appends its write, if any. */
  lemma DirtyWritesStep(fs: seq<Frame>, i: nat, file: seq<Byte>)
    requires i < |fs|
    ensures ApplyWrites(file, DirtyWrites(fs[..i + 1])) ==
            WriteBack(ApplyWrites(file, DirtyWrites(fs[..i])), fs[i])
  {
    assert fs[..i + 1][..i] == fs[..i];
    var ws := DirtyWrites(fs[..i]);
    if fs[i].dirty {
      var w := PageWrite(fs[i].id, fs[i].bytes);
      assert (ws + [w])[..|ws|] == ws;
    } else {
      assert ws + [] == ws;
    }
  }

  /* ---------- the pool ---------- */

  function IdsOf(ps: seq<Page>): (r: seq<PageId>)
    ensures |r| == |ps| && forall i :: 0 <= i < |ps| ==> r[i] == ps[i].pageId
  {
    seq(|ps|, i requires 0 <= i < |ps| => ps[i].pageId)
  }

  /** Distinct ids, distinct data arrays of PAGE_SIZE bytes, at most capacity
      entries (none when capacity is not positive). */
  ghost predicate PagesOk(ps: seq<Page>, capacity: int)
  {
    && (forall i, j :: 0 <= i < j < |ps| ==> ps[i].pageId != ps[j].pageId)
    && (forall i, j :: 0 <= i < j < |ps| ==> ps[i].data != ps[j].data)
    && (forall i :: 0 <= i < |ps| ==> ps[i].data.Length == PAGE_SIZE)
    && |ps| <= (if capacity < 0 then 0 else capacity)
  }

  ghost function DatasOf(ps: seq<Page>): set<array<Byte>>
  {
    set p | p in ps :: p.data
  }

  ghost function FrameOf(p: Page): Frame
    reads p, p.data
  {
    Frame(p.pageId, p.dirty, p.data[..])
  }

  /** The cache entries ps as values. */
  ghost function Frames(ps: seq<Page>): (fs: seq<Frame>)
    reads ps, DatasOf(ps)
    ensures |fs| == |ps| && IdsF(fs) == IdsOf(ps)
    ensures forall i :: 0 <= i < |ps| ==> fs[i] == FrameOf(ps[i])
  {
    seq(|ps|, i reads ps, DatasOf(ps) requires 0 <= i < |ps| => FrameOf(ps[i]))
  }

  lemma FramesOk(ps: seq<Page>, capacity: int)
    requires PagesOk(ps, capacity)
    ensures DistinctF(Frames(ps)) && WholeF(Frames(ps))
  {
  }

  lemma MoveOk(ps: seq<Page>, i: nat, capacity: int)
    requires PagesOk(ps, capacity) && i < |ps|
    ensures PagesOk(MoveToEnd(ps, i), capacity)
    ensures Frames(MoveToEnd(ps, i)) == MoveToEnd(Frames(ps), i)
    ensures IdsOf(MoveToEnd(ps, i)) == MoveToEnd(IdsOf(ps), i)
  {
    var qs := MoveToEnd(ps, i);
    var n := |ps|;
    assert forall k :: 0 <= k < n ==> qs[k] == ps[if k == n - 1 then i else if k < i then k else k + 1];
  }

  lemma LoadOk(ps: seq<Page>, p: Page, capacity: int)
    requires PagesOk(ps, capacity) && p.pageId !in IdsOf(ps) && p.data !in DatasOf(ps)
    requires p.data.Length == PAGE_SIZE
    ensures PagesOk(Evict(ps + [p], capacity), capacity)
    ensures Frames(Evict(ps + [p], capacity)) == Evict(Frames(ps) + [FrameOf(p)], capacity)
    ensures IdsOf(Evict(ps + [p], capacity)) == Evict(IdsOf(ps) + [p.pageId], capacity)
  {
    AppendOk(ps, p, capacity);
    var qs := ps + [p];
    assert Frames(qs) == Frames(ps) + [FrameOf(p)];
    if |qs| > capacity && |qs| > 0 {
      assert Frames(qs[1..]) == Frames(qs)[1..];
    }
  }

  lemma AppendOk(ps: seq<Page>, p: Page, capacity: int)
    requires PagesOk(ps, capacity) && p.pageId !in IdsOf(ps) && p.data !in DatasOf(ps)
    requires p.data.Length == PAGE_SIZE
    ensures PagesOk(Evict(ps + [p], capacity), capacity)
  {
    assert forall k :: 0 <= k < |ps| ==> ps[k].pageId != p.pageId && ps[k].data != p.data;
  }

  class BufferPool {
    const capacity: int
    const disk: DiskManager
    /** The cache entries in access order, least recently used first. */
    var lru: seq<Page>

    ghost predicate Valid()
      reads this
    {
      PagesOk(lru, capacity)
    }

    constructor (capacity: int, disk: DiskManager)
      ensures Valid() && this.capacity == capacity && this.disk == disk && lru == []
    {
      this.capacity := capacity;
      this.disk := disk;
      lru := [];
    }

    function Ids(): seq<PageId>
      reads this
    {
      IdsOf(lru)
    }

    ghost function Snapshot(): seq<Frame>
      reads this, lru, DatasOf(lru)
    {
      Frames(lru)
    }

    ghost predicate Coherent()
      reads this, lru, DatasOf(lru), disk
    {
      CoherentF(Snapshot(), disk.file, -1)
    }

    /** Coherent, except that page id may differ from the file while clean. */
    ghost predicate CoherentExcept(id: PageId)
      reads this, lru, DatasOf(lru), disk
    {
      CoherentF(Snapshot(), disk.file, id)
    }

    ghost function View(id: PageId): Option<seq<Byte>>
      reads this, lru, DatasOf(lru), disk
    {
      ViewF(Snapshot(), disk.file, id)
    }

    ghost function Views(): imap<PageId, Option<seq<Byte>>>
      reads this, lru, DatasOf(lru), disk
    {
      ViewMap(Snapshot(), disk.file)
    }

    /** getPage: on a hit, the cached Page, moved to most recently used, without
        touching the file; on a miss, a fresh clean Page holding the file's
        bytes, appended as most recently used, after which the eldest entry is
        dropped if the pool holds more than capacity entries, written back first
        if dirty. A miss on a page past the end of the file fails. Through all
        of this a coherent pool stays coherent and no page's view changes. */
    method GetPage(id: PageId) returns (r: Option<Page>)
      requires Valid()
      modifies this, disk
      ensures Valid()
      ensures id in old(Ids()) ==>
                var i := FirstIndex(old(Ids()), id);
                r == Some(old(lru)[i]) &&
                lru == MoveToEnd(old(lru), i) &&
                Snapshot() == MoveToEnd(old(Snapshot()), i) &&
                disk.file == old(disk.file)
      ensures id !in old(Ids()) && PageImage(old(disk.file), id).None? ==>
                r == None && lru == old(lru) && disk.file == old(disk.file)
      ensures id !in old(Ids()) && PageImage(old(disk.file), id).Some? ==>
                var f := Frame(id, false, PageImage(old(disk.file), id).value);
                r.Some? && fresh(r.value) && fresh(r.value.data) &&
                lru == Evict(old(lru) + [r.value], capacity) &&
                Snapshot() == Evict(old(Snapshot()) + [f], capacity) &&
                disk.file == if |old(lru)| + 1 > capacity
                             then WriteBack(old(disk.file), (old(Snapshot()) + [f])[0])
                             else old(disk.file)
      ensures r.Some? ==> r.value.pageId == id && r.value.data.Length == PAGE_SIZE
      ensures id !in old(Ids()) && r.Some? ==> r.value.data[..] == PageImage(old(disk.file), id).value
      ensures disk.nextPageId == old(disk.nextPageId)
      ensures old(Coherent()) ==> Coherent() && Views() == old(Views())
    {
      if id in Ids() {
        var i := FirstIndex(Ids(), id);
        r := Some(lru[i]);
        Hit(i, -1);
        return;
      }
      r := Miss(id);
    }

    /** A fresh clean page holding a copy of img. */
    static method NewPage(id: PageId, img: seq<Byte>) returns (p: Page)
      requires |img| == PAGE_SIZE
      ensures fresh(p) && fresh(p.data) && p.pageId == id && p.data.Length == PAGE_SIZE
      ensures !p.dirty && p.data[..] == img
    {
      p := new Page(id);
      forall k | 0 <= k < PAGE_SIZE {
        p.data[k] := img[k];
      }
      assert p.data[..] == img;
    }

    /** The miss path of getPage: read the page, then load it. */
    method Miss(id: PageId) returns (r: Option<Page>)
      requires Valid() && id !in Ids()
      modifies this, disk
      ensures Valid()
      ensures PageImage(old(disk.file), id).None? ==>
                r == None && lru == old(lru) && disk.file == old(disk.file)
      ensures PageImage(old(disk.file), id).Some? ==>
                var f := Frame(id, false, PageImage(old(disk.file), id).value);
                r.Some? && fresh(r.value) && fresh(r.value.data) &&
                lru == Evict(old(lru) + [r.value], capacity) &&
                Snapshot() == Evict(old(Snapshot()) + [f], capacity) &&
                disk.file == if |old(lru)| + 1 > capacity
                             then WriteBack(old(disk.file), (old(Snapshot()) + [f])[0])
                             else old(disk.file)
      ensures r.Some? ==> r.value.pageId == id && r.value.data.Length == PAGE_SIZE
      ensures id !in old(Ids()) && r.Some? ==> r.value.data[..] == PageImage(old(disk.file), id).value
      ensures disk.nextPageId == old(disk.nextPageId)
      ensures old(Coherent()) ==> Coherent() && Views() == old(Views())
    {
      var img := disk.ReadPage(id);
      if img.None? {
        return None;
      }
      var p := Load(id, img.value);
      r := Some(p);
    }

    /** The hit path: entry i becomes most recently used. */
    method Hit(i: nat, ghost skip: int)
      requires Valid() && i < |lru|
      modifies this
      ensures Valid()
      ensures lru == MoveToEnd(old(lru), i) && Ids() == MoveToEnd(old(Ids()), i)
      ensures Snapshot() == MoveToEnd(old(Snapshot()), i)
      ensures Views() == old(Views())
      ensures old(CoherentF(Snapshot(), disk.file, skip)) ==> CoherentF(Snapshot(), disk.file, skip)
    {
      ghost var snap := Snapshot();
      FramesOk(lru, capacity);
      MoveOk(lru, i, capacity);
      lru := MoveToEnd(lru, i);
      MoveKeeps(snap, i, disk.file, skip);
    }

    /** The miss path: a fresh page holding img becomes most recently used,
        and the eldest entry is evicted if the pool is over capacity. */
    method Load(id: PageId, img: seq<Byte>) returns (p: Page)
      requires Valid() && id !in Ids() && PageImage(disk.file, id) == Some(img)
      modifies this, disk
      ensures Valid()
      ensures fresh(p) && fresh(p.data) && p.pageId == id && p.data.Length == PAGE_SIZE
      ensures p.data[..] == img
      ensures lru == Evict(old(lru) + [p], capacity)
      ensures Ids() == Evict(old(Ids()) + [id], capacity)
      ensures Snapshot() == Evict(old(Snapshot()) + [Frame(id, false, img)], capacity)
      ensures disk.file == if |old(lru)| + 1 > capacity
                           then WriteBack(old(disk.file), (old(Snapshot()) + [Frame(id, false, img)])[0])
                           else old(disk.file)
      ensures disk.nextPageId == old(disk.nextPageId)
      ensures old(Coherent()) ==> Coherent() && Views() == old(Views())
    {
      ghost var snap := Snapshot();
      ghost var was := lru;
      FramesOk(lru, capacity);
      p := NewPage(id, img);
      ghost var f := Frame(id, false, img);
      ghost var file0 := disk.file;
      var full := lru + [p];
      if |full| > capacity {
        var eldest := full[0];
        if eldest.dirty {
          disk.WritePage(eldest.pageId, eldest.data[..]);
        }
        lru := full[1..];
      } else {
        lru := full;
      }
      assert Frames(was) == snap;
      LoadOk(was, p, capacity);
      if old(Coherent()) {
        LoadKeeps(snap, f, file0, capacity);
      }
    }

    /** markDirty: sets the flag of a resident page and, since the lookup is an
        access, makes it most recently used; a page that is not resident is
        left alone. The views never change, and marking the one page a caller
        changed dirty makes the pool coherent again. */
    method MarkDirty(id: PageId, flag: bool)
      requires Valid()
      modifies this, lru
      ensures Valid()
      ensures id in old(Ids()) ==>
                var i := FirstIndex(old(Ids()), id);
                var moved := MoveToEnd(old(Snapshot()), i);
                lru == MoveToEnd(old(lru), i) &&
                Snapshot() == moved[|moved| - 1 := moved[|moved| - 1].(dirty := flag)]
      ensures id !in old(Ids()) ==> lru == old(lru) && Snapshot() == old(Snapshot())
      ensures forall q :: q in lru ==> q in old(lru)
      ensures Views() == old(Views())
      ensures flag && old(CoherentExcept(id)) ==> Coherent()
    {
      if id in Ids() {
        var i := FirstIndex(Ids(), id);
        MoveToEndMembers(lru, i);
        MarkAt(i, flag);
      } else {
        assert CoherentF(Snapshot(), disk.file, id) ==> CoherentF(Snapshot(), disk.file, -1);
      }
    }

    /** markDirty on the resident entry i. */
    method MarkAt(i: nat, flag: bool)
      requires Valid() && i < |lru|
      modifies this, lru
      ensures Valid()
      ensures var moved := MoveToEnd(old(Snapshot()), i);
              lru == MoveToEnd(old(lru), i) &&
              Snapshot() == moved[|moved| - 1 := moved[|moved| - 1].(dirty := flag)]
      ensures Views() == old(Views())
      ensures flag && old(CoherentExcept(lru[i].pageId)) ==> Coherent()
    {
      var p := lru[i];
      ghost var s0, f0 := Snapshot(), disk.file;
      ghost var v0, c0 := Views(), CoherentExcept(p.pageId);
      assert v0 == ViewMap(s0, f0) && c0 == CoherentF(s0, f0, p.pageId);
      Hit(i, p.pageId);
      ghost var s1 := Snapshot();
      assert s1 == MoveToEnd(s0, i) && disk.file == f0;
      assert Views() == v0 && CoherentExcept(p.pageId) == CoherentF(s1, f0, p.pageId);
      SetFlag(p, flag);
    }

    /** Sets the flag of the most recently used entry p. */
    method SetFlag(p: Page, flag: bool)
      requires Valid() && |lru| > 0 && p == lru[|lru| - 1]
      modifies p
      ensures var s := old(Snapshot()); Snapshot() == s[|s| - 1 := s[|s| - 1].(dirty := flag)]
      ensures Views() == old(Views())
      ensures flag && old(CoherentExcept(p.pageId)) ==> Coherent()
    {
      ghost var n := |lru|;
      ghost var snap := Snapshot();
      FramesOk(lru, capacity);
      assert forall k :: 0 <= k < n - 1 ==> lru[k] != p by {
        forall k | 0 <= k < n - 1 ensures lru[k] != p {
          assert lru[k].pageId != lru[n - 1].pageId;
        }
      }
      p.dirty := flag;
      assert Snapshot() == snap[n - 1 := snap[n - 1].(dirty := flag)];
      FlagKeepsViews(snap, n - 1, flag, disk.file);
      if flag && old(CoherentExcept(p.pageId)) {
        SetDirtyKeeps(snap, n - 1, disk.file);
      }
    }

    /** flushAll: writes every dirty cached page to the file, in recency
        order, and clears its flag; the order, the bytes of the pages and the
        clean pages are untouched. A coherent pool ends with every cached page
        equal to its file image. */
    method FlushAll()
      requires Valid()
      modifies disk, lru
      ensures lru == old(lru)
      ensures Snapshot() == CleanFirst(old(Snapshot()), |lru|)
      ensures disk.file == ApplyWrites(old(disk.file), DirtyWrites(old(Snapshot())))
      ensures disk.nextPageId == old(disk.nextPageId)
      ensures old(Coherent()) ==> Coherent() && Views() == old(Views())
    {
      ghost var snap, file0 := Snapshot(), disk.file;
      ghost var v0, c0 := Views(), Coherent();
      assert v0 == ViewMap(snap, file0) && c0 == CoherentF(snap, file0, -1);
      FramesOk(lru, capacity);
      var i := 0;
      while i < |lru|
        invariant 0 <= i <= |lru|
        invariant disk.nextPageId == old(disk.nextPageId)
        invariant Snapshot() == CleanFirst(snap, i)
        invariant disk.file == ApplyWrites(file0, DirtyWrites(snap[..i]))
        invariant c0 ==>
                    (CoherentF(CleanFirst(snap, i), disk.file, -1) &&
                     ViewMap(CleanFirst(snap, i), disk.file) == ViewMap(snap, file0))
      {
        FlushOne(i, snap, file0, c0);
        i := i + 1;
      }
      assert snap[..|lru|] == snap;
      assert Coherent() == CoherentF(Snapshot(), disk.file, -1) && Views() == ViewMap(Snapshot(), disk.file);
    }

    /** One iteration of flushAll: entry i is written back if dirty and its flag cleared. */
    method FlushOne(i: nat, ghost snap: seq<Frame>, ghost file0: seq<Byte>, ghost coherent: bool)
      requires Valid() && i < |lru| && |snap| == |lru|
      requires DistinctF(snap) && WholeF(snap)
      requires Snapshot() == CleanFirst(snap, i)
      requires disk.file == ApplyWrites(file0, DirtyWrites(snap[..i]))
      requires coherent ==>
                 (CoherentF(CleanFirst(snap, i), disk.file, -1) &&
                  ViewMap(CleanFirst(snap, i), disk.file) == ViewMap(snap, file0))
      modifies disk, lru[i]
      ensures disk.nextPageId == old(disk.nextPageId)
      ensures Snapshot() == CleanFirst(snap, i + 1)
      ensures disk.file == ApplyWrites(file0, DirtyWrites(snap[..i + 1]))
      ensures coherent ==>
                (CoherentF(CleanFirst(snap, i + 1), disk.file, -1) &&
                 ViewMap(CleanFirst(snap, i + 1), disk.file) == ViewMap(snap, file0))
    {
      ghost var cur := CleanFirst(snap, i);
      ghost var before := disk.file;
      assert cur[i] == snap[i];
      WriteBackEntry(i);
      DirtyWritesStep(snap, i, file0);
      assert cur[i := cur[i].(dirty := false)] == CleanFirst(snap, i + 1);
      if coherent {
        assert DistinctF(cur) && WholeF(cur);
        FlushStep(cur, i, before);
      }
    }

    /** The body of flushAll's loop: write entry i back if dirty and clear its flag. */
    method WriteBackEntry(i: nat)
      requires Valid() && i < |lru|
      modifies disk, lru[i]
      ensures var s := old(Snapshot()); Snapshot() == s[i := s[i].(dirty := false)]
      ensures disk.file == WriteBack(old(disk.file), old(Snapshot())[i])
      ensures disk.nextPageId == old(disk.nextPageId)
    {
      var p := lru[i];
      ghost var cur := Snapshot();
      if p.dirty {
        disk.WritePage(p.pageId, p.data[..]);
        ClearFlag(p, i);
      } else {
        assert cur[i] == cur[i].(dirty := false);
      }
    }

    /** Clears the flag of entry i. */
    method ClearFlag(p: Page, i: nat)
      requires Valid() && i < |lru| && p == lru[i]
      modifies p
      ensures var s := old(Snapshot()); Snapshot() == s[i := s[i].(dirty := false)]
    {
      assert forall k :: 0 <= k < |lru| && k != i ==> lru[k] != p by {
        forall k | 0 <= k < |lru| && k != i ensures lru[k] != p {
          if k < i { assert lru[k].pageId != lru[i].pageId; }
          else { assert lru[i].pageId != lru[k].pageId; }
        }
      }
      p.dirty := false;
    }
  }
}
