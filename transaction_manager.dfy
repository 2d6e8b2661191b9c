/** Transactions over the buffer pool: begin, the write-ahead logging of page
    updates, SAFE and FAST commit, and rollback from the before-images. */
module Transactions {
  import opened Bytes
  import opened Wrappers
  import opened Disk
  import opened Buffer
  import opened Wal

  /** What rollback needs to undo one update: the page and its before-image. */
  datatype UndoEntry = UndoEntry(pageId: PageId, before: seq<Byte>)

  /** The bytes a reader sees for every page. */
  type PageViews = imap<PageId, Option<seq<Byte>>>

  /** Every before-image is a whole page. */
  ghost predicate WholeUndo(es: seq<UndoEntry>)
  {
    forall i :: 0 <= i < |es| ==> |es[i].before| == PAGE_SIZE
  }

  /** The views after rollback restored the entries es, the newest first and
      the oldest last. */
  ghost function Restored(v: PageViews, es: seq<UndoEntry>): PageViews
  {
    if es == [] then v else Restored(v, es[1..])[es[0].pageId := Some(es[0].before)]
  }

  /** After a rollback, a page the transaction updated holds the before-image of
      the transaction's first update to it, and every other page is as it was. */
  lemma {:induction false} RestoredPage(v: PageViews, es: seq<UndoEntry>, j: PageId)
    requires j in v
    ensures j in Restored(v, es)
    ensures (forall i :: 0 <= i < |es| ==> es[i].pageId != j) ==> Restored(v, es)[j] == v[j]
    ensures forall i :: 0 <= i < |es| && es[i].pageId == j && (forall k :: 0 <= k < i ==> es[k].pageId != j) ==>
              Restored(v, es)[j] == Some(es[i].before)
  {
    if es != [] {
      RestoredPage(v, es[1..], j);
      forall i | 0 <= i < |es| && es[i].pageId == j && (forall k :: 0 <= k < i ==> es[k].pageId != j)
        ensures Restored(v, es)[j] == Some(es[i].before)
      {
        if i > 0 {
          assert es[1..][i - 1] == es[i];
          assert forall k :: 0 <= k < i - 1 ==> es[1..][k] == es[k + 1];
        }
      }
      if forall i :: 0 <= i < |es| ==> es[i].pageId != j {
        assert forall i :: 0 <= i < |es| - 1 ==> es[1..][i] == es[i + 1];
      }
    }
  }

  /** A page that can be read before a rollback can be read after it. */
  lemma {:induction false} RestoredKeepsSome(v: PageViews, es: seq<UndoEntry>, j: PageId)
    requires j in v && v[j].Some?
    ensures j in Restored(v, es) && Restored(v, es)[j].Some?
  {
    if es != [] {
      RestoredKeepsSome(v, es[1..], j);
    }
  }

  /* ---------- what one restore step does to the cache, as values ---------- */

  /** Copying a before-image into the most recently used entry changes that
      page's view and leaves the entry out of step with the file until it is
      marked dirty. */
  lemma OverwriteLast(fs: seq<Frame>, file: seq<Byte>, before: seq<Byte>)
    requires DistinctF(fs) && WholeF(fs) && CoherentF(fs, file, -1)
    requires |fs| > 0 && |before| == PAGE_SIZE
    ensures var k := |fs| - 1;
            var gs := fs[k := fs[k].(bytes := before)];
            DistinctF(gs) && WholeF(gs) && CoherentF(gs, file, fs[k].id) &&
            ViewMap(gs, file) == ViewMap(fs, file)[fs[k].id := Some(before)]
  {
    var k := |fs| - 1;
    var gs := fs[k := fs[k].(bytes := before)];
    assert IdsF(gs) == IdsF(fs);
    forall j: PageId
      ensures ViewF(gs, file, j) == ViewMap(fs, file)[fs[k].id := Some(before)][j]
    {
      if j in IdsF(fs) {
        var m := FirstIndex(IdsF(fs), j);
        AtIndex(fs, m, file);
        AtIndex(gs, m, file);
      }
    }
  }

  /** disk.writePage(id, before) when the cached copy of id, if any, already
      holds before: every view but id's is kept, and the cache stays coherent. */
  lemma DiskWriteKeeps(fs: seq<Frame>, file: seq<Byte>, id: PageId, before: seq<Byte>)
    requires DistinctF(fs) && CoherentF(fs, file, -1)
    requires PageImage(file, id).Some? && |before| == PAGE_SIZE
    requires forall i :: 0 <= i < |fs| && fs[i].id == id ==> fs[i].bytes == before
    ensures var file' := WriteAt(file, id * PAGE_SIZE, before);
            CoherentF(fs, file', -1) && ViewMap(fs, file') == ViewMap(fs, file)[id := Some(before)]
  {
    var file' := WriteAt(file, id * PAGE_SIZE, before);
    ReadAfterWrite(file, id, before);
    forall j: PageId | j != id
      ensures PageImage(file', j) == PageImage(file, j)
    {
      WriteKeepsOtherPages(file, id, before, j);
    }
    forall j: PageId
      ensures ViewF(fs, file', j) == ViewMap(fs, file)[id := Some(before)][j]
    {
      if j in IdsF(fs) {
        AtIndex(fs, FirstIndex(IdsF(fs), j), file);
      }
    }
  }

  /** The file holds what every reader through the cache sees. */
  ghost predicate Persisted(fs: seq<Frame>, file: seq<Byte>)
  {
    forall j: PageId :: PageImage(file, j) == ViewF(fs, file, j)
  }

  /** In a coherent cache with no dirty entry, the file holds what every reader sees. */
  lemma CleanViews(fs: seq<Frame>, file: seq<Byte>)
    requires DistinctF(fs) && CoherentF(fs, file, -1)
    requires forall i :: 0 <= i < |fs| ==> !fs[i].dirty
    ensures Persisted(fs, file)
  {
    forall j: PageId
      ensures ViewF(fs, file, j) == PageImage(file, j)
    {
      if j in IdsF(fs) {
        AtIndex(fs, FirstIndex(IdsF(fs), j), file);
      }
    }
  }

  /** A resident page whose view is before holds before in its one cache
      entry, and exists in a file the cache is coherent with. */
  lemma ResidentHolds(fs: seq<Frame>, file: seq<Byte>, id: PageId, before: seq<Byte>)
    requires DistinctF(fs) && CoherentF(fs, file, -1) && id in IdsF(fs)
    requires ViewF(fs, file, id) == Some(before)
    ensures PageImage(file, id).Some?
    ensures forall i :: 0 <= i < |fs| && fs[i].id == id ==> fs[i].bytes == before
  {
    forall i | 0 <= i < |fs| && fs[i].id == id
      ensures fs[i].bytes == before
    {
      AtIndex(fs, i, file);
    }
    var k := FirstIndex(IdsF(fs), id);
  }

  /** After the copy and markDirty of a restore step: every cached copy of the
      page holds before, the page exists in the file, and once the file also
      holds before every reader sees what the step promised. */
  lemma ReadyToWrite(s1: seq<Frame>, s3: seq<Frame>, file: seq<Byte>, id: PageId, before: seq<Byte>)
    requires DistinctF(s3) && CoherentF(s1, file, -1) && CoherentF(s3, file, -1)
    requires ViewF(s1, file, id).Some?
    requires s1 == [] ==> s3 == []
    requires s1 != [] ==> id in IdsF(s3) && ViewMap(s3, file) == ViewMap(s1, file)[id := Some(before)]
    ensures PageImage(file, id).Some?
    ensures forall i :: 0 <= i < |s3| && s3[i].id == id ==> s3[i].bytes == before
    ensures ViewMap(s3, file)[id := Some(before)] == ViewMap(s1, file)[id := Some(before)]
  {
    if s1 != [] {
      assert ViewF(s3, file, id) == ViewMap(s3, file)[id];
      ResidentHolds(s3, file, id, before);
      assert ViewMap(s1, file)[id := Some(before)][id := Some(before)] == ViewMap(s1, file)[id := Some(before)];
    } else {
      assert ViewMap(s3, file) == ViewMap(s1, file);
    }
  }

  lemma MoveMembers<T>(s: seq<T>, i: nat)
    requires i < |s|
    ensures forall x :: x in MoveToEnd(s, i) ==> x in s
  {
    var r := MoveToEnd(s, i);
    forall x | x in r ensures x in s {
      var k :| 0 <= k < |r| && r[k] == x;
    }
  }

  lemma EvictMembers<T>(s: seq<T>, capacity: int)
    ensures forall x :: x in Evict(s, capacity) ==> x in s
  {
  }

  class TransactionManager {
    const wal: WALManager
    const pool: BufferPool
    const disk: DiskManager
    /** The id the next begin hands out (a Java long). */
    var nextTxId: Int64
    /** The before-images of each open transaction, oldest first. */
    var updates: map<Int64, seq<UndoEntry>>

    ghost predicate Valid()
      reads this
    {
      && pool.disk == disk
      && forall t :: t in updates ==> WholeUndo(updates[t])
    }

    /** Ids start at 1 and no transaction is open. The pool works over disk. */
    constructor (wal: WALManager, pool: BufferPool, disk: DiskManager)
      requires pool.disk == disk
      ensures Valid()
      ensures this.wal == wal && this.pool == pool && this.disk == disk
      ensures nextTxId == 1 && updates == map[]
    {
      this.wal := wal;
      this.pool := pool;
      this.disk := disk;
      nextTxId := 1;
      updates := map[];
    }

    /** Hands out the next id, logs BEGIN (not synced) and opens an empty undo list. */
    method Begin() returns (id: Int64)
      requires Valid() && pool.Valid()
      modifies this, wal
      ensures Valid() && pool.Valid()
      ensures id == old(nextTxId) && nextTxId == Wrap64(old(nextTxId) + 1)
      ensures wal.log == old(wal.log) + Encode(Record.Begin(id)) && wal.durable == old(wal.durable)
      ensures updates == old(updates)[id := []]
    {
      id := nextTxId;
      nextTxId := Wrap64(nextTxId + 1);
      wal.LogBegin(id);
      updates := updates[id := []];
    }

    /** Called after the caller changed page pageId in the pool: logs the UPDATE,
        syncs the log before anything else (the write-ahead rule), marks the page
        dirty and remembers the before-image. For a transaction that is not
        open the Java code throws after the first three steps; ok is false then. */
    method RecordPageUpdate(tx: Int64, pageId: PageId, before: seq<Byte>, after: seq<Byte>)
      returns (ok: bool)
      requires Valid() && pool.Valid() && Encodable(Update(tx, pageId, before, after)) && |before| == PAGE_SIZE
      modifies this, wal, pool, pool.lru
      ensures Valid() && pool.Valid() && forall q :: q in pool.lru ==> q in old(pool.lru)
      ensures wal.log == old(wal.log) + Encode(Update(tx, pageId, before, after))
      ensures wal.durable == |wal.log|
      ensures pool.Views() == old(pool.Views())
      ensures old(pool.CoherentExcept(pageId)) ==> pool.Coherent()
      ensures ok == (tx in old(updates))
      ensures updates == if ok then old(updates)[tx := old(updates)[tx] + [UndoEntry(pageId, before)]]
                         else old(updates)
      ensures nextTxId == old(nextTxId)
    {
      ghost var s0, f0 := pool.Snapshot(), disk.file;
      ghost var v0, c0 := pool.Views(), pool.CoherentExcept(pageId);
      assert v0 == ViewMap(s0, f0) && c0 == CoherentF(s0, f0, pageId);
      ok := LogAndRemember(tx, pageId, before, after);
      MarkUpdated(pageId, s0, f0);
    }

    /** The pool half of recordPageUpdate: markDirty(pageId, true). */
    method MarkUpdated(pageId: PageId, ghost s0: seq<Frame>, ghost f0: seq<Byte>)
      requires Valid() && pool.Valid() && pool.Snapshot() == s0 && disk.file == f0
      modifies pool, pool.lru
      ensures pool.Valid() && forall q :: q in pool.lru ==> q in old(pool.lru)
      ensures pool.Views() == ViewMap(s0, f0)
      ensures CoherentF(s0, f0, pageId) ==> pool.Coherent()
    {
      assert pool.Views() == ViewMap(s0, f0) && pool.CoherentExcept(pageId) == CoherentF(s0, f0, pageId);
      pool.MarkDirty(pageId, true);
    }

    /** The log and undo-list half of recordPageUpdate. The undo list is
        extended before the log is written; the two touch different state,
        so the order is not observable. */
    method LogAndRemember(tx: Int64, pageId: PageId, before: seq<Byte>, after: seq<Byte>)
      returns (ok: bool)
      requires Valid() && Encodable(Update(tx, pageId, before, after)) && |before| == PAGE_SIZE
      modifies this, wal
      ensures Valid()
      ensures wal.log == old(wal.log) + Encode(Update(tx, pageId, before, after))
      ensures wal.durable == |wal.log|
      ensures ok == (tx in old(updates))
      ensures updates == if ok then old(updates)[tx := old(updates)[tx] + [UndoEntry(pageId, before)]]
                         else old(updates)
      ensures nextTxId == old(nextTxId)
    {
      ok := tx in updates;
      if ok {
        Remember(tx, UndoEntry(pageId, before));
      }
      wal.LogUpdate(tx, pageId, before, after);
      wal.Flush();
    }

    /** Appends e to the undo list of the open transaction tx. */
    method Remember(tx: Int64, e: UndoEntry)
      requires tx in updates
      modifies this
      ensures updates == old(updates)[tx := old(updates)[tx] + [e]]
      ensures nextTxId == old(nextTxId)
    {
      updates := updates[tx := updates[tx] + [e]];
    }

    /** commit(tx): the SAFE flavour. */
    method Commit(tx: Int64)
      requires Valid() && pool.Valid()
      modifies this, wal, disk, pool.lru
      ensures Valid() && pool.Valid()
      ensures wal.log == old(wal.log) + Encode(Record.Commit(tx)) && wal.durable == |wal.log|
      ensures disk.file == ApplyWrites(old(disk.file), DirtyWrites(old(pool.Snapshot())))
      ensures old(pool.Coherent()) ==>
                pool.Coherent() && pool.Views() == old(pool.Views()) &&
                Persisted(pool.Snapshot(), disk.file)
      ensures updates == old(updates) - {tx} && nextTxId == old(nextTxId)
    {
      CommitWithMode(tx, false);
    }

    /** Logs COMMIT. SAFE (fast false) then syncs the log, so the commit survives
        a crash, and writes every dirty page back; FAST returns at once, leaving
        both to the background hardener. Either way the undo list is dropped. */
    method CommitWithMode(tx: Int64, fast: bool)
      requires Valid() && pool.Valid()
      modifies this, wal, disk, pool.lru
      ensures Valid() && pool.Valid()
      ensures wal.log == old(wal.log) + Encode(Record.Commit(tx))
      ensures !fast ==>
                wal.durable == |wal.log| &&
                disk.file == ApplyWrites(old(disk.file), DirtyWrites(old(pool.Snapshot()))) &&
                (old(pool.Coherent()) ==>
                   pool.Coherent() && pool.Views() == old(pool.Views()) &&
                   Persisted(pool.Snapshot(), disk.file))
      ensures fast ==>
                wal.durable == old(wal.durable) && disk.file == old(disk.file) &&
                pool.Snapshot() == old(pool.Snapshot())
      ensures updates == old(updates) - {tx} && nextTxId == old(nextTxId)
    {
      ghost var s0, f0 := pool.Snapshot(), disk.file;
      ghost var v0, c0 := pool.Views(), pool.Coherent();
      assert v0 == ViewMap(s0, f0) && c0 == CoherentF(s0, f0, -1);
      LogAndForget(tx, !fast);
      if !fast {
        FlushPool(s0, f0);
      }
    }

    /** The log and undo-list half of commit: COMMIT is logged, and synced
        when sync holds; the undo list is dropped. In the Java code the list is
        dropped after the pages are flushed; the two touch different state, so
        the order is not observable. */
    method LogAndForget(tx: Int64, sync: bool)
      requires Valid()
      modifies this, wal
      ensures Valid()
      ensures wal.log == old(wal.log) + Encode(Record.Commit(tx))
      ensures wal.durable == if sync then |wal.log| else old(wal.durable)
      ensures updates == old(updates) - {tx} && nextTxId == old(nextTxId)
    {
      wal.LogCommit(tx);
      if sync {
        wal.Flush();
      }
      updates := updates - {tx};
    }

    /** pool.flushAll(), with what it means for the readers of a coherent pool:
        nothing they see changes, and the file now holds all of it. The pool
        holds s0 over the file f0 on entry. */
    method FlushPool(ghost s0: seq<Frame>, ghost f0: seq<Byte>)
      requires Valid() && pool.Valid() && pool.Snapshot() == s0 && disk.file == f0
      modifies disk, pool.lru
      ensures pool.Valid()
      ensures pool.lru == old(pool.lru)
      ensures disk.file == ApplyWrites(f0, DirtyWrites(s0))
      ensures CoherentF(s0, f0, -1) ==>
                pool.Coherent() && pool.Views() == ViewMap(s0, f0) &&
                Persisted(pool.Snapshot(), disk.file)
    {
      assert pool.Coherent() == CoherentF(s0, f0, -1) && pool.Views() == ViewMap(s0, f0);
      pool.FlushAll();
      if CoherentF(s0, f0, -1) {
        FramesOk(pool.lru, pool.capacity);
        CleanViews(pool.Snapshot(), disk.file);
      }
    }

    /** Logs ABORT (not synced). For an open transaction, puts every before-image
        back, the newest first, into the cached page (marked dirty) and into the
        file, then writes back all dirty pages and drops the undo list. ok is
        false where getPage throws: the page is neither cached nor in the file. */
    method Rollback(tx: Int64) returns (ok: bool)
      requires Valid() && pool.Valid()
      modifies this, wal, pool, disk, pool.lru, DatasOf(pool.lru)
      ensures Valid() && pool.Valid()
      ensures wal.log == old(wal.log) + Encode(Abort(tx)) && wal.durable == old(wal.durable)
      ensures tx !in old(updates) ==>
                ok && updates == old(updates) && disk.file == old(disk.file) && pool.lru == old(pool.lru)
      ensures ok ==> updates == old(updates) - {tx}
      ensures tx in old(updates) && old(pool.Coherent()) ==>
                pool.Coherent() &&
                ((forall i :: 0 <= i < |old(updates[tx])| ==> old(pool.Views())[old(updates[tx])[i].pageId].Some?) ==> ok) &&
                (ok ==> pool.Views() == Restored(old(pool.Views()), old(updates[tx])) &&
                        Persisted(pool.Snapshot(), disk.file))
      ensures nextTxId == old(nextTxId)
    {
      ghost var s0, f0 := pool.Snapshot(), disk.file;
      ghost var v0, c0 := pool.Views(), pool.Coherent();
      assert v0 == ViewMap(s0, f0) && c0 == CoherentF(s0, f0, -1);
      ghost var lru0 := pool.lru;
      wal.LogAbort(tx);
      assert pool.lru == lru0 && pool.Snapshot() == s0 && disk.file == f0;
      if tx !in updates {
        return true;
      }
      var list := updates[tx];
      ok := RestoreAll(list, s0, f0);
      if ok {
        ghost var s, f := pool.Snapshot(), disk.file;
        assert pool.Coherent() == CoherentF(s, f, -1) && pool.Views() == ViewMap(s, f);
        Forget(tx);
        assert pool.Snapshot() == s && disk.file == f;
      }
    }

    /** The loop of rollback: restores the entries of list, the last first,
        and then writes back all dirty pages. */
    method RestoreAll(list: seq<UndoEntry>, ghost s0: seq<Frame>, ghost f0: seq<Byte>) returns (ok: bool)
      requires Valid() && pool.Valid() && WholeUndo(list) && pool.Snapshot() == s0 && disk.file == f0
      modifies pool, disk, pool.lru, DatasOf(pool.lru)
      ensures pool.Valid()
      ensures CoherentF(s0, f0, -1) ==>
                pool.Coherent() &&
                ((forall i :: 0 <= i < |list| ==> ViewMap(s0, f0)[list[i].pageId].Some?) ==> ok) &&
                (ok ==> pool.Views() == Restored(ViewMap(s0, f0), list) &&
                        Persisted(pool.Snapshot(), disk.file))
    {
      ghost var v0 := ViewMap(s0, f0);
      ghost var coherent := CoherentF(s0, f0, -1);
      ghost var visible := forall i :: 0 <= i < |list| ==> v0[list[i].pageId].Some?;
      var i := |list|;
      while i > 0
        invariant 0 <= i <= |list|
        invariant Valid() && pool.Valid()
        invariant forall p :: p in pool.lru ==> p in old(pool.lru) || (fresh(p) && fresh(p.data))
        invariant i == |list| ==> pool.Snapshot() == s0 && disk.file == f0
        invariant coherent ==> pool.Coherent() && pool.Views() == Restored(v0, list[i..])
        decreases i
      {
        var e := list[i - 1];
        assert list[i - 1..][1..] == list[i..];
        ghost var s, f := pool.Snapshot(), disk.file;
        assert pool.Coherent() == CoherentF(s, f, -1) && pool.Views() == ViewMap(s, f);
        var restored := RestorePage(e, s, f);
        if !restored {
          if coherent && visible {
            RestoredKeepsSome(v0, list[i..], e.pageId);
            assert false;
          }
          return false;
        }
        i := i - 1;
      }
      ghost var s, f := pool.Snapshot(), disk.file;
      assert pool.Coherent() == CoherentF(s, f, -1) && pool.Views() == ViewMap(s, f);
      FlushPool(s, f);
      ok := true;
    }

    /** Drops the undo list of tx. */
    method Forget(tx: Int64)
      requires Valid()
      modifies this
      ensures Valid() && updates == old(updates) - {tx} && nextTxId == old(nextTxId)
    {
      updates := updates - {tx};
    }

    /** One step of rollback: getPage, copy the before-image into the page,
        markDirty(true) and writePage. The pool holds s0 over the file f0 on
        entry; ok is false where getPage throws. */
    method RestorePage(e: UndoEntry, ghost s0: seq<Frame>, ghost f0: seq<Byte>) returns (ok: bool)
      requires Valid() && pool.Valid() && |e.before| == PAGE_SIZE && pool.Snapshot() == s0 && disk.file == f0
      modifies pool, disk, pool.lru, DatasOf(pool.lru)
      ensures pool.Valid()
      ensures forall p :: p in pool.lru ==> p in old(pool.lru) || (fresh(p) && fresh(p.data))
      ensures ok <==> ViewF(s0, f0, e.pageId).Some?
      ensures CoherentF(s0, f0, -1) ==>
                pool.Coherent() &&
                pool.Views() == if ok then ViewMap(s0, f0)[e.pageId := Some(e.before)] else ViewMap(s0, f0)
    {
      var r := Fetch(e.pageId, s0, f0);
      if r == None {
        return false;
      }
      var p := r.value;
      ghost var s1, f1 := pool.Snapshot(), disk.file;
      assert pool.Coherent() == CoherentF(s1, f1, -1) && pool.Views() == ViewMap(s1, f1);
      if CoherentF(s0, f0, -1) {
        assert ViewF(s1, f1, e.pageId) == ViewMap(s1, f1)[e.pageId] == ViewMap(s0, f0)[e.pageId];
      }
      ok := true;
      Overwrite(p, e, s1, f1);
    }

    /** pool.getPage(id) as rollback uses it: the page it returns is the most
        recently used entry, or a page a pool of capacity zero did not keep. */
    method Fetch(id: PageId, ghost s0: seq<Frame>, ghost f0: seq<Byte>) returns (r: Option<Page>)
      requires Valid() && pool.Valid() && pool.Snapshot() == s0 && disk.file == f0
      modifies pool, disk
      ensures pool.Valid()
      ensures forall p :: p in pool.lru ==> p in old(pool.lru) || (fresh(p) && fresh(p.data))
      ensures r.None? <==> ViewF(s0, f0, id).None?
      ensures r.Some? ==>
                r.value.pageId == id && r.value.data.Length == PAGE_SIZE &&
                (pool.lru == [] || pool.lru[|pool.lru| - 1] == r.value) &&
                (r.value.data in old(DatasOf(pool.lru)) || fresh(r.value.data))
      ensures CoherentF(s0, f0, -1) ==> pool.Coherent() && pool.Views() == ViewMap(s0, f0)
    {
      FramesOk(pool.lru, pool.capacity);
      ghost var lru0 := pool.lru;
      assert pool.Coherent() == CoherentF(s0, f0, -1) && pool.Views() == ViewMap(s0, f0);
      r := pool.GetPage(id);
      if id in IdsF(s0) {
        MoveMembers(lru0, FirstIndex(IdsF(s0), id));
      } else if r.Some? {
        EvictMembers(lru0 + [r.value], pool.capacity);
      }
    }

    /** The rest of a restore step, once getPage returned p: p is the most
        recently used entry, or the pool (of capacity zero) keeps no entry at
        all. The pool holds s1 over the file f1 on entry. */
    method Overwrite(p: Page, e: UndoEntry, ghost s1: seq<Frame>, ghost f1: seq<Byte>)
      requires Valid() && pool.Valid() && |e.before| == PAGE_SIZE && pool.Snapshot() == s1 && disk.file == f1
      requires pool.lru == [] || pool.lru[|pool.lru| - 1] == p
      requires p.pageId == e.pageId && p.data.Length == PAGE_SIZE
      modifies pool, disk, pool.lru, p.data
      ensures pool.Valid()
      ensures forall q :: q in pool.lru ==> q in old(pool.lru)
      ensures CoherentF(s1, f1, -1) && ViewF(s1, f1, e.pageId).Some? ==>
                pool.Coherent() && pool.Views() == ViewMap(s1, f1)[e.pageId := Some(e.before)]
    {
      CopyAndMark(p, e, s1, f1);
      ghost var s3, f3 := pool.Snapshot(), disk.file;
      assert pool.Coherent() == CoherentF(s3, f3, -1) && pool.Views() == ViewMap(s3, f3);
      if CoherentF(s1, f1, -1) && ViewF(s1, f1, e.pageId).Some? {
        FramesOk(pool.lru, pool.capacity);
        ReadyToWrite(s1, s3, f1, e.pageId, e.before);
      }
      WriteThrough(e, s3, f3);
    }

    /** System.arraycopy into p, then markDirty(true). */
    method CopyAndMark(p: Page, e: UndoEntry, ghost s1: seq<Frame>, ghost f1: seq<Byte>)
      requires Valid() && pool.Valid() && |e.before| == PAGE_SIZE && pool.Snapshot() == s1 && disk.file == f1
      requires pool.lru == [] || pool.lru[|pool.lru| - 1] == p
      requires p.pageId == e.pageId && p.data.Length == PAGE_SIZE
      modifies pool, pool.lru, p.data
      ensures pool.Valid()
      ensures forall q :: q in pool.lru ==> q in old(pool.lru)
      ensures s1 == [] ==> pool.Snapshot() == []
      ensures s1 != [] ==> e.pageId in IdsF(pool.Snapshot())
      ensures CoherentF(s1, f1, -1) ==>
                pool.Coherent() &&
                pool.Views() == if s1 == [] then ViewMap(s1, f1) else ViewMap(s1, f1)[e.pageId := Some(e.before)]
    {
      FramesOk(pool.lru, pool.capacity);
      CopyBefore(p, e.before);
      ghost var s2 := pool.Snapshot();
      if CoherentF(s1, f1, -1) && s1 != [] {
        OverwriteLast(s1, f1, e.before);
      }
      assert pool.CoherentExcept(e.pageId) == CoherentF(s2, f1, e.pageId);
      assert pool.Views() == ViewMap(s2, f1);
      ghost var lru2 := pool.lru;
      if lru2 != [] {
        assert e.pageId in IdsOf(lru2);
      }
      pool.MarkDirty(e.pageId, true);
      if lru2 != [] {
        MoveMembers(lru2, FirstIndex(IdsOf(lru2), e.pageId));
      }
    }

    /** disk.writePage(id, before), where every cached copy of id already holds
        before: page id reads as before, every other page as it did. The pool
        holds s3 over the file f3 on entry. */
    method WriteThrough(e: UndoEntry, ghost s3: seq<Frame>, ghost f3: seq<Byte>)
      requires Valid() && pool.Valid() && |e.before| == PAGE_SIZE && pool.Snapshot() == s3 && disk.file == f3
      modifies disk
      ensures CoherentF(s3, f3, -1) && PageImage(f3, e.pageId).Some? &&
              (forall i :: 0 <= i < |s3| && s3[i].id == e.pageId ==> s3[i].bytes == e.before) ==>
                pool.Coherent() && pool.Views() == ViewMap(s3, f3)[e.pageId := Some(e.before)]
    {
      disk.WritePage(e.pageId, e.before);
      assert pool.Snapshot() == s3;
      if CoherentF(s3, f3, -1) && PageImage(f3, e.pageId).Some? &&
         forall i :: 0 <= i < |s3| && s3[i].id == e.pageId ==> s3[i].bytes == e.before
      {
        FramesOk(pool.lru, pool.capacity);
        DiskWriteKeeps(s3, f3, e.pageId, e.before);
      }
    }

    /** System.arraycopy of a whole before-image into p, the most recently used
        entry, or a page the pool (of capacity zero) did not keep. */
    method CopyBefore(p: Page, before: seq<Byte>)
      requires pool.Valid() && |before| == PAGE_SIZE && p.data.Length == PAGE_SIZE
      requires pool.lru == [] || pool.lru[|pool.lru| - 1] == p
      modifies p.data
      ensures p.data[..] == before
      ensures var s := old(pool.Snapshot());
              pool.Snapshot() == if s == [] then s else s[|s| - 1 := s[|s| - 1].(bytes := before)]
    {
      var n := |pool.lru|;
      ghost var snap := pool.Snapshot();
      forall k | 0 <= k < n - 1 ensures pool.lru[k].data != p.data {
        assert pool.lru[k] != p;
      }
      forall k | 0 <= k < PAGE_SIZE {
        p.data[k] := before[k];
      }
      assert p.data[..] == before;
      assert forall k :: 0 <= k < n - 1 ==> FrameOf(pool.lru[k]) == snap[k];
      if n > 0 {
        assert FrameOf(p) == snap[n - 1].(bytes := before);
      }
    }
  }

  /** The durability commitPersistsAfterRecovery relies on. commit(tx) on
      the SAFE path appends COMMIT tx and makes the whole log durable
      (CommitWithMode's ensures); when the log now holds the records rs,
      recovering its durable part over whatever the page file holds, with the
      pool lost, gives each page tx updated the after-image of tx's last
      update to it, unless a later update of a committed transaction wrote
      the page too. */
  lemma SafeCommitSurvives(wal: WALManager, rs: seq<Record>, k: nat, file: seq<Byte>)
    requires AllEncodable(rs) && PagesNonNegative(rs) && WholeAfters(rs)
    requires wal.log == EncodeAll(rs) && wal.durable == |wal.log|
    requires k < |rs| && rs[k].Update? && rs[k].pageId >= 0 && rs[|rs| - 1] == Record.Commit(rs[k].tx)
    requires forall i :: k < i < |rs| && rs[i].Update? && rs[i].tx in CommittedOf(rs) ==> rs[i].pageId != rs[k].pageId
    ensures RecoverOk(wal.log[..wal.durable])
    ensures PageImage(Recovered(wal.log[..wal.durable], file), rs[k].pageId) == Some(rs[k].after)
  {
    CommittedOfLast(rs);
    assert wal.log[..wal.durable] == wal.log;
    CommittedSurvives(rs, k, file);
  }
}
