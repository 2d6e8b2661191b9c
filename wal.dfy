/** The write-ahead log: an append-only byte file of records
      [len:int32][type:byte][txId:int64][payload]
    with len = 9 + |payload|, and the two-pass redo recovery that reads it back. */
module Wal {
  import opened Bytes
  import opened Wrappers
  import opened Disk

  /** The record type bytes. */
  const BEGIN: Byte := 1
  const UPDATE: Byte := 2
  const COMMIT: Byte := 3
  const ABORT: Byte := 4

  /** Bytes of a record before its payload: len, type and transaction id. */
  const HEADER_SIZE: nat := 13

  datatype Record =
    | Begin(tx: Int64)
    | Update(tx: Int64, pageId: Int32, before: seq<Byte>, after: seq<Byte>)
    | Commit(tx: Int64)
    | Abort(tx: Int64)

  function TypeOf(r: Record): Byte
  {
    match r
    case Begin(_) => BEGIN
    case Update(_, _, _, _) => UPDATE
    case Commit(_) => COMMIT
    case Abort(_) => ABORT
  }

  /** A record fits the format when its len field fits a Java int. */
  ghost predicate Encodable(r: Record)
  {
    r.Update? ==> 9 + 12 + |r.before| + |r.after| <= INT32_MAX
  }

  ghost predicate AllEncodable(rs: seq<Record>)
  {
    forall i :: 0 <= i < |rs| ==> Encodable(rs[i])
  }

  /** The payload of an update: page id, before-image and after-image, each
      image preceded by its length. Other records have none. */
  function Payload(r: Record): (p: seq<Byte>)
    requires Encodable(r)
    ensures r.Update? ==> |p| == 12 + |r.before| + |r.after|
    ensures !r.Update? ==> p == []
  {
    if r.Update? then
      EncodeInt32(r.pageId) + EncodeInt32(|r.before|) + r.before
        + EncodeInt32(|r.after|) + r.after
    else []
  }

  /** The bytes writeHdr appends for a record. */
  function Encode(r: Record): (bs: seq<Byte>)
    requires Encodable(r)
    ensures |bs| == HEADER_SIZE + |Payload(r)|
  {
    EncodeInt32(9 + |Payload(r)|) + [TypeOf(r)] + EncodeInt64(r.tx) + Payload(r)
  }

  /** The log written by appending the records in order. */
  function EncodeAll(rs: seq<Record>): (bs: seq<Byte>)
    requires AllEncodable(rs)
    ensures rs == [] <==> bs == []
  {
    if rs == [] then [] else Encode(rs[0]) + EncodeAll(rs[1..])
  }

  lemma {:induction false} EncodeAllSnoc(rs: seq<Record>, r: Record)
    requires AllEncodable(rs) && Encodable(r)
    ensures AllEncodable(rs + [r])
    ensures EncodeAll(rs + [r]) == EncodeAll(rs) + Encode(r)
  {
    var rs' := rs + [r];
    assert forall i :: 0 <= i < |rs'| ==> rs'[i] == if i < |rs| then rs[i] else r;
    if rs == [] {
      assert rs'[1..] == [];
    } else {
      assert rs'[1..] == rs[1..] + [r];
      EncodeAllSnoc(rs[1..], r);
      calc {
        EncodeAll(rs');
        Encode(rs[0]) + EncodeAll(rs[1..] + [r]);
        Encode(rs[0]) + (EncodeAll(rs[1..]) + Encode(r));
      }
    }
  }

  /* ---------------- reading the log back ---------------- */

  datatype Header = Header(len: Int32, typ: Byte, tx: Int64)

  /** readInt, readByte, readLong at the front of s; they fail at end of file. */
  function ReadHeader(s: seq<Byte>): (h: Option<Header>)
    ensures h.Some? <==> |s| >= HEADER_SIZE
  {
    if |s| < HEADER_SIZE then None
    else Some(Header(DecodeInt32(s[..4]), s[4], DecodeInt64(s[5..HEADER_SIZE])))
  }

  /** skipBytes(n): nothing for n <= 0, and never past the end of the file. */
  function Skip(s: seq<Byte>, n: int): (r: seq<Byte>)
    ensures n <= 0 ==> r == s
    ensures 0 <= n <= |s| ==> r == s[n..]
    ensures n >= |s| ==> r == []
  {
    if n <= 0 then s else if n >= |s| then [] else s[n..]
  }

  /** The amount recovery skips after a header: len - 1 - 8 in Java int arithmetic. */
  function SkipCount(h: Header): Int32
  {
    Wrap32(h.len as int - 1 - 8)
  }

  /** The first pass over the log bytes s: adds the id of every COMMIT record to
      committed; None when a header runs past the end of the file. */
  function Analysis(s: seq<Byte>, committed: set<Int64>): Option<set<Int64>>
    decreases |s|
  {
    if s == [] then Some(committed)
    else match ReadHeader(s)
      case None => None
      case Some(h) =>
        Analysis(Skip(s[HEADER_SIZE..], SkipCount(h)),
                 if h.typ == COMMIT then committed + {h.tx} else committed)
  }

  /** The body of an update record as the redo pass reads it. */
  datatype UpdateBody = UpdateBody(pageId: Int32, before: seq<Byte>, after: seq<Byte>, size: nat)

  /** readInt, new byte[bLen], readFully, readInt, new byte[aLen], readFully: fails on a
      negative length or at end of file. */
  function ReadUpdateBody(s: seq<Byte>): (r: Option<UpdateBody>)
    ensures r.Some? ==> 12 <= r.value.size <= |s|
  {
    if |s| < 8 then None
    else
      var bLen := DecodeInt32(s[4..8]);
      if bLen < 0 || |s| < 12 + bLen then None
      else
        var aLen := DecodeInt32(s[8 + bLen..12 + bLen]);
        if aLen < 0 || |s| < 12 + bLen + aLen then None
        else Some(UpdateBody(DecodeInt32(s[..4]), s[8..8 + bLen],
                             s[12 + bLen..12 + bLen + aLen], 12 + bLen + aLen))
  }

  /** The outcome of the redo pass: the page writes it made, and whether it ran to
      the end of the log without an exception. */
  datatype Redo = Redo(writes: seq<PageWrite>, ok: bool)

  /** The second pass over s: each UPDATE of a committed transaction writes its
      after-image to its page; every other record is skipped by its len. */
  function RedoFrom(s: seq<Byte>, committed: set<Int64>): Redo
    decreases |s|
  {
    if s == [] then Redo([], true)
    else match ReadHeader(s)
      case None => Redo([], false)
      case Some(h) =>
        if h.typ == UPDATE && h.tx in committed then
          match ReadUpdateBody(s[HEADER_SIZE..])
          case None => Redo([], false)
          case Some(b) =>
            if b.pageId < 0 then Redo([], false)
            else
              var r := RedoFrom(s[HEADER_SIZE + b.size..], committed);
              Redo([PageWrite(b.pageId, b.after)] + r.writes, r.ok)
        else RedoFrom(Skip(s[HEADER_SIZE..], SkipCount(h)), committed)
  }

  /** What recover does to the page file whose contents are file. */
  function Recovered(log: seq<Byte>, file: seq<Byte>): seq<Byte>
  {
    match Analysis(log, {})
    case None => file
    case Some(c) => ApplyWrites(file, RedoFrom(log, c).writes)
  }

  /** Whether recover returns normally. */
  function RecoverOk(log: seq<Byte>): bool
  {
    match Analysis(log, {})
    case None => false
    case Some(c) => RedoFrom(log, c).ok
  }

  /* ---------------- what recovery makes of a well-formed log ---------------- */

  /** The ids of the transactions with a COMMIT record. */
  function CommittedOf(rs: seq<Record>): set<Int64>
  {
    if rs == [] then {} else (if rs[0].Commit? then {rs[0].tx} else {}) + CommittedOf(rs[1..])
  }

  /** Update records name pages a file can seek to. */
  ghost predicate PagesNonNegative(rs: seq<Record>)
  {
    forall i :: 0 <= i < |rs| && rs[i].Update? ==> rs[i].pageId >= 0
  }

  /** The after-images of the updates of transactions in committed, in log order. */
  function RedoList(rs: seq<Record>, committed: set<Int64>): seq<PageWrite>
    requires PagesNonNegative(rs)
  {
    if rs == [] then []
    else
      (if rs[0].Update? && rs[0].tx in committed then [PageWrite(rs[0].pageId, rs[0].after)] else [])
        + RedoList(rs[1..], committed)
  }

  /** A header written by writeInt, writeByte and writeLong reads back as written. */
  lemma HeaderRoundTrip(len: Int32, typ: Byte, tx: Int64, tail: seq<Byte>)
    ensures ReadHeader(EncodeInt32(len) + [typ] + EncodeInt64(tx) + tail) == Some(Header(len, typ, tx))
    ensures (EncodeInt32(len) + [typ] + EncodeInt64(tx) + tail)[HEADER_SIZE..] == tail
  {
    var s := EncodeInt32(len) + [typ] + EncodeInt64(tx) + tail;
    assert s[..4] == EncodeInt32(len);
    assert s[5..HEADER_SIZE] == EncodeInt64(tx);
    Int32RoundTrip(len);
    Int64RoundTrip(tx);
  }

  /** An update payload reads back as written, and reading it consumes exactly its bytes. */
  lemma BodyRoundTrip(pid: Int32, before: seq<Byte>, after: seq<Byte>, rest: seq<Byte>)
    requires 12 + |before| + |after| <= INT32_MAX
    ensures var s := EncodeInt32(pid) + EncodeInt32(|before|) + before + EncodeInt32(|after|) + after + rest;
            ReadUpdateBody(s) == Some(UpdateBody(pid, before, after, 12 + |before| + |after|)) &&
            s[12 + |before| + |after|..] == rest
  {
    var s := EncodeInt32(pid) + EncodeInt32(|before|) + before + EncodeInt32(|after|) + after + rest;
    var b := |before|;
    var a := |after|;
    assert s[..4] == EncodeInt32(pid);
    assert s[4..8] == EncodeInt32(b);
    Int32RoundTrip(pid);
    Int32RoundTrip(b);
    assert s[8..8 + b] == before;
    assert s[8 + b..12 + b] == EncodeInt32(a);
    Int32RoundTrip(a);
    assert s[12 + b..12 + b + a] == after;
    assert s[12 + b + a..] == rest;
  }

  lemma HeaderOfEncoded(r: Record, rest: seq<Byte>)
    requires Encodable(r)
    ensures ReadHeader(Encode(r) + rest) == Some(Header(9 + |Payload(r)|, TypeOf(r), r.tx))
    ensures (Encode(r) + rest)[HEADER_SIZE..] == Payload(r) + rest
    ensures Skip(Payload(r) + rest, SkipCount(Header(9 + |Payload(r)|, TypeOf(r), r.tx))) == rest
  {
    var p := Payload(r);
    var hd := EncodeInt32(9 + |p|) + [TypeOf(r)] + EncodeInt64(r.tx);
    assert Encode(r) + rest == hd + (p + rest);
    HeaderRoundTrip(9 + |p|, TypeOf(r), r.tx, p + rest);
    assert (p + rest)[|p|..] == rest;
  }

  lemma BodyOfEncoded(r: Record, rest: seq<Byte>)
    requires r.Update? && Encodable(r)
    ensures ReadUpdateBody(Payload(r) + rest) == Some(UpdateBody(r.pageId, r.before, r.after, |Payload(r)|))
    ensures (Payload(r) + rest)[|Payload(r)|..] == rest
  {
    BodyRoundTrip(r.pageId, r.before, r.after, rest);
  }

  /** The first pass over a log of well-formed records finds exactly the
      transactions that have a COMMIT record. */
  lemma {:induction false} AnalysisOfEncoded(rs: seq<Record>, committed: set<Int64>)
    requires AllEncodable(rs)
    ensures Analysis(EncodeAll(rs), committed) == Some(committed + CommittedOf(rs))
  {
    if rs == [] {
      assert committed + CommittedOf(rs) == committed;
    } else {
      var r := rs[0];
      var rest := EncodeAll(rs[1..]);
      HeaderOfEncoded(r, rest);
      var s := EncodeAll(rs);
      assert s == Encode(r) + rest;
      var h := Header(9 + |Payload(r)|, TypeOf(r), r.tx);
      var c := if h.typ == COMMIT then committed + {h.tx} else committed;
      assert Analysis(s, committed) == Analysis(rest, c);
      AnalysisOfEncoded(rs[1..], c);
      assert c + CommittedOf(rs[1..]) == committed + CommittedOf(rs);
    }
  }

  /** The second pass over a log of well-formed records writes the after-image of
      every update of a committed transaction, in log order, and finishes normally. */
  lemma {:induction false} RedoOfEncoded(rs: seq<Record>, committed: set<Int64>)
    requires AllEncodable(rs) && PagesNonNegative(rs)
    ensures RedoFrom(EncodeAll(rs), committed) == Redo(RedoList(rs, committed), true)
  {
    if rs != [] {
      var r := rs[0];
      var rest := EncodeAll(rs[1..]);
      var s := EncodeAll(rs);
      assert s == Encode(r) + rest;
      HeaderOfEncoded(r, rest);
      RedoOfEncoded(rs[1..], committed);
      if r.Update? && r.tx in committed {
        BodyOfEncoded(r, rest);
        assert s[HEADER_SIZE + |Payload(r)|..] == rest;
        RedoUpdateStep(s, committed);
      } else {
        RedoSkipStep(s, committed);
      }
    }
  }

  /** Recovery of a log of well-formed records returns normally and replays the
      after-images of the committed transactions' updates in log order; updates of
      transactions without a COMMIT record are not replayed. */
  lemma RecoverEncoded(rs: seq<Record>, file: seq<Byte>)
    requires AllEncodable(rs) && PagesNonNegative(rs)
    ensures RecoverOk(EncodeAll(rs))
    ensures Recovered(EncodeAll(rs), file) == ApplyWrites(file, RedoList(rs, CommittedOf(rs)))
  {
    AnalysisOfEncoded(rs, {});
    assert {} + CommittedOf(rs) == CommittedOf(rs);
    RedoOfEncoded(rs, CommittedOf(rs));
  }

  lemma RedoListCons(r: Record, rs: seq<Record>, c: set<Int64>)
    requires PagesNonNegative([r] + rs)
    ensures PagesNonNegative(rs) && (r.Update? ==> r.pageId >= 0)
    ensures RedoList([r] + rs, c)
            == (if r.Update? && r.tx in c then [PageWrite(r.pageId, r.after)] else []) + RedoList(rs, c)
    ensures CommittedOf([r] + rs) == (if r.Commit? then {r.tx} else {}) + CommittedOf(rs)
  {
    assert ([r] + rs)[0] == r && ([r] + rs)[1..] == rs;
    assert forall i :: 0 <= i < |rs| ==> rs[i] == ([r] + rs)[i + 1];
  }

  /** The log of two transactions that were given the same id: the first commits,
      the second never does. */
  function ReusedIdLog(tx: Int64, pid: PageId, b1: seq<Byte>, a1: seq<Byte>, b2: seq<Byte>, a2: seq<Byte>)
    : seq<Record>
  {
    [Begin(tx), Update(tx, pid, b1, a1), Commit(tx), Begin(tx), Update(tx, pid, b2, a2)]
  }

  /** Both updates of that log are replayed: the uncommitted one because its id
      appears in a COMMIT record. */
  lemma ReusedIdRedoList(tx: Int64, pid: PageId, b1: seq<Byte>, a1: seq<Byte>, b2: seq<Byte>, a2: seq<Byte>)
    requires 21 + |b1| + |a1| <= INT32_MAX && 21 + |b2| + |a2| <= INT32_MAX
    ensures var rs := ReusedIdLog(tx, pid, b1, a1, b2, a2);
            AllEncodable(rs) && PagesNonNegative(rs) &&
            RedoList(rs, CommittedOf(rs)) == [PageWrite(pid, a1), PageWrite(pid, a2)]
  {
    var u1 := Update(tx, pid, b1, a1);
    var u2 := Update(tx, pid, b2, a2);
    var r4 := [u2];
    var r3 := [Begin(tx)] + r4;
    var r2 := [Commit(tx)] + r3;
    var r1 := [u1] + r2;
    var rs := [Begin(tx)] + r1;
    assert rs == ReusedIdLog(tx, pid, b1, a1, b2, a2);
    assert r4 == [u2] + [];
    var c := CommittedOf(rs);
    RedoListCons(Begin(tx), r1, c);
    RedoListCons(u1, r2, c);
    RedoListCons(Commit(tx), r3, c);
    RedoListCons(Begin(tx), r4, c);
    RedoListCons(u2, [], c);
  }

  /** Transaction ids restart at 1 with every TransactionManager while the log
      keeps the records of earlier runs: after recovery, a page holds the
      after-image of a transaction that never committed, because an earlier
      transaction with the same id did. */
  lemma ReusedIdReplayed(tx: Int64, pid: PageId, b1: seq<Byte>, a1: seq<Byte>, b2: seq<Byte>, a2: seq<Byte>,
                         file: seq<Byte>)
    requires |b1| == |a1| == |b2| == |a2| == PAGE_SIZE
    ensures var rs := ReusedIdLog(tx, pid, b1, a1, b2, a2);
            AllEncodable(rs) && RecoverOk(EncodeAll(rs)) &&
            PageImage(Recovered(EncodeAll(rs), file), pid) == Some(a2)
  {
    var rs := ReusedIdLog(tx, pid, b1, a1, b2, a2);
    ReusedIdRedoList(tx, pid, b1, a1, b2, a2);
    var ws := RedoList(rs, CommittedOf(rs));
    RecoverEncoded(rs, file);
    LastWriteWins(file, ws, 1);
  }

  /** The largest transaction id in rs, 0 for an empty log. */
  function MaxTxId(rs: seq<Record>): (m: int)
    ensures forall i :: 0 <= i < |rs| ==> rs[i].tx <= m
    ensures m >= 0
  {
    if rs == [] then 0
    else
      var rest := MaxTxId(rs[1..]);
      assert forall i :: 1 <= i < |rs| ==> rs[i] == rs[1..][i - 1];
      if rs[0].tx > rest then rs[0].tx else rest
  }

  /** The id a TransactionManager opened over the log rs should hand out
      first: one past every id the log already holds. The constructor at
      TransactionManager.java:30 starts at 1 instead (ReusedIdReplayed). */
  function ResumedTxId(rs: seq<Record>): (id: int)
    ensures forall i :: 0 <= i < |rs| ==> rs[i].tx < id
  {
    MaxTxId(rs) + 1
  }

  /** An id beyond every id of the log has no COMMIT record there. */
  lemma {:induction false} FreshIdUncommitted(rs: seq<Record>, tx: int)
    requires forall i :: 0 <= i < |rs| ==> rs[i].tx < tx
    ensures tx !in CommittedOf(rs)
  {
    if rs != [] {
      assert forall i :: 0 <= i < |rs[1..]| ==> rs[1..][i] == rs[i + 1];
      FreshIdUncommitted(rs[1..], tx);
    }
  }

  /** The committed set of two logs one after the other. */
  lemma {:induction false} CommittedOfAppend(a: seq<Record>, b: seq<Record>)
    ensures CommittedOf(a + b) == CommittedOf(a) + CommittedOf(b)
  {
    if a != [] {
      assert a + b == [a[0]] + (a[1..] + b) && (a + b)[1..] == a[1..] + b;
      CommittedOfAppend(a[1..], b);
    } else {
      assert a + b == b;
    }
  }

  /** A log without COMMIT records commits nothing. */
  lemma {:induction false} NoCommits(rs: seq<Record>)
    requires forall i :: 0 <= i < |rs| ==> !rs[i].Commit?
    ensures CommittedOf(rs) == {}
  {
    if rs != [] {
      assert forall i :: 0 <= i < |rs[1..]| ==> rs[1..][i] == rs[i + 1];
      NoCommits(rs[1..]);
    }
  }

  /** Updates of transactions outside c are not redone. */
  lemma {:induction false} RedoListNone(rs: seq<Record>, c: set<Int64>)
    requires PagesNonNegative(rs)
    requires forall i :: 0 <= i < |rs| ==> rs[i].tx !in c
    ensures RedoList(rs, c) == []
  {
    if rs != [] {
      assert rs == [rs[0]] + rs[1..];
      RedoListCons(rs[0], rs[1..], c);
      assert forall i :: 0 <= i < |rs[1..]| ==> rs[1..][i] == rs[i + 1];
      RedoListNone(rs[1..], c);
    }
  }

  /** The redo list of the appended log is that of the log alone when the
      appended records belong to one uncommitted, fresh transaction. */
  lemma FreshRedoList(rs: seq<Record>, post: seq<Record>, tx: Int64)
    requires PagesNonNegative(rs + post) && PagesNonNegative(rs)
    requires forall i :: 0 <= i < |rs| ==> rs[i].tx < tx
    requires forall i :: 0 <= i < |post| ==> post[i].tx == tx && !post[i].Commit?
    ensures RedoList(rs + post, CommittedOf(rs + post)) == RedoList(rs, CommittedOf(rs))
  {
    var c := CommittedOf(rs);
    FreshIdUncommitted(rs, tx);
    NoCommits(post);
    CommittedOfAppend(rs, post);
    assert CommittedOf(rs + post) == c;
    PagesNonNegativeSplit(rs, post);
    RedoListAppend(rs, post, c);
    RedoListNone(post, c);
  }

  /** With ids resumed past the log (ResumedTxId), a transaction of the new
      run that never commits is not redone: recovering the log with its
      records appended leaves the page file exactly as recovering the log
      without them. Only committed after-images are replayed. */
  lemma FreshIdNotReplayed(rs: seq<Record>, post: seq<Record>, tx: Int64, file: seq<Byte>)
    requires AllEncodable(rs + post) && PagesNonNegative(rs + post)
    requires tx >= ResumedTxId(rs)
    requires forall i :: 0 <= i < |post| ==> post[i].tx == tx && !post[i].Commit?
    ensures AllEncodable(rs) && PagesNonNegative(rs)
    ensures RecoverOk(EncodeAll(rs + post)) && RecoverOk(EncodeAll(rs))
    ensures Recovered(EncodeAll(rs + post), file) == Recovered(EncodeAll(rs), file)
  {
    assert forall i :: 0 <= i < |rs| ==> rs[i] == (rs + post)[i];
    PagesNonNegativeSplit(rs, post);
    FreshRedoList(rs, post, tx);
    RecoverEncoded(rs + post, file);
    RecoverEncoded(rs, file);
  }

  /* ---------------- committed updates survive recovery ---------------- */

  /** Update records of a log and of its two halves name pages a file can seek to alike. */
  lemma PagesNonNegativeSplit(a: seq<Record>, b: seq<Record>)
    requires PagesNonNegative(a + b)
    ensures PagesNonNegative(a) && PagesNonNegative(b)
  {
    assert forall i :: 0 <= i < |b| ==> b[i] == (a + b)[|a| + i];
    assert forall i :: 0 <= i < |a| ==> a[i] == (a + b)[i];
  }

  /** The redo list of two logs one after the other is theirs one after the other. */
  lemma {:induction false} RedoListAppend(a: seq<Record>, b: seq<Record>, c: set<Int64>)
    requires PagesNonNegative(a + b)
    ensures PagesNonNegative(a) && PagesNonNegative(b)
    ensures RedoList(a + b, c) == RedoList(a, c) + RedoList(b, c)
    decreases |a|
  {
    PagesNonNegativeSplit(a, b);
    if a == [] {
      assert a + b == b;
    } else {
      var x, rest := a[0], a[1..];
      assert a == [x] + rest;
      assert a + b == [x] + (rest + b);
      RedoListCons(x, rest + b, c);
      RedoListAppend(rest, b, c);
      RedoListCons(x, rest, c);
    }
  }

  /** A record appended to the log adds its id to the committed set exactly when it is a COMMIT. */
  lemma {:induction false} CommittedOfSnoc(rs: seq<Record>, r: Record)
    ensures CommittedOf(rs + [r]) == CommittedOf(rs) + (if r.Commit? then {r.tx} else {})
  {
    if rs == [] {
      assert rs + [r] == [r] && [r][1..] == [];
    } else {
      assert rs + [r] == [rs[0]] + (rs[1..] + [r]);
      assert rs == [rs[0]] + rs[1..];
      CommittedOfSnoc(rs[1..], r);
      assert CommittedOf(rs + [r]) == (if rs[0].Commit? then {rs[0].tx} else {}) + CommittedOf(rs[1..] + [r]);
      assert CommittedOf(rs) == (if rs[0].Commit? then {rs[0].tx} else {}) + CommittedOf(rs[1..]);
    }
  }

  /** A log that ends with a COMMIT has that transaction committed. */
  lemma CommittedOfLast(rs: seq<Record>)
    requires |rs| > 0 && rs[|rs| - 1].Commit?
    ensures rs[|rs| - 1].tx in CommittedOf(rs)
  {
    var n := |rs| - 1;
    assert rs == rs[..n] + [rs[n]];
    CommittedOfSnoc(rs[..n], rs[n]);
  }

  /** Every update carries a whole page as its after-image. */
  ghost predicate WholeAfters(rs: seq<Record>)
  {
    forall i :: 0 <= i < |rs| && rs[i].Update? ==> |rs[i].after| == PAGE_SIZE
  }

  /** No write of the redo list touches a page that no update of a
      transaction in c names. */
  lemma {:induction false} RedoListAvoids(rs: seq<Record>, c: set<Int64>, pid: int)
    requires PagesNonNegative(rs)
    requires forall i :: 0 <= i < |rs| && rs[i].Update? && rs[i].tx in c ==> rs[i].pageId != pid
    ensures forall j :: 0 <= j < |RedoList(rs, c)| ==> RedoList(rs, c)[j].id != pid
  {
    if rs != [] {
      assert rs == [rs[0]] + rs[1..];
      RedoListCons(rs[0], rs[1..], c);
      assert forall i :: 0 <= i < |rs[1..]| ==> rs[1..][i] == rs[i + 1];
      RedoListAvoids(rs[1..], c, pid);
    }
  }

  /** With whole after-images, the redo list writes whole pages. */
  lemma {:induction false} RedoListWhole(rs: seq<Record>, c: set<Int64>)
    requires PagesNonNegative(rs) && WholeAfters(rs)
    ensures forall j :: 0 <= j < |RedoList(rs, c)| ==> |RedoList(rs, c)[j].bytes| == PAGE_SIZE
  {
    if rs != [] {
      assert rs == [rs[0]] + rs[1..];
      RedoListCons(rs[0], rs[1..], c);
      assert forall i :: 0 <= i < |rs[1..]| ==> rs[1..][i] == rs[i + 1];
      RedoListWhole(rs[1..], c);
    }
  }

  /** After a transaction commits, recovery leaves each page it updated with
      the after-image of its last update to that page, whatever the page file
      held, unless a later update of a committed transaction wrote the page
      again: rs[k] is that last update. */
  lemma CommittedSurvives(rs: seq<Record>, k: nat, file: seq<Byte>)
    requires k < |rs| && rs[k].Update? && rs[k].pageId >= 0
    requires AllEncodable(rs) && PagesNonNegative(rs) && WholeAfters(rs)
    requires rs[k].tx in CommittedOf(rs)
    requires forall i :: k < i < |rs| && rs[i].Update? && rs[i].tx in CommittedOf(rs) ==> rs[i].pageId != rs[k].pageId
    ensures RecoverOk(EncodeAll(rs))
    ensures PageImage(Recovered(EncodeAll(rs), file), rs[k].pageId) == Some(rs[k].after)
  {
    var c := CommittedOf(rs);
    RecoverEncoded(rs, file);
    var pre, u, post := rs[..k], rs[k], rs[k + 1..];
    SplitAround(rs, k);
    assert forall i :: 0 <= i < |post| ==> post[i] == rs[k + 1 + i];
    var ws, j := SurvivorWrites(pre, u, post, c);
    LastWriteWins(file, ws, j);
  }

  lemma SplitAround<T>(s: seq<T>, k: nat)
    requires k < |s|
    ensures s == s[..k] + [s[k]] + s[k + 1..]
  {
    assert s[..k + 1] == s[..k] + [s[k]];
  }

  /** The log of begin, one page update and commit: recovering it over any
      page file leaves the page with the after-image. */
  lemma CommitPersists(tx: Int64, pid: PageId, before: seq<Byte>, after: seq<Byte>, file: seq<Byte>)
    requires |before| == |after| == PAGE_SIZE
    ensures var rs := [Begin(tx), Update(tx, pid, before, after), Commit(tx)];
            AllEncodable(rs) && RecoverOk(EncodeAll(rs)) &&
            PageImage(Recovered(EncodeAll(rs), file), pid) == Some(after)
  {
    var rs := [Begin(tx), Update(tx, pid, before, after), Commit(tx)];
    CommittedOfLast(rs);
    CommittedSurvives(rs, 1, file);
  }

  /** The redo list of such a log, in the terms LastWriteWins needs: the
      write of u at index k, whole-page writes throughout, and no later
      write to u's page. */
  lemma SurvivorWrites(pre: seq<Record>, u: Record, post: seq<Record>, c: set<Int64>)
    returns (ws: seq<PageWrite>, k: nat)
    requires u.Update? && u.pageId >= 0 && u.tx in c
    requires PagesNonNegative(pre + [u] + post) && WholeAfters(pre + [u] + post)
    requires forall i :: 0 <= i < |post| && post[i].Update? && post[i].tx in c ==> post[i].pageId != u.pageId
    ensures ws == RedoList(pre + [u] + post, c)
    ensures k < |ws| && ws[k] == PageWrite(u.pageId, u.after)
    ensures forall j :: 0 <= j < |ws| ==> |ws[j].bytes| == PAGE_SIZE
    ensures forall j :: k < j < |ws| ==> ws[j].id != ws[k].id
  {
    var rs := pre + [u] + post;
    ws := RedoList(rs, c);
    RedoListAppend(pre + [u], post, c);
    RedoListAppend(pre, [u], c);
    assert [u] == [u] + [];
    RedoListCons(u, [], c);
    k := |RedoList(pre, c)|;
    var tail := RedoList(post, c);
    assert ws == RedoList(pre, c) + [PageWrite(u.pageId, u.after)] + tail;
    RedoListWhole(rs, c);
    RedoListAvoids(post, c, u.pageId);
    forall j | k < j < |ws|
      ensures ws[j].id != u.pageId
    {
      assert ws[j] == tail[j - k - 1];
    }
  }

  /* ---------------- replay is idempotent ---------------- */

  /** Whether some write in ws covers byte k. */
  function Covered(ws: seq<PageWrite>, k: nat): bool
  {
    exists i :: 0 <= i < |ws| && ws[i].id * PAGE_SIZE <= k < ws[i].id * PAGE_SIZE + |ws[i].bytes|
  }

  /** Byte k after the writes ws on a file base: the last write covering k decides,
      otherwise the base byte, otherwise zero. */
  function ByteAfter(base: seq<Byte>, ws: seq<PageWrite>, k: nat): Byte
  {
    if ws == [] then (if k < |base| then base[k] else 0)
    else
      var w := ws[|ws| - 1];
      if w.id * PAGE_SIZE <= k < w.id * PAGE_SIZE + |w.bytes| then w.bytes[k - w.id * PAGE_SIZE]
      else ByteAfter(base, ws[..|ws| - 1], k)
  }

  /** How long the file is after the writes ws on base. */
  function EndAfter(base: seq<Byte>, ws: seq<PageWrite>): nat
  {
    if ws == [] then |base|
    else
      var w := ws[|ws| - 1];
      var e := EndAfter(base, ws[..|ws| - 1]);
      if w.id * PAGE_SIZE + |w.bytes| > e then w.id * PAGE_SIZE + |w.bytes| else e
  }

  lemma {:induction false} ApplyWritesBytes(base: seq<Byte>, ws: seq<PageWrite>)
    ensures |ApplyWrites(base, ws)| == EndAfter(base, ws)
    ensures forall k :: 0 <= k < |ApplyWrites(base, ws)| ==> ApplyWrites(base, ws)[k] == ByteAfter(base, ws, k)
    ensures forall k: nat :: k >= EndAfter(base, ws) ==> ByteAfter(base, ws, k) == 0
  {
    if ws != [] {
      var pre := ws[..|ws| - 1];
      var w := ws[|ws| - 1];
      var off := w.id * PAGE_SIZE;
      ApplyWritesBytes(base, pre);
      var r := ApplyWrites(base, ws);
      forall k | 0 <= k < |r|
        ensures r[k] == ByteAfter(base, ws, k)
      {
        if off <= k < off + |w.bytes| {
          assert r[off..off + |w.bytes|][k - off] == r[k];
        }
      }
    }
  }

  /** Only the bytes no write covers depend on the base file. */
  lemma {:induction false} ByteAfterBase(b1: seq<Byte>, b2: seq<Byte>, ws: seq<PageWrite>, k: nat)
    requires !Covered(ws, k) ==> (if k < |b1| then b1[k] else 0) == (if k < |b2| then b2[k] else 0)
    ensures ByteAfter(b1, ws, k) == ByteAfter(b2, ws, k)
  {
    if ws != [] {
      var pre := ws[..|ws| - 1];
      var w := ws[|ws| - 1];
      if !(w.id * PAGE_SIZE <= k < w.id * PAGE_SIZE + |w.bytes|) {
        if Covered(pre, k) {
          var i :| 0 <= i < |pre| && pre[i].id * PAGE_SIZE <= k < pre[i].id * PAGE_SIZE + |pre[i].bytes|;
          assert ws[i] == pre[i];
        }
        ByteAfterBase(b1, b2, pre, k);
      }
    }
  }

  lemma {:induction false} UncoveredByte(base: seq<Byte>, ws: seq<PageWrite>, k: nat)
    requires !Covered(ws, k)
    ensures ByteAfter(base, ws, k) == if k < |base| then base[k] else 0
  {
    if ws != [] {
      var pre := ws[..|ws| - 1];
      UncoveredByte(base, pre, k);
    }
  }

  lemma {:induction false} EndAfterBase(b1: seq<Byte>, b2: seq<Byte>, ws: seq<PageWrite>)
    requires |b1| <= |b2| <= EndAfter(b1, ws)
    ensures EndAfter(b2, ws) == EndAfter(b1, ws)
  {
    if ws != [] {
      var pre := ws[..|ws| - 1];
      var w := ws[|ws| - 1];
      if |b2| <= EndAfter(b1, pre) {
        EndAfterBase(b1, b2, pre);
      } else {
        EndAfterAtLeast(b2, pre);
        EndAfterMax(b1, b2, pre);
      }
    }
  }

  lemma {:induction false} EndAfterAtLeast(base: seq<Byte>, ws: seq<PageWrite>)
    ensures EndAfter(base, ws) >= |base|
  {
    if ws != [] {
      EndAfterAtLeast(base, ws[..|ws| - 1]);
    }
  }

  /** When the base is at least as long as every write's end, it decides the length. */
  lemma {:induction false} EndAfterMax(b1: seq<Byte>, b2: seq<Byte>, ws: seq<PageWrite>)
    requires |b1| <= |b2| && EndAfter(b1, ws) <= |b2|
    ensures EndAfter(b2, ws) == |b2|
  {
    if ws != [] {
      var pre := ws[..|ws| - 1];
      EndAfterAtLeast(b1, pre);
      EndAfterMax(b1, b2, pre);
    }
  }

  /** Replaying the same writes a second time changes nothing. */
  lemma ApplyWritesIdempotent(file: seq<Byte>, ws: seq<PageWrite>)
    ensures ApplyWrites(ApplyWrites(file, ws), ws) == ApplyWrites(file, ws)
  {
    var once := ApplyWrites(file, ws);
    var twice := ApplyWrites(once, ws);
    ApplyWritesBytes(file, ws);
    ApplyWritesBytes(once, ws);
    EndAfterAtLeast(file, ws);
    EndAfterBase(file, once, ws);
    forall k | 0 <= k < |twice|
      ensures twice[k] == once[k]
    {
      if !Covered(ws, k) {
        UncoveredByte(file, ws, k);
      }
      ByteAfterBase(once, file, ws, k);
    }
  }

  /** Running recovery again on its own result changes nothing. */
  lemma RecoverIdempotent(log: seq<Byte>, file: seq<Byte>)
    ensures Recovered(log, Recovered(log, file)) == Recovered(log, file)
  {
    match Analysis(log, {})
    case None =>
    case Some(c) => ApplyWritesIdempotent(file, RedoFrom(log, c).writes);
  }

  lemma {:induction false} ApplyWritesAppend(file: seq<Byte>, ws: seq<PageWrite>, w: PageWrite)
    ensures ApplyWrites(file, ws + [w]) == WriteAt(ApplyWrites(file, ws), w.id * PAGE_SIZE, w.bytes)
  {
    assert (ws + [w])[..|ws|] == ws;
  }

  /** The second pass at a committed update: its after-image is written first. */
  lemma RedoUpdateStep(s: seq<Byte>, c: set<Int64>)
    requires |s| >= HEADER_SIZE
    requires var h := ReadHeader(s).value; h.typ == UPDATE && h.tx in c
    requires var b := ReadUpdateBody(s[HEADER_SIZE..]); b.Some? && b.value.pageId >= 0
    ensures var b := ReadUpdateBody(s[HEADER_SIZE..]).value;
            var r := RedoFrom(s[HEADER_SIZE + b.size..], c);
            RedoFrom(s, c) == Redo([PageWrite(b.pageId, b.after)] + r.writes, r.ok)
  {
  }

  /** The second pass at any other record: the record is skipped by its len. */
  lemma RedoSkipStep(s: seq<Byte>, c: set<Int64>)
    requires |s| >= HEADER_SIZE
    requires var h := ReadHeader(s).value; !(h.typ == UPDATE && h.tx in c)
    ensures RedoFrom(s, c) == RedoFrom(Skip(s[HEADER_SIZE..], SkipCount(ReadHeader(s).value)), c)
  {
  }

  /** The redo writes so far, done, followed by the write w of a committed
      update at the start of s, and then the writes of the rest s' of the log. */
  lemma RedoUpdateSplice(s: seq<Byte>, c: set<Int64>, done: seq<PageWrite>, w: PageWrite, s': seq<Byte>)
    requires |s| >= HEADER_SIZE
    requires var h := ReadHeader(s).value; h.typ == UPDATE && h.tx in c
    requires var b := ReadUpdateBody(s[HEADER_SIZE..]);
             b.Some? && b.value.pageId >= 0 &&
             w == PageWrite(b.value.pageId, b.value.after) && s' == s[HEADER_SIZE + b.value.size..]
    ensures (done + [w]) + RedoFrom(s', c).writes == done + RedoFrom(s, c).writes
    ensures RedoFrom(s', c).ok == RedoFrom(s, c).ok
  {
    RedoUpdateStep(s, c);
    SnocAssoc(done, w, RedoFrom(s', c).writes);
  }

  /** Moving one element across a concatenation, as the redo loop does with each write. */
  lemma SnocAssoc<T>(a: seq<T>, x: T, b: seq<T>)
    ensures a + ([x] + b) == (a + [x]) + b
  {
  }

  /* ---------------- the log file ---------------- */

  class WALManager {
    /** The contents of wal.log. */
    var log: seq<Byte>
    /** How many bytes of log the last flush made durable. */
    var durable: nat

    /** Opening wal.log: records are appended after what it already holds. */
    constructor (existing: seq<Byte>)
      ensures log == existing && durable == |existing|
    {
      log := existing;
      durable := |existing|;
    }

    /** Appends the record r (writeHdr); nothing is synced. */
    method Append(r: Record)
      requires Encodable(r)
      modifies this
      ensures log == old(log) + Encode(r)
      ensures durable == old(durable)
    {
      log := log + Encode(r);
    }

    method LogBegin(tx: Int64)
      modifies this
      ensures log == old(log) + Encode(Begin(tx))
      ensures durable == old(durable)
    {
      Append(Begin(tx));
    }

    /** Appends a COMMIT record; it is not synced here. */
    method LogCommit(tx: Int64)
      modifies this
      ensures log == old(log) + Encode(Commit(tx))
      ensures durable == old(durable)
    {
      Append(Commit(tx));
    }

    method LogAbort(tx: Int64)
      modifies this
      ensures log == old(log) + Encode(Abort(tx))
      ensures durable == old(durable)
    {
      Append(Abort(tx));
    }

    /** Appends an UPDATE record carrying the page's before- and after-images. */
    method LogUpdate(tx: Int64, pageId: Int32, before: seq<Byte>, after: seq<Byte>)
      requires Encodable(Update(tx, pageId, before, after))
      modifies this
      ensures log == old(log) + Encode(Update(tx, pageId, before, after))
      ensures durable == old(durable)
    {
      Append(Update(tx, pageId, before, after));
    }

    /** fsync: everything appended so far survives a crash. */
    method Flush()
      modifies this
      ensures log == old(log) && durable == |log|
    {
      durable := |log|;
    }

    /** Two passes over the log from its start: the first collects the committed
        transactions, the second writes the after-image of each of their updates to
        the page file. Returns false where the Java code throws; the page writes
        made before that point stay made. The buffer pool argument is not used. */
    method Recover(disk: DiskManager) returns (ok: bool)
      modifies disk
      ensures ok == RecoverOk(log)
      ensures disk.file == Recovered(log, old(disk.file))
      ensures disk.nextPageId == old(disk.nextPageId)
    {
      ghost var a := Analysis(log, {});
      var committed := AnalysisPass();
      if committed == None {
        return false;
      }
      ghost var file0 := disk.file;
      ok := RedoPass(disk, committed.value);
      assert disk.file == ApplyWrites(file0, RedoFrom(log, committed.value).writes);
    }

    /** The first pass. The unread part of the file stands for the file pointer. */
    method AnalysisPass() returns (r: Option<set<Int64>>)
      ensures r == Analysis(log, {})
    {
      var rest := log;
      var committed: set<Int64> := {};
      while rest != []
        invariant Analysis(log, {}) == Analysis(rest, committed)
        decreases |rest|
      {
        var hdr := ReadHeader(rest);
        if hdr == None {
          return None;
        }
        var h := hdr.value;
        if h.typ == COMMIT {
          committed := committed + {h.tx};
        }
        rest := Skip(rest[HEADER_SIZE..], SkipCount(h));
      }
      return Some(committed);
    }

    /** The second pass, given the committed transactions. */
    method RedoPass(disk: DiskManager, committed: set<Int64>) returns (ok: bool)
      modifies disk
      ensures ok == RedoFrom(log, committed).ok
      ensures disk.file == ApplyWrites(old(disk.file), RedoFrom(log, committed).writes)
      ensures disk.nextPageId == old(disk.nextPageId)
    {
      var rest := log;
      ghost var whole := RedoFrom(log, committed);
      ghost var done: seq<PageWrite> := [];
      while rest != []
        invariant whole.writes == done + RedoFrom(rest, committed).writes
        invariant whole.ok == RedoFrom(rest, committed).ok
        invariant disk.file == ApplyWrites(old(disk.file), done)
        invariant disk.nextPageId == old(disk.nextPageId)
        decreases |rest|
      {
        var stop;
        stop, rest, done := RedoRecord(disk, rest, committed, old(disk.file), done);
        if stop {
          assert done + [] == done;
          return false;
        }
      }
      assert done + [] == done;
      return true;
    }

    /** One record of the redo pass over the unread log rest: a committed
        UPDATE writes its after-image; a record that cannot be read stops the
        pass. The writes so far are done, applied to file0. */
    method RedoRecord(disk: DiskManager, rest: seq<Byte>, committed: set<Int64>,
                      ghost file0: seq<Byte>, ghost done: seq<PageWrite>)
      returns (stop: bool, rest': seq<Byte>, ghost done': seq<PageWrite>)
      requires rest != [] && disk.file == ApplyWrites(file0, done)
      modifies disk
      ensures disk.nextPageId == old(disk.nextPageId)
      ensures disk.file == ApplyWrites(file0, done')
      ensures |rest'| < |rest|
      ensures stop ==> done' == done && RedoFrom(rest, committed) == Redo([], false)
      ensures !stop ==>
                done' + RedoFrom(rest', committed).writes == done + RedoFrom(rest, committed).writes &&
                RedoFrom(rest', committed).ok == RedoFrom(rest, committed).ok
    {
      done' := done;
      rest' := rest[1..];
      var hdr := ReadHeader(rest);
      if hdr == None {
        return true, rest', done';
      }
      var h := hdr.value;
      if h.typ == UPDATE && h.tx in committed {
        stop, rest', done' := RedoUpdate(disk, rest, committed, file0, done);
      } else {
        RedoSkipStep(rest, committed);
        rest' := Skip(rest[HEADER_SIZE..], SkipCount(h));
        stop := false;
      }
    }

    /** The redo of an UPDATE record of a committed transaction at the start
        of rest: its after-image is written to its page. */
    method RedoUpdate(disk: DiskManager, rest: seq<Byte>, committed: set<Int64>,
                      ghost file0: seq<Byte>, ghost done: seq<PageWrite>)
      returns (stop: bool, rest': seq<Byte>, ghost done': seq<PageWrite>)
      requires ReadHeader(rest).Some? && disk.file == ApplyWrites(file0, done)
      requires ReadHeader(rest).value.typ == UPDATE && ReadHeader(rest).value.tx in committed
      modifies disk
      ensures disk.nextPageId == old(disk.nextPageId)
      ensures disk.file == ApplyWrites(file0, done')
      ensures |rest'| < |rest|
      ensures stop ==> done' == done && RedoFrom(rest, committed) == Redo([], false)
      ensures !stop ==>
                done' + RedoFrom(rest', committed).writes == done + RedoFrom(rest, committed).writes &&
                RedoFrom(rest', committed).ok == RedoFrom(rest, committed).ok
    {
      done' := done;
      rest' := rest[1..];
      var body := ReadUpdateBody(rest[HEADER_SIZE..]);
      if body == None || body.value.pageId < 0 {
        return true, rest', done';
      }
      var b := body.value;
      var w := PageWrite(b.pageId, b.after);
      rest' := rest[HEADER_SIZE + b.size..];
      RedoUpdateSplice(rest, committed, done, w, rest');
      disk.WritePage(b.pageId, b.after);
      ApplyWritesAppend(file0, done, w);
      done' := done + [w];
      stop := false;
    }
  }
}
