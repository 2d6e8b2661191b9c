/** The in-memory B+ tree index: leaves holding sorted keys with their record
    ids, internal nodes holding separators, and a tree object through whose
    splitKey/splitEntry fields a node that splits hands its new sibling up to
    its parent. Keys are ints, the key type the index is used with. */
module BPlusTree {
  import opened Wrappers
  import HeapPage

  type RecordId = HeapPage.RecordId

  /** BPlusNode: a leaf keeps parallel lists of keys and record pointers, an
      internal node keeps separators and one more child than separators. */
  datatype Node =
    | Leaf(keys: seq<int>, pointers: seq<RecordId>)
    | Internal(keys: seq<int>, children: seq<Node>)

  /** The pair a splitting node stores in tree.splitKey and tree.splitEntry. */
  datatype Split = Split(key: int, entry: Node)

  /** What an insert into a node leaves behind: the node and the split it reports, if any. */
  datatype Outcome = Outcome(node: Node, split: Option<Split>)

  /** Keys and pointers pair up in every leaf; every internal node has one more child than keys. */
  ghost predicate WellShaped(n: Node)
    decreases n
  {
    match n
    case Leaf(ks, ps) => |ks| == |ps|
    case Internal(ks, cs) => |cs| == |ks| + 1 && forall i :: 0 <= i < |cs| ==> WellShaped(cs[i])
  }

  ghost predicate AllShaped(cs: seq<Node>)
  {
    forall i :: 0 <= i < |cs| ==> WellShaped(cs[i])
  }

  ghost predicate OutShaped(o: Outcome)
  {
    WellShaped(o.node) && (o.split.Some? ==> WellShaped(o.split.value.entry))
  }

  /** The position both scans stop at (findChildIndex, and the leaf's insert
      position): the number of leading keys not greater than key. */
  function Pos(keys: seq<int>, key: int): (p: nat)
    ensures p <= |keys|
    ensures forall i :: 0 <= i < p ==> keys[i] <= key
    ensures p < |keys| ==> key < keys[p]
  {
    if keys == [] || key < keys[0] then 0 else 1 + Pos(keys[1..], key)
  }

  /** Pos is the only position with its two properties. */
  lemma PosIs(keys: seq<int>, key: int, p: nat)
    requires p <= |keys|
    requires forall i :: 0 <= i < p ==> keys[i] <= key
    requires p < |keys| ==> key < keys[p]
    ensures Pos(keys, key) == p
  {
  }

  /** List.add(i, x): x lands at position i and everything from i on moves one up. */
  function InsertAt<T>(s: seq<T>, i: nat, x: T): (r: seq<T>)
    requires i <= |s|
    ensures |r| == |s| + 1 && r[i] == x
    ensures forall j :: 0 <= j < i ==> r[j] == s[j]
    ensures forall j :: i < j < |r| ==> r[j] == s[j - 1]
  {
    s[..i] + [x] + s[i..]
  }

  /** The pointers stored with keys equal to key, in stored order. */
  function Matching(keys: seq<int>, pointers: seq<RecordId>, key: int): (r: seq<RecordId>)
    requires |keys| == |pointers|
    ensures |r| <= |keys|
    decreases |keys|
  {
    if keys == [] then []
    else
      var n := |keys| - 1;
      Matching(keys[..n], pointers[..n], key) + (if keys[n] == key then [pointers[n]] else [])
  }

  /** A search finds nothing exactly when no stored key equals the key. */
  lemma {:induction false} MatchingNone(keys: seq<int>, pointers: seq<RecordId>, key: int)
    requires |keys| == |pointers|
    ensures Matching(keys, pointers, key) == [] <==> key !in keys
    decreases |keys|
  {
    if keys != [] {
      var n := |keys| - 1;
      MatchingNone(keys[..n], pointers[..n], key);
      assert keys == keys[..n] + [keys[n]];
    }
  }

  /** The matches in two runs of entries are the matches of the first, then of the second. */
  lemma {:induction false} MatchingAppend(k1: seq<int>, p1: seq<RecordId>, k2: seq<int>, p2: seq<RecordId>, key: int)
    requires |k1| == |p1| && |k2| == |p2|
    ensures Matching(k1 + k2, p1 + p2, key) == Matching(k1, p1, key) + Matching(k2, p2, key)
    decreases |k2|
  {
    if k2 == [] {
      assert k1 + k2 == k1 && p1 + p2 == p1;
    } else {
      var n := |k2| - 1;
      var ks, ps := k1 + k2, p1 + p2;
      var last := if k2[n] == key then [p2[n]] else [];
      MatchingAppend(k1, p1, k2[..n], p2[..n], key);
      assert ks[..|ks| - 1] == k1 + k2[..n] && ps[..|ps| - 1] == p1 + p2[..n];
      assert ks[|ks| - 1] == k2[n] && ps[|ps| - 1] == p2[n];
      assert Matching(ks, ps, key) == Matching(k1 + k2[..n], p1 + p2[..n], key) + last;
      assert Matching(k2, p2, key) == Matching(k2[..n], p2[..n], key) + last;
    }
  }

  /** A leaf's keys split at |keys|/2: this leaf keeps the first half, the
      sibling takes the rest, and the sibling's first key goes up. */
  function SplitLeaf(keys: seq<int>, pointers: seq<RecordId>): (o: Outcome)
    requires |keys| == |pointers| >= 1
    ensures OutShaped(o) && o.node.Leaf? && o.split.Some? && o.split.value.entry.Leaf?
    ensures o.node.keys + o.split.value.entry.keys == keys
    ensures o.node.pointers + o.split.value.entry.pointers == pointers
    ensures |o.node.keys| == |keys| / 2 && o.split.value.key == o.split.value.entry.keys[0]
  {
    var mid := |keys| / 2;
    assert keys == keys[..mid] + keys[mid..] && pointers == pointers[..mid] + pointers[mid..];
    Outcome(Leaf(keys[..mid], pointers[..mid]), Some(Split(keys[mid], Leaf(keys[mid..], pointers[mid..]))))
  }

  /** BPlusLeafNode.insert: the entry goes after every key not greater than
      it, and a leaf that reaches order entries splits. */
  function LeafInsert(order: int, keys: seq<int>, pointers: seq<RecordId>, key: int, rid: RecordId): (o: Outcome)
    requires |keys| == |pointers|
    ensures OutShaped(o) && o.node.Leaf?
    ensures o.split.Some? <==> |keys| + 1 >= order
    ensures o.split.None? ==> o.node.keys == InsertAt(keys, Pos(keys, key), key)
    ensures o.split.Some? ==> o.node.keys + o.split.value.entry.keys == InsertAt(keys, Pos(keys, key), key)
  {
    var p := Pos(keys, key);
    var ks, ps := InsertAt(keys, p, key), InsertAt(pointers, p, rid);
    if |ks| >= order then SplitLeaf(ks, ps) else Outcome(Leaf(ks, ps), None)
  }

  /** An internal node's split: keys[mid] moves up and stays in neither half;
      this node keeps keys [0, mid) and children [0, mid], the sibling the rest. */
  function SplitInternal(keys: seq<int>, children: seq<Node>): (o: Outcome)
    requires |children| == |keys| + 1 && |keys| >= 1
    requires AllShaped(children)
    ensures OutShaped(o) && o.node.Internal? && o.split.Some? && o.split.value.entry.Internal?
    ensures o.node.keys + [o.split.value.key] + o.split.value.entry.keys == keys
    ensures o.node.children + o.split.value.entry.children == children
    ensures |o.node.keys| == |keys| / 2
  {
    var mid := |keys| / 2;
    assert keys == keys[..mid] + [keys[mid]] + keys[mid + 1..];
    assert children == children[..mid + 1] + children[mid + 1..];
    Outcome(Internal(keys[..mid], children[..mid + 1]), Some(Split(keys[mid], Internal(keys[mid + 1..], children[mid + 1..]))))
  }

  /** An internal node taking in its child's split: the split key goes in at
      its own findChildIndex position p, children[p] is set to the child that
      was descended into, the new sibling goes right after it, and a node that
      reaches order keys splits. When a duplicated split key puts p right of
      the child descended into, children[p] is a sibling, which is lost:
      LostSibling shows a run where that happens, and AbsorbAt is the
      corrected take-in. */
  function Absorb(order: int, keys: seq<int>, children: seq<Node>, child: Node, s: Split): (o: Outcome)
    requires |children| == |keys| + 1
    requires WellShaped(child) && WellShaped(s.entry)
    requires AllShaped(children)
    ensures OutShaped(o) && o.node.Internal?
    ensures o.split.Some? <==> |keys| + 1 >= order
    ensures o.split.None? ==> o.node.keys == InsertAt(keys, Pos(keys, s.key), s.key)
    ensures o.split.None? ==> o.node.children[Pos(keys, s.key)] == child && o.node.children[Pos(keys, s.key) + 1] == s.entry
  {
    var p := Pos(keys, s.key);
    var ks := InsertAt(keys, p, s.key);
    var cs := InsertAt(children[p := child], p + 1, s.entry);
    Settle(order, ks, cs)
  }

  /** An internal node after taking in a split: it splits once it holds order keys. */
  function Settle(order: int, keys: seq<int>, children: seq<Node>): (o: Outcome)
    requires |children| == |keys| + 1 && |keys| >= 1 && AllShaped(children)
    ensures OutShaped(o) && o.node.Internal?
    ensures o.split.Some? <==> |keys| >= order
    ensures o.split.None? ==> o.node == Internal(keys, children)
  {
    if |keys| >= order then SplitInternal(keys, children) else Outcome(Internal(keys, children), None)
  }

  /** BPlusNode.insert: a leaf inserts in place; an internal node inserts into
      child findChildIndex(key) and takes in the split that child reports. */
  function InsertNode(order: int, n: Node, key: int, rid: RecordId): (o: Outcome)
    requires WellShaped(n)
    ensures OutShaped(o) && o.node.Leaf? == n.Leaf?
    decreases n
  {
    match n
    case Leaf(ks, ps) => LeafInsert(order, ks, ps, key, rid)
    case Internal(ks, cs) =>
      var idx := Pos(ks, key);
      var c := InsertNode(order, cs[idx], key, rid);
      var children := cs[idx := c.node];
      if c.split.None? then Outcome(Internal(ks, children), None)
      else Absorb(order, ks, children, c.node, c.split.value)
  }

  /** BPlusTreeIndex.insert: a split of the root makes a new internal root
      with keys [splitKey] and children [old root, sibling]. */
  function TreeInsert(order: int, root: Node, key: int, rid: RecordId): (r: Node)
    requires WellShaped(root)
    ensures WellShaped(r)
    ensures root.Internal? ==> r.Internal?
    ensures root.Leaf? && |root.keys| + 1 >= order ==> r.Internal? && |r.children| == 2
    ensures root.Leaf? && |root.keys| + 1 < order ==> r.Leaf?
    ensures var o := InsertNode(order, root, key, rid);
            o.split.Some? ==> r.keys == [o.split.value.key] && r.children == [o.node, o.split.value.entry]
  {
    var o := InsertNode(order, root, key, rid);
    if o.split.Some? then Internal([o.split.value.key], [o.node, o.split.value.entry]) else o.node
  }

  /** The leaf a search for key descends to: child findChildIndex(key) at every internal node. */
  function LeafFor(n: Node, key: int): (l: Node)
    requires WellShaped(n)
    ensures l.Leaf? && |l.keys| == |l.pointers|
    decreases n
  {
    match n
    case Leaf(_, _) => n
    case Internal(ks, cs) => LeafFor(cs[Pos(ks, key)], key)
  }

  /** BPlusNode.search: the matches in the one leaf the search reaches. */
  function Lookup(n: Node, key: int): seq<RecordId>
    requires WellShaped(n)
  {
    var l := LeafFor(n, key);
    Matching(l.keys, l.pointers, key)
  }

  /** What a parent sees of an outcome: keys from the split key on are looked
      up in the sibling, smaller keys in the node. */
  function SearchOut(o: Outcome, key: int): seq<RecordId>
    requires OutShaped(o)
  {
    if o.split.Some? && o.split.value.key <= key then Lookup(o.split.value.entry, key)
    else Lookup(o.node, key)
  }

  /** The one match an insert of (key, rid) adds for k. */
  function Added(key: int, rid: RecordId, k: int): seq<RecordId>
  {
    if k == key then [rid] else []
  }

  // ---------------------------------------------------------------------
  // Sorted leaves, with or without duplicates

  ghost predicate Ascending(s: seq<int>)
  {
    forall i, j :: 0 <= i < j < |s| ==> s[i] <= s[j]
  }

  /** Every leaf's keys are in non-decreasing order. */
  ghost predicate SortedLeaves(n: Node)
    decreases n
  {
    match n
    case Leaf(ks, _) => Ascending(ks)
    case Internal(_, cs) => forall i :: 0 <= i < |cs| ==> SortedLeaves(cs[i])
  }

  /** Inserting at Pos keeps a sorted key list sorted, with the new key after every equal key. */
  lemma InsertSorted(keys: seq<int>, key: int)
    requires Ascending(keys)
    ensures Ascending(InsertAt(keys, Pos(keys, key), key))
    ensures forall i :: Pos(keys, key) <= i < |keys| ==> key < keys[i]
  {
  }

  ghost predicate AllSorted(cs: seq<Node>)
  {
    forall i :: 0 <= i < |cs| ==> SortedLeaves(cs[i])
  }

  /** Splitting an internal node whose leaves are sorted leaves both halves sorted. */
  lemma SplitSorted(keys: seq<int>, children: seq<Node>)
    requires |children| == |keys| + 1 && |keys| >= 1
    requires AllShaped(children)
    requires AllSorted(children)
    ensures OutSorted(SplitInternal(keys, children))
  {
    var mid := |keys| / 2;
    var left, right := children[..mid + 1], children[mid + 1..];
    forall i | 0 <= i < |left| ensures SortedLeaves(left[i]) {
      assert left[i] == children[i];
    }
    forall i | 0 <= i < |right| ensures SortedLeaves(right[i]) {
      assert right[i] == children[mid + 1 + i];
    }
  }

  /** The children after taking in a split are sorted when the old ones and both halves are. */
  lemma AbsorbedSorted(children: seq<Node>, p: nat, child: Node, entry: Node)
    requires p < |children| && AllSorted(children) && SortedLeaves(child) && SortedLeaves(entry)
    ensures AllSorted(InsertAt(children[p := child], p + 1, entry))
  {
    var cs := InsertAt(children[p := child], p + 1, entry);
    forall i | 0 <= i < |cs| ensures SortedLeaves(cs[i]) {
      if i <= p {
        assert cs[i] == children[p := child][i];
      } else if i > p + 1 {
        assert cs[i] == children[i - 1];
      }
    }
  }

  ghost predicate OutSorted(o: Outcome)
  {
    SortedLeaves(o.node) && (o.split.Some? ==> SortedLeaves(o.split.value.entry))
  }

  /** Taking in a split whose halves have sorted leaves keeps every leaf sorted. */
  lemma AbsorbSorted(order: int, keys: seq<int>, children: seq<Node>, child: Node, s: Split)
    requires |children| == |keys| + 1
    requires WellShaped(child) && WellShaped(s.entry) && AllShaped(children)
    requires AllSorted(children) && SortedLeaves(child) && SortedLeaves(s.entry)
    ensures OutSorted(Absorb(order, keys, children, child, s))
  {
    var p := Pos(keys, s.key);
    var ks := InsertAt(keys, p, s.key);
    var cs := InsertAt(children[p := child], p + 1, s.entry);
    AbsorbedSorted(children, p, child, s.entry);
    AbsorbedShaped(children, p, child, s.entry);
    assert Absorb(order, keys, children, child, s) == Settle(order, ks, cs);
    SettleSorted(order, ks, cs);
  }

  lemma SettleSorted(order: int, keys: seq<int>, children: seq<Node>)
    requires |children| == |keys| + 1 && |keys| >= 1 && AllShaped(children) && AllSorted(children)
    ensures OutSorted(Settle(order, keys, children))
  {
    if |keys| >= order {
      SplitSorted(keys, children);
    }
  }

  /** A leaf insert keeps the leaf, and both halves of its split, sorted. */
  lemma LeafInsertSorted(order: int, ks: seq<int>, ps: seq<RecordId>, key: int, rid: RecordId)
    requires |ks| == |ps| && Ascending(ks)
    ensures OutSorted(LeafInsert(order, ks, ps, key, rid))
  {
    InsertSorted(ks, key);
    var k := InsertAt(ks, Pos(ks, key), key);
    if |k| >= order {
      var o := SplitLeaf(k, InsertAt(ps, Pos(ks, key), rid));
      assert o.node.keys == k[..|o.node.keys|] && o.split.value.entry.keys == k[|o.node.keys|..];
    }
  }

  /** Leaf inserts and the splits that follow keep every leaf sorted. */
  lemma {:induction false} InsertKeepsSorted(order: int, n: Node, key: int, rid: RecordId)
    requires WellShaped(n) && SortedLeaves(n)
    ensures OutSorted(InsertNode(order, n, key, rid))
    decreases n
  {
    match n
    case Leaf(ks, ps) =>
      LeafInsertSorted(order, ks, ps, key, rid);
    case Internal(ks, cs) =>
      var idx := Pos(ks, key);
      InsertKeepsSorted(order, cs[idx], key, rid);
      var c := InsertNode(order, cs[idx], key, rid);
      var children := cs[idx := c.node];
      assert AllSorted(children);
      if c.split.Some? {
        AbsorbSorted(order, ks, children, c.node, c.split.value);
      }
  }

  /** The matches after an entry is inserted between two runs. */
  lemma MatchingInsert(k1: seq<int>, p1: seq<RecordId>, key: int, rid: RecordId, k2: seq<int>, p2: seq<RecordId>, k: int)
    requires |k1| == |p1| && |k2| == |p2|
    ensures Matching(k1 + [key] + k2, p1 + [rid] + p2, k) == Matching(k1, p1, k) + Added(key, rid, k) + Matching(k2, p2, k)
  {
    MatchingAppend(k1 + [key], p1 + [rid], k2, p2, k);
    MatchingAppend(k1, p1, [key], [rid], k);
    MatchingSingle([key], [rid], k);
  }

  lemma MatchingSingle(ks: seq<int>, ps: seq<RecordId>, k: int)
    requires |ks| == |ps| == 1
    ensures Matching(ks, ps, k) == Added(ks[0], ps[0], k)
  {
    assert ks[..0] == [] && ps[..0] == [];
  }

  /** The leaf after inserting at position p, as the two runs around the new entry. */
  lemma InsertAtRuns(ks: seq<int>, ps: seq<RecordId>, p: nat, key: int, rid: RecordId, k: int)
    requires |ks| == |ps| && p <= |ks|
    ensures Matching(InsertAt(ks, p, key), InsertAt(ps, p, rid), k)
         == Matching(ks[..p], ps[..p], k) + Added(key, rid, k) + Matching(ks[p..], ps[p..], k)
    ensures Matching(ks, ps, k) == Matching(ks[..p], ps[..p], k) + Matching(ks[p..], ps[p..], k)
  {
    MatchingInsert(ks[..p], ps[..p], key, rid, ks[p..], ps[p..], k);
    MatchingRuns(ks, ps, p, k);
  }

  /** The matches of a leaf are those of its entries before p, then those from p on. */
  lemma MatchingRuns(ks: seq<int>, ps: seq<RecordId>, p: nat, k: int)
    requires |ks| == |ps| && p <= |ks|
    ensures Matching(ks, ps, k) == Matching(ks[..p], ps[..p], k) + Matching(ks[p..], ps[p..], k)
  {
    var k1, k2, p1, p2 := ks[..p], ks[p..], ps[..p], ps[p..];
    MatchingAppend(k1, p1, k2, p2, k);
    assert ks == k1 + k2;
    assert ps == p1 + p2;
  }

  /** In a sorted leaf, a key inserted at Pos is matched after every equal key. */
  lemma LeafAppends(ks: seq<int>, ps: seq<RecordId>, key: int, rid: RecordId)
    requires |ks| == |ps| && Ascending(ks)
    ensures Matching(InsertAt(ks, Pos(ks, key), key), InsertAt(ps, Pos(ks, key), rid), key) == Matching(ks, ps, key) + [rid]
  {
    var p := Pos(ks, key);
    InsertSorted(ks, key);
    assert key !in ks[p..];
    MatchingNone(ks[p..], ps[p..], key);
    InsertAtRuns(ks, ps, p, key, rid, key);
  }

  /** Repeated keys that do not fill their leaf: when the leaf the search
      reaches has room, an insert splits nothing and the search returns the
      earlier matches followed by the new record id, in insertion order. */
  lemma {:induction false} DuplicatesAppend(order: int, n: Node, key: int, rid: RecordId)
    requires WellShaped(n) && SortedLeaves(n)
    requires |LeafFor(n, key).keys| + 1 < order
    ensures InsertNode(order, n, key, rid).split.None?
    ensures Lookup(InsertNode(order, n, key, rid).node, key) == Lookup(n, key) + [rid]
    decreases n
  {
    match n
    case Leaf(ks, ps) =>
      LeafAppends(ks, ps, key, rid);
    case Internal(ks, cs) =>
      var idx := Pos(ks, key);
      DuplicatesAppend(order, cs[idx], key, rid);
      var c := InsertNode(order, cs[idx], key, rid);
      assert InsertNode(order, n, key, rid).node == Internal(ks, cs[idx := c.node]);
      assert LeafFor(Internal(ks, cs[idx := c.node]), key) == LeafFor(c.node, key);
  }

  /** A tree whose target leaf has room: the search after the insert returns
      the matches before it followed by the new record id. */
  lemma DuplicateInsertAppends(order: int, root: Node, key: int, rid: RecordId)
    requires WellShaped(root) && SortedLeaves(root)
    requires |LeafFor(root, key).keys| + 1 < order
    ensures Lookup(TreeInsert(order, root, key, rid), key) == Lookup(root, key) + [rid]
  {
    DuplicatesAppend(order, root, key, rid);
  }

  // ---------------------------------------------------------------------
  // Search completeness for distinct keys

  ghost predicate Increasing(s: seq<int>)
  {
    forall i, j :: 0 <= i < j < |s| ==> s[i] < s[j]
  }

  /** lo <= k < hi, a missing bound being no bound. */
  ghost predicate InRange(k: int, lo: Option<int>, hi: Option<int>)
  {
    (lo.Some? ==> lo.value <= k) && (hi.Some? ==> k < hi.value)
  }

  /** lo < k < hi, a missing bound being no bound. */
  ghost predicate Inside(k: int, lo: Option<int>, hi: Option<int>)
  {
    (lo.Some? ==> lo.value < k) && (hi.Some? ==> k < hi.value)
  }

  /** The lower bound of child i's keys: the separator before it. */
  function LoOf(keys: seq<int>, lo: Option<int>, i: nat): Option<int>
    requires i <= |keys|
  {
    if i == 0 then lo else Some(keys[i - 1])
  }

  /** The upper bound of child i's keys: the separator after it. */
  function HiOf(keys: seq<int>, hi: Option<int>, i: nat): Option<int>
    requires i <= |keys|
  {
    if i == |keys| then hi else Some(keys[i])
  }

  /** A search tree for keys in [lo, hi) with distinct keys: leaf keys strictly
      ascending, separators strictly ascending and strictly inside the bounds,
      and child i holding only keys in [separator i-1, separator i). */
  ghost predicate Ordered(n: Node, lo: Option<int>, hi: Option<int>)
    decreases n
  {
    match n
    case Leaf(ks, _) => Increasing(ks) && forall i :: 0 <= i < |ks| ==> InRange(ks[i], lo, hi)
    case Internal(ks, cs) =>
      |cs| == |ks| + 1 && Increasing(ks) && (forall i :: 0 <= i < |ks| ==> Inside(ks[i], lo, hi))
      && forall i :: 0 <= i < |cs| ==> Ordered(cs[i], LoOf(ks, lo, i), HiOf(ks, hi, i))
  }

  /** An outcome is ordered when its node, or its two halves around the split key, are. */
  ghost predicate OrderedOut(o: Outcome, lo: Option<int>, hi: Option<int>)
  {
    if o.split.None? then Ordered(o.node, lo, hi)
    else
      var s := o.split.value;
      Inside(s.key, lo, hi) && Ordered(o.node, lo, Some(s.key)) && Ordered(s.entry, Some(s.key), hi)
  }

  /** Every search in [lo, hi) through the outcome finds what it found in n, plus the new entry. */
  ghost predicate Grows(n: Node, o: Outcome, lo: Option<int>, hi: Option<int>, key: int, rid: RecordId)
    requires WellShaped(n) && OutShaped(o)
  {
    forall k :: InRange(k, lo, hi) ==> SearchOut(o, k) == Lookup(n, k) + Added(key, rid, k)
  }

  /** A key in range lies in the range of the child findChildIndex picks. */
  lemma ChildRange(keys: seq<int>, lo: Option<int>, hi: Option<int>, k: int)
    requires InRange(k, lo, hi)
    ensures InRange(k, LoOf(keys, lo, Pos(keys, k)), HiOf(keys, hi, Pos(keys, k)))
  {
  }

  /** Conversely, with ascending separators a key in child j's range makes findChildIndex pick j. */
  lemma PickedChild(keys: seq<int>, lo: Option<int>, hi: Option<int>, j: nat, k: int)
    requires j <= |keys| && Increasing(keys)
    requires InRange(k, LoOf(keys, lo, j), HiOf(keys, hi, j))
    ensures Pos(keys, k) == j
  {
    PosIs(keys, k, j);
  }

  lemma LookupInternal(keys: seq<int>, children: seq<Node>, k: int)
    requires |children| == |keys| + 1 && AllShaped(children)
    ensures WellShaped(Internal(keys, children))
    ensures Lookup(Internal(keys, children), k) == Lookup(children[Pos(keys, k)], k)
  {
  }

  /** Positions in the separators after one is inserted at its own position. */
  lemma PosInsert(keys: seq<int>, idx: nat, sk: int, k: int)
    requires idx <= |keys| && Pos(keys, sk) == idx
    ensures Pos(InsertAt(keys, idx, sk), k) ==
      if Pos(keys, k) < idx then Pos(keys, k)
      else if Pos(keys, k) > idx then Pos(keys, k) + 1
      else if k < sk then idx else idx + 1
  {
    var p := Pos(keys, k);
    if p < idx {
      PosInsertBefore(keys, idx, sk, k);
    } else if p > idx {
      PosInsertAfter(keys, idx, sk, k);
    } else {
      PosInsertAt(keys, idx, sk, k);
    }
  }

  lemma PosInsertBefore(keys: seq<int>, idx: nat, sk: int, k: int)
    requires idx <= |keys| && Pos(keys, sk) == idx && Pos(keys, k) < idx
    ensures Pos(InsertAt(keys, idx, sk), k) == Pos(keys, k)
  {
    PosIs(InsertAt(keys, idx, sk), k, Pos(keys, k));
  }

  lemma PosInsertAfter(keys: seq<int>, idx: nat, sk: int, k: int)
    requires idx <= |keys| && Pos(keys, sk) == idx && Pos(keys, k) > idx
    ensures Pos(InsertAt(keys, idx, sk), k) == Pos(keys, k) + 1
  {
    assert sk < keys[idx] <= k;
    PosIs(InsertAt(keys, idx, sk), k, Pos(keys, k) + 1);
  }

  lemma PosInsertAt(keys: seq<int>, idx: nat, sk: int, k: int)
    requires idx <= |keys| && Pos(keys, sk) == idx && Pos(keys, k) == idx
    ensures Pos(InsertAt(keys, idx, sk), k) == if k < sk then idx else idx + 1
  {
    PosIs(InsertAt(keys, idx, sk), k, if k < sk then idx else idx + 1);
  }

  /** A search for a key below keys[m] stops in the prefix keys[..m]. */
  lemma PosPrefix(keys: seq<int>, m: nat, k: int)
    requires m < |keys| && k < keys[m]
    ensures Pos(keys, k) <= m && Pos(keys[..m], k) == Pos(keys, k)
  {
    PosIs(keys[..m], k, Pos(keys, k));
  }

  /** A search for a key at or above keys[m] in sorted keys stops past m. */
  lemma PosSuffix(keys: seq<int>, m: nat, k: int)
    requires m < |keys| && Increasing(keys) && keys[m] <= k
    ensures Pos(keys, k) > m && Pos(keys[m + 1..], k) == Pos(keys, k) - m - 1
  {
    PosIs(keys[m + 1..], k, Pos(keys, k) - m - 1);
  }

  /** Splitting a leaf with distinct keys in range gives two ordered halves around the split key. */
  lemma SplitLeafOrdered(keys: seq<int>, pointers: seq<RecordId>, lo: Option<int>, hi: Option<int>)
    requires |keys| == |pointers| >= 2 && Ordered(Leaf(keys, pointers), lo, hi)
    ensures OrderedOut(SplitLeaf(keys, pointers), lo, hi)
  {
    var mid := |keys| / 2;
    assert keys[0] < keys[mid];
    LeafRunOrdered(keys, lo, hi, 0, mid, lo, Some(keys[mid]));
    LeafRunOrdered(keys, lo, hi, mid, |keys|, Some(keys[mid]), hi);
  }

  /** A run of strictly ascending keys lies between its first key and the key after it. */
  lemma LeafRunOrdered(keys: seq<int>, lo: Option<int>, hi: Option<int>, i: nat, j: nat, lo2: Option<int>, hi2: Option<int>)
    requires i < j <= |keys| && Increasing(keys) && forall m :: 0 <= m < |keys| ==> InRange(keys[m], lo, hi)
    requires lo2 == (if i == 0 then lo else Some(keys[i]))
    requires hi2 == (if j == |keys| then hi else Some(keys[j]))
    ensures Increasing(keys[i..j]) && forall m :: 0 <= m < j - i ==> InRange(keys[i..j][m], lo2, hi2)
  {
    var r := keys[i..j];
    assert forall m :: 0 <= m < |r| ==> r[m] == keys[i + m];
  }

  /** No key below keys[m] occurs from m on in ascending keys. */
  lemma AbsentAbove(keys: seq<int>, m: nat, k: int)
    requires m < |keys| && Increasing(keys) && k < keys[m]
    ensures k !in keys[m..]
  {
    var r := keys[m..];
    forall i | 0 <= i < |r| ensures r[i] != k {
      assert r[i] == keys[m + i];
    }
  }

  /** No key at or above keys[m] occurs before m in ascending keys. */
  lemma AbsentBelow(keys: seq<int>, m: nat, k: int)
    requires m < |keys| && Increasing(keys) && keys[m] <= k
    ensures k !in keys[..m]
  {
    var l := keys[..m];
    forall i | 0 <= i < |l| ensures l[i] != k {
      assert l[i] == keys[i];
    }
  }

  /** Splitting a leaf with distinct keys changes no search result. */
  lemma SplitLeafSearch(keys: seq<int>, pointers: seq<RecordId>, k: int)
    requires |keys| == |pointers| >= 1 && Increasing(keys)
    ensures SearchOut(SplitLeaf(keys, pointers), k) == Matching(keys, pointers, k)
  {
    var mid := |keys| / 2;
    var k1, k2, p1, p2 := keys[..mid], keys[mid..], pointers[..mid], pointers[mid..];
    assert keys == k1 + k2 && pointers == p1 + p2;
    MatchingAppend(k1, p1, k2, p2, k);
    if k < keys[mid] {
      AbsentAbove(keys, mid, k);
      MatchingNone(k2, p2, k);
    } else {
      AbsentBelow(keys, mid, k);
      MatchingNone(k1, p1, k);
    }
  }

  /** The left half of a split keeps keys [0, mid) and children [0, mid], bounded by the key that moves up. */
  lemma LeftHalfOrdered(keys: seq<int>, children: seq<Node>, lo: Option<int>, hi: Option<int>, mid: nat)
    requires |children| == |keys| + 1 && mid < |keys|
    requires Ordered(Internal(keys, children), lo, hi)
    ensures Ordered(Internal(keys[..mid], children[..mid + 1]), lo, Some(keys[mid]))
  {
    var lk, lc := keys[..mid], children[..mid + 1];
    assert forall i :: 0 <= i < |lk| ==> lk[i] == keys[i];
    forall j | 0 <= j < |lc| ensures Ordered(lc[j], LoOf(lk, lo, j), HiOf(lk, Some(keys[mid]), j)) {
      assert lc[j] == children[j];
      assert LoOf(lk, lo, j) == LoOf(keys, lo, j);
      assert HiOf(lk, Some(keys[mid]), j) == HiOf(keys, hi, j);
    }
  }

  /** The right half of a split gets the keys and children after mid, bounded below by the key that moves up. */
  lemma RightHalfOrdered(keys: seq<int>, children: seq<Node>, lo: Option<int>, hi: Option<int>, mid: nat)
    requires |children| == |keys| + 1 && mid < |keys|
    requires Ordered(Internal(keys, children), lo, hi)
    ensures Ordered(Internal(keys[mid + 1..], children[mid + 1..]), Some(keys[mid]), hi)
  {
    var rk, rc := keys[mid + 1..], children[mid + 1..];
    assert forall i :: 0 <= i < |rk| ==> rk[i] == keys[mid + 1 + i];
    forall j | 0 <= j < |rc| ensures Ordered(rc[j], LoOf(rk, Some(keys[mid]), j), HiOf(rk, hi, j)) {
      assert rc[j] == children[mid + 1 + j];
      assert LoOf(rk, Some(keys[mid]), j) == LoOf(keys, lo, mid + 1 + j);
      assert HiOf(rk, hi, j) == HiOf(keys, hi, mid + 1 + j);
    }
  }

  /** Splitting an ordered internal node gives two ordered halves around the key that moves up. */
  lemma SplitInternalOrdered(keys: seq<int>, children: seq<Node>, lo: Option<int>, hi: Option<int>)
    requires |children| == |keys| + 1 && |keys| >= 1 && AllShaped(children)
    requires Ordered(Internal(keys, children), lo, hi)
    ensures OrderedOut(SplitInternal(keys, children), lo, hi)
  {
    LeftHalfOrdered(keys, children, lo, hi, |keys| / 2);
    RightHalfOrdered(keys, children, lo, hi, |keys| / 2);
  }

  /** Splitting an internal node with ascending separators changes no search result. */
  lemma SplitInternalSearch(keys: seq<int>, children: seq<Node>, k: int)
    requires |children| == |keys| + 1 && |keys| >= 1 && AllShaped(children) && Increasing(keys)
    ensures SearchOut(SplitInternal(keys, children), k) == Lookup(Internal(keys, children), k)
  {
    var mid := |keys| / 2;
    var lk, lc := keys[..mid], children[..mid + 1];
    var rk, rc := keys[mid + 1..], children[mid + 1..];
    LookupInternal(keys, children, k);
    if k < keys[mid] {
      PosPrefix(keys, mid, k);
      LookupInternal(lk, lc, k);
      assert lc[Pos(lk, k)] == children[Pos(keys, k)];
    } else {
      PosSuffix(keys, mid, k);
      LookupInternal(rk, rc, k);
      assert rc[Pos(rk, k)] == children[Pos(keys, k)];
    }
  }

  /** A key placed strictly between its neighbours keeps the keys strictly ascending. */
  lemma IncreasingInsert(keys: seq<int>, idx: nat, k: int)
    requires idx <= |keys| && Increasing(keys)
    requires idx > 0 ==> keys[idx - 1] < k
    requires idx < |keys| ==> k < keys[idx]
    ensures Increasing(InsertAt(keys, idx, k))
  {
    var r := InsertAt(keys, idx, k);
    forall i, j | 0 <= i < j < |r| ensures r[i] < r[j] {
      if i < idx && j > idx {
        assert r[i] <= keys[idx - 1] < k;
      } else if i == idx && j > idx {
        assert k < keys[idx] <= r[j];
      }
    }
  }

  lemma NotInSlices(ks: seq<int>, p: nat, key: int)
    requires p <= |ks| && key !in ks
    ensures key !in ks[..p] && key !in ks[p..]
  {
    assert ks == ks[..p] + ks[p..];
  }

  /** The matches of a leaf after inserting a key it did not hold. */
  lemma InsertedMatches(ks: seq<int>, ps: seq<RecordId>, key: int, rid: RecordId, k: int)
    requires |ks| == |ps| && key !in ks
    ensures Matching(InsertAt(ks, Pos(ks, key), key), InsertAt(ps, Pos(ks, key), rid), k) == Matching(ks, ps, k) + Added(key, rid, k)
  {
    if k == key {
      NewKeyMatches(ks, ps, key, rid);
    } else {
      OtherKeyMatches(ks, ps, Pos(ks, key), key, rid, k);
    }
  }

  lemma NewKeyMatches(ks: seq<int>, ps: seq<RecordId>, key: int, rid: RecordId)
    requires |ks| == |ps| && key !in ks
    ensures Matching(InsertAt(ks, Pos(ks, key), key), InsertAt(ps, Pos(ks, key), rid), key) == [rid]
    ensures Matching(ks, ps, key) == []
  {
    var p := Pos(ks, key);
    InsertAtRuns(ks, ps, p, key, rid, key);
    NotInSlices(ks, p, key);
    MatchingNone(ks[..p], ps[..p], key);
    MatchingNone(ks[p..], ps[p..], key);
    MatchingNone(ks, ps, key);
  }

  lemma OtherKeyMatches(ks: seq<int>, ps: seq<RecordId>, p: nat, key: int, rid: RecordId, k: int)
    requires |ks| == |ps| && p <= |ks| && k != key
    ensures Matching(InsertAt(ks, p, key), InsertAt(ps, p, rid), k) == Matching(ks, ps, k) + Added(key, rid, k)
  {
    InsertAtRuns(ks, ps, p, key, rid, k);
    EmptyBetween(Matching(ks[..p], ps[..p], k), Added(key, rid, k), Matching(ks[p..], ps[p..], k));
  }

  /** An empty piece between two sequences drops out of their concatenation. */
  lemma EmptyBetween<T>(a: seq<T>, e: seq<T>, b: seq<T>)
    requires e == []
    ensures a + e + b == a + b == (a + b) + e
  {
  }

  /** A leaf insert of a new key in range, with the split that may follow:
      ordered halves, and searches that find the new entry and nothing else new. */
  lemma LeafInsertOrdered(order: int, ks: seq<int>, ps: seq<RecordId>, lo: Option<int>, hi: Option<int>, key: int, rid: RecordId)
    requires order >= 2 && |ks| == |ps| && Ordered(Leaf(ks, ps), lo, hi) && InRange(key, lo, hi) && key !in ks
    ensures OrderedOut(LeafInsert(order, ks, ps, key, rid), lo, hi)
    ensures Grows(Leaf(ks, ps), LeafInsert(order, ks, ps, key, rid), lo, hi, key, rid)
  {
    var p := Pos(ks, key);
    var nk, np := InsertAt(ks, p, key), InsertAt(ps, p, rid);
    InsertedLeafOrdered(ks, ps, lo, hi, key, rid);
    if |nk| >= order {
      assert LeafInsert(order, ks, ps, key, rid) == SplitLeaf(nk, np);
      SplitLeafOrdered(nk, np, lo, hi);
    } else {
      assert LeafInsert(order, ks, ps, key, rid) == Outcome(Leaf(nk, np), None);
    }
    LeafInsertGrows(order, ks, ps, lo, hi, key, rid);
  }

  /** The leaf with a new key in range inserted at its position is still ordered. */
  lemma InsertedLeafOrdered(ks: seq<int>, ps: seq<RecordId>, lo: Option<int>, hi: Option<int>, key: int, rid: RecordId)
    requires |ks| == |ps| && Ordered(Leaf(ks, ps), lo, hi) && InRange(key, lo, hi) && key !in ks
    ensures Ordered(Leaf(InsertAt(ks, Pos(ks, key), key), InsertAt(ps, Pos(ks, key), rid)), lo, hi)
  {
    var p := Pos(ks, key);
    var nk := InsertAt(ks, p, key);
    IncreasingInsert(ks, p, key);
    forall i | 0 <= i < |nk| ensures InRange(nk[i], lo, hi) {
      if i < p {
        assert nk[i] == ks[i];
      } else if i > p {
        assert nk[i] == ks[i - 1];
      }
    }
  }

  /** A leaf insert of a key the leaf does not hold, split or not, finds the
      new entry for its key and what it found before for every other key. */
  lemma LeafInsertGrows(order: int, ks: seq<int>, ps: seq<RecordId>, lo: Option<int>, hi: Option<int>, key: int, rid: RecordId)
    requires |ks| == |ps| && Increasing(ks) && key !in ks
    ensures Grows(Leaf(ks, ps), LeafInsert(order, ks, ps, key, rid), lo, hi, key, rid)
  {
    var p := Pos(ks, key);
    var nk, np := InsertAt(ks, p, key), InsertAt(ps, p, rid);
    IncreasingInsert(ks, p, key);
    var o := LeafInsert(order, ks, ps, key, rid);
    forall k | InRange(k, lo, hi) ensures SearchOut(o, k) == Lookup(Leaf(ks, ps), k) + Added(key, rid, k) {
      if |nk| >= order {
        SplitLeafSearch(nk, np, k);
      }
      InsertedMatches(ks, ps, key, rid, k);
    }
  }

  /** The children after taking in a split keep their ranges: the two halves
      sit either side of the new separator. */
  lemma AbsorbedChildrenOrdered(ks: seq<int>, cs: seq<Node>, lo: Option<int>, hi: Option<int>, idx: nat, c: Node, sk: int, e: Node)
    requires |cs| == |ks| + 1 && idx <= |ks|
    requires forall i :: 0 <= i < |cs| ==> Ordered(cs[i], LoOf(ks, lo, i), HiOf(ks, hi, i))
    requires Ordered(c, LoOf(ks, lo, idx), Some(sk)) && Ordered(e, Some(sk), HiOf(ks, hi, idx))
    ensures var nk, nc := InsertAt(ks, idx, sk), InsertAt(cs[idx := c], idx + 1, e);
      forall j :: 0 <= j < |nc| ==> Ordered(nc[j], LoOf(nk, lo, j), HiOf(nk, hi, j))
  {
    var nk, nc := InsertAt(ks, idx, sk), InsertAt(cs[idx := c], idx + 1, e);
    forall j | 0 <= j < |nc| ensures Ordered(nc[j], LoOf(nk, lo, j), HiOf(nk, hi, j)) {
      if j < idx {
        assert nc[j] == cs[j] && LoOf(nk, lo, j) == LoOf(ks, lo, j) && HiOf(nk, hi, j) == HiOf(ks, hi, j);
      } else if j == idx {
        assert nc[j] == c && LoOf(nk, lo, j) == LoOf(ks, lo, idx) && HiOf(nk, hi, j) == Some(sk);
      } else if j == idx + 1 {
        assert nc[j] == e && LoOf(nk, lo, j) == Some(sk) && HiOf(nk, hi, j) == HiOf(ks, hi, idx);
      } else {
        assert nc[j] == cs[j - 1] && LoOf(nk, lo, j) == LoOf(ks, lo, j - 1) && HiOf(nk, hi, j) == HiOf(ks, hi, j - 1);
      }
    }
  }

  /** Taking in the split of child idx keeps an internal node ordered. */
  lemma AbsorbOrdered(ks: seq<int>, cs: seq<Node>, lo: Option<int>, hi: Option<int>, idx: nat, c: Node, sk: int, e: Node)
    requires |cs| == |ks| + 1 && idx <= |ks|
    requires Ordered(Internal(ks, cs), lo, hi)
    requires Inside(sk, LoOf(ks, lo, idx), HiOf(ks, hi, idx))
    requires Ordered(c, LoOf(ks, lo, idx), Some(sk)) && Ordered(e, Some(sk), HiOf(ks, hi, idx))
    ensures Ordered(Internal(InsertAt(ks, idx, sk), InsertAt(cs[idx := c], idx + 1, e)), lo, hi)
  {
    var nk := InsertAt(ks, idx, sk);
    IncreasingInsert(ks, idx, sk);
    assert Inside(sk, lo, hi);
    assert forall i :: 0 <= i < |nk| ==> Inside(nk[i], lo, hi);
    AbsorbedChildrenOrdered(ks, cs, lo, hi, idx, c, sk, e);
  }

  lemma AbsorbedShaped(cs: seq<Node>, idx: nat, c: Node, e: Node)
    requires idx < |cs| && AllShaped(cs) && WellShaped(c) && WellShaped(e)
    ensures AllShaped(InsertAt(cs[idx := c], idx + 1, e))
  {
    var nc := InsertAt(cs[idx := c], idx + 1, e);
    forall j | 0 <= j < |nc| ensures WellShaped(nc[j]) {
      if j < idx { assert nc[j] == cs[j]; } else if j > idx + 1 { assert nc[j] == cs[j - 1]; }
    }
  }

  /** A search through a node that took in a split, for a key that went to
      an earlier child: it goes to the same child. */
  lemma AbsorbSearchBefore(ks: seq<int>, cs: seq<Node>, idx: nat, c: Node, sk: int, e: Node, k: int)
    requires |cs| == |ks| + 1 && idx <= |ks| && Pos(ks, sk) == idx && Pos(ks, k) < idx
    requires AllShaped(InsertAt(cs[idx := c], idx + 1, e))
    ensures WellShaped(cs[Pos(ks, k)])
    ensures Lookup(Internal(InsertAt(ks, idx, sk), InsertAt(cs[idx := c], idx + 1, e)), k) == Lookup(cs[Pos(ks, k)], k)
  {
    PosInsert(ks, idx, sk, k);
    var j := Pos(ks, k);
    ChildLookup(InsertAt(ks, idx, sk), InsertAt(cs[idx := c], idx + 1, e), k, j, cs[j]);
  }

  /** The same for a key that went to a later child: it goes to that child, one place up. */
  lemma AbsorbSearchAfter(ks: seq<int>, cs: seq<Node>, idx: nat, c: Node, sk: int, e: Node, k: int)
    requires |cs| == |ks| + 1 && idx <= |ks| && Pos(ks, sk) == idx && Pos(ks, k) > idx
    requires AllShaped(InsertAt(cs[idx := c], idx + 1, e))
    ensures WellShaped(cs[Pos(ks, k)])
    ensures Lookup(Internal(InsertAt(ks, idx, sk), InsertAt(cs[idx := c], idx + 1, e)), k) == Lookup(cs[Pos(ks, k)], k)
  {
    PosInsert(ks, idx, sk, k);
    var j := Pos(ks, k);
    ChildLookup(InsertAt(ks, idx, sk), InsertAt(cs[idx := c], idx + 1, e), k, j + 1, cs[j]);
  }

  /** The same for a key that went to the child that split: it goes to the
      half the split key points it to. */
  lemma AbsorbSearchSplit(ks: seq<int>, cs: seq<Node>, idx: nat, c: Node, sk: int, e: Node, k: int)
    requires |cs| == |ks| + 1 && idx <= |ks| && Pos(ks, sk) == idx && Pos(ks, k) == idx
    requires WellShaped(c) && WellShaped(e) && AllShaped(InsertAt(cs[idx := c], idx + 1, e))
    ensures Lookup(Internal(InsertAt(ks, idx, sk), InsertAt(cs[idx := c], idx + 1, e)), k) == if sk <= k then Lookup(e, k) else Lookup(c, k)
  {
    PosInsert(ks, idx, sk, k);
    var nk, nc := InsertAt(ks, idx, sk), InsertAt(cs[idx := c], idx + 1, e);
    if k < sk {
      ChildLookup(nk, nc, k, idx, c);
    } else {
      ChildLookup(nk, nc, k, idx + 1, e);
    }
  }

  /** A search through an internal node whose chosen child is n is a search in n. */
  lemma ChildLookup(keys: seq<int>, children: seq<Node>, k: int, j: nat, n: Node)
    requires |children| == |keys| + 1 && AllShaped(children)
    requires Pos(keys, k) == j && j < |children| && children[j] == n
    ensures WellShaped(n) && Lookup(Internal(keys, children), k) == Lookup(n, k)
  {
    LookupInternal(keys, children, k);
  }

  /** After the child's insert reports no split, the node is ordered and its searches grow by the new entry. */
  lemma NoSplitStep(ks: seq<int>, cs: seq<Node>, lo: Option<int>, hi: Option<int>, idx: nat, key: int, rid: RecordId, c: Node)
    requires |cs| == |ks| + 1 && AllShaped(cs) && WellShaped(c)
    requires Ordered(Internal(ks, cs), lo, hi) && idx == Pos(ks, key)
    requires Ordered(c, LoOf(ks, lo, idx), HiOf(ks, hi, idx))
    requires Grows(cs[idx], Outcome(c, None), LoOf(ks, lo, idx), HiOf(ks, hi, idx), key, rid)
    ensures AllShaped(cs[idx := c])
    ensures Ordered(Internal(ks, cs[idx := c]), lo, hi)
    ensures Grows(Internal(ks, cs), Outcome(Internal(ks, cs[idx := c]), None), lo, hi, key, rid)
  {
    var nc := cs[idx := c];
    assert forall j :: 0 <= j < |nc| ==> Ordered(nc[j], LoOf(ks, lo, j), HiOf(ks, hi, j));
    forall k | InRange(k, lo, hi)
      ensures Lookup(Internal(ks, nc), k) == Lookup(Internal(ks, cs), k) + Added(key, rid, k)
    {
      LookupInternal(ks, nc, k);
      LookupInternal(ks, cs, k);
      if Pos(ks, k) == idx {
        ChildRange(ks, lo, hi, k);
        assert SearchOut(Outcome(c, None), k) == Lookup(c, k);
      }
    }
  }

  /** After the child's insert reports a split, the node holding both halves
      (before any split of its own) finds the new entry and nothing else new. */
  lemma AbsorbGrows(ks: seq<int>, cs: seq<Node>, lo: Option<int>, hi: Option<int>, idx: nat, key: int, rid: RecordId, c: Outcome)
    requires |cs| == |ks| + 1 && AllShaped(cs) && OutShaped(c) && c.split.Some?
    requires Increasing(ks) && idx == Pos(ks, key) && idx == Pos(ks, c.split.value.key)
    requires Grows(cs[idx], c, LoOf(ks, lo, idx), HiOf(ks, hi, idx), key, rid)
    ensures var nk, nc := InsertAt(ks, idx, c.split.value.key), InsertAt(cs[idx := c.node], idx + 1, c.split.value.entry);
      AllShaped(nc) &&
      |nc| == |nk| + 1 && Grows(Internal(ks, cs), Outcome(Internal(nk, nc), None), lo, hi, key, rid)
  {
    var sk, e := c.split.value.key, c.split.value.entry;
    var nk, nc := InsertAt(ks, idx, sk), InsertAt(cs[idx := c.node], idx + 1, e);
    AbsorbedShaped(cs, idx, c.node, e);
    forall k | InRange(k, lo, hi)
      ensures Lookup(Internal(nk, nc), k) == Lookup(Internal(ks, cs), k) + Added(key, rid, k)
    {
      LookupInternal(ks, cs, k);
      if Pos(ks, k) < idx {
        AbsorbSearchBefore(ks, cs, idx, c.node, sk, e, k);
      } else if Pos(ks, k) > idx {
        AbsorbSearchAfter(ks, cs, idx, c.node, sk, e, k);
      } else {
        AbsorbSearchSplit(ks, cs, idx, c.node, sk, e, k);
        ChildRange(ks, lo, hi, k);
      }
    }
  }

  /** The node that took in a split, splitting itself when it reaches order
      keys: ordered, and finding what the node before the insert found plus the new entry. */
  lemma MaybeSplitGrows(order: int, nk: seq<int>, nc: seq<Node>, lo: Option<int>, hi: Option<int>, n: Node, key: int, rid: RecordId)
    requires |nc| == |nk| + 1 && |nk| >= 1 && AllShaped(nc) && WellShaped(n)
    requires Ordered(Internal(nk, nc), lo, hi)
    requires Grows(n, Outcome(Internal(nk, nc), None), lo, hi, key, rid)
    ensures OrderedOut(Settle(order, nk, nc), lo, hi) && Grows(n, Settle(order, nk, nc), lo, hi, key, rid)
  {
    if |nk| >= order {
      SplitInternalOrdered(nk, nc, lo, hi);
      forall k | InRange(k, lo, hi) ensures SearchOut(SplitInternal(nk, nc), k) == Lookup(n, k) + Added(key, rid, k) {
        SplitInternalSearch(nk, nc, k);
      }
    }
  }

  /** Absorb when the child at the split key's position already is the child that split. */
  lemma AbsorbIs(order: int, ks: seq<int>, children: seq<Node>, idx: nat, child: Node, s: Split)
    requires |children| == |ks| + 1 && AllShaped(children) && WellShaped(child) && WellShaped(s.entry)
    requires Pos(ks, s.key) == idx && children[idx] == child
    requires AllShaped(InsertAt(children, idx + 1, s.entry))
    ensures Absorb(order, ks, children, child, s) ==
      Settle(order, InsertAt(ks, idx, s.key), InsertAt(children, idx + 1, s.entry))
  {
    assert children[idx := child] == children;
  }

  /** An internal node taking in its child's split, before any split of its
      own: the split key lands at the child's own position, and the node stays
      a search tree that finds what it found before plus the new entry. */
  lemma AbsorbStep(ks: seq<int>, cs: seq<Node>, lo: Option<int>, hi: Option<int>, key: int, rid: RecordId, c: Outcome)
    requires |cs| == |ks| + 1 && AllShaped(cs) && Ordered(Internal(ks, cs), lo, hi)
    requires OutShaped(c) && c.split.Some?
    requires OrderedOut(c, LoOf(ks, lo, Pos(ks, key)), HiOf(ks, hi, Pos(ks, key)))
    requires Grows(cs[Pos(ks, key)], c, LoOf(ks, lo, Pos(ks, key)), HiOf(ks, hi, Pos(ks, key)), key, rid)
    ensures Pos(ks, c.split.value.key) == Pos(ks, key)
    ensures var idx := Pos(ks, key);
      var nk, nc := InsertAt(ks, idx, c.split.value.key), InsertAt(cs[idx := c.node], idx + 1, c.split.value.entry);
      AllShaped(nc) && Ordered(Internal(nk, nc), lo, hi) &&
      |nc| == |nk| + 1 && Grows(Internal(ks, cs), Outcome(Internal(nk, nc), None), lo, hi, key, rid)
  {
    var idx := Pos(ks, key);
    var sk, e := c.split.value.key, c.split.value.entry;
    PickedChild(ks, lo, hi, idx, sk);
    AbsorbOrdered(ks, cs, lo, hi, idx, c.node, sk, e);
    AbsorbGrows(ks, cs, lo, hi, idx, key, rid, c);
  }

  /** An internal node whose child reported a split takes it in and stays a
      search tree that finds the new entry. */
  lemma SplitStep(order: int, ks: seq<int>, cs: seq<Node>, lo: Option<int>, hi: Option<int>, key: int, rid: RecordId, c: Outcome)
    requires |cs| == |ks| + 1 && AllShaped(cs) && Ordered(Internal(ks, cs), lo, hi)
    requires OutShaped(c) && c.split.Some?
    requires OrderedOut(c, LoOf(ks, lo, Pos(ks, key)), HiOf(ks, hi, Pos(ks, key)))
    requires Grows(cs[Pos(ks, key)], c, LoOf(ks, lo, Pos(ks, key)), HiOf(ks, hi, Pos(ks, key)), key, rid)
    ensures AllShaped(cs[Pos(ks, key) := c.node])
    ensures var o := Absorb(order, ks, cs[Pos(ks, key) := c.node], c.node, c.split.value);
      OrderedOut(o, lo, hi) && Grows(Internal(ks, cs), o, lo, hi, key, rid)
  {
    var idx := Pos(ks, key);
    AbsorbStep(ks, cs, lo, hi, key, rid, c);
    var children := cs[idx := c.node];
    assert AllShaped(children);
    var nk, nc := InsertAt(ks, idx, c.split.value.key), InsertAt(children, idx + 1, c.split.value.entry);
    AbsorbIs(order, ks, children, idx, c.node, c.split.value);
    MaybeSplitGrows(order, nk, nc, lo, hi, Internal(ks, cs), key, rid);
  }

  /** Inserting a key a search tree does not hold, into a node with at least
      two slots per leaf: the outcome is ordered around its split key, and
      every search in range finds what it found before, plus the new entry
      for its own key. */
  lemma {:induction false} InsertOrdered(order: int, n: Node, lo: Option<int>, hi: Option<int>, key: int, rid: RecordId)
    requires order >= 2 && WellShaped(n) && Ordered(n, lo, hi) && InRange(key, lo, hi) && Lookup(n, key) == []
    ensures OrderedOut(InsertNode(order, n, key, rid), lo, hi)
    ensures Grows(n, InsertNode(order, n, key, rid), lo, hi, key, rid)
    decreases n
  {
    match n
    case Leaf(ks, ps) =>
      MatchingNone(ks, ps, key);
      LeafInsertOrdered(order, ks, ps, lo, hi, key, rid);
    case Internal(ks, cs) =>
      var idx := Pos(ks, key);
      ChildRange(ks, lo, hi, key);
      LookupInternal(ks, cs, key);
      InsertOrdered(order, cs[idx], LoOf(ks, lo, idx), HiOf(ks, hi, idx), key, rid);
      var c := InsertNode(order, cs[idx], key, rid);
      if c.split.None? {
        NoSplitStep(ks, cs, lo, hi, idx, key, rid, c.node);
      } else {
        SplitStep(order, ks, cs, lo, hi, key, rid, c);
        assert InsertNode(order, n, key, rid) == Absorb(order, ks, cs[idx := c.node], c.node, c.split.value);
      }
  }

  /** The root after a split of the old root: a search goes to the half the split key points it to. */
  lemma NewRootSearch(o: Outcome, k: int)
    requires OutShaped(o) && o.split.Some?
    ensures Lookup(Internal([o.split.value.key], [o.node, o.split.value.entry]), k) == SearchOut(o, k)
  {
    var sk := o.split.value.key;
    LookupInternal([sk], [o.node, o.split.value.entry], k);
    PosIs([sk], k, if k < sk then 0 else 1);
  }

  /** The root made from a split of an ordered root is ordered. */
  lemma NewRootOrdered(o: Outcome)
    requires OutShaped(o) && o.split.Some? && OrderedOut(o, None, None)
    ensures Ordered(Internal([o.split.value.key], [o.node, o.split.value.entry]), None, None)
  {
    var ks, cs := [o.split.value.key], [o.node, o.split.value.entry];
    assert LoOf(ks, None, 0) == None && HiOf(ks, None, 0) == Some(o.split.value.key);
    assert LoOf(ks, None, 1) == Some(o.split.value.key) && HiOf(ks, None, 1) == None;
  }

  /** Inserting a key the tree does not hold keeps it a search tree in which
      every search finds what it found before, plus the new entry for its key. */
  lemma TreeInsertGrows(order: int, root: Node, key: int, rid: RecordId)
    requires order >= 2 && WellShaped(root) && Ordered(root, None, None) && Lookup(root, key) == []
    ensures Ordered(TreeInsert(order, root, key, rid), None, None)
    ensures forall k :: Lookup(TreeInsert(order, root, key, rid), k) == Lookup(root, k) + Added(key, rid, k)
  {
    InsertOrdered(order, root, None, None, key, rid);
    var o := InsertNode(order, root, key, rid);
    var r := TreeInsert(order, root, key, rid);
    if o.split.Some? {
      NewRootOrdered(o);
    }
    forall k ensures Lookup(r, k) == Lookup(root, k) + Added(key, rid, k) {
      assert InRange(k, None, None);
      if o.split.Some? {
        NewRootSearch(o, k);
      }
    }
  }

  /** BPlusTreeIndex.insert of a key the tree does not hold: the tree stays a
      search tree, a search for the key finds exactly the new record id, and
      every other search finds what it found before. */
  lemma TreeInsertFinds(order: int, root: Node, key: int, rid: RecordId)
    requires order >= 2 && WellShaped(root) && Ordered(root, None, None) && Lookup(root, key) == []
    ensures Ordered(TreeInsert(order, root, key, rid), None, None)
    ensures Lookup(TreeInsert(order, root, key, rid), key) == [rid]
    ensures forall k :: k != key ==> Lookup(TreeInsert(order, root, key, rid), k) == Lookup(root, k)
  {
    TreeInsertGrows(order, root, key, rid);
    var r := TreeInsert(order, root, key, rid);
    assert Lookup(r, key) == Lookup(root, key) + Added(key, rid, key);
    forall k | k != key ensures Lookup(r, k) == Lookup(root, k) {
      assert Lookup(r, k) == Lookup(root, k) + Added(key, rid, k);
    }
  }

  /** The tree after a run of inserts, in order. */
  function InsertAll(order: int, root: Node, keys: seq<int>, rids: seq<RecordId>): (r: Node)
    requires |keys| == |rids| && WellShaped(root)
    ensures WellShaped(r)
    decreases |keys|
  {
    if keys == [] then root
    else InsertAll(order, TreeInsert(order, root, keys[0], rids[0]), keys[1..], rids[1..])
  }

  ghost predicate Distinct(keys: seq<int>)
  {
    forall i, j :: 0 <= i < j < |keys| ==> keys[i] != keys[j]
  }

  /** Inserting distinct keys none of which the tree holds: each is then found
      with exactly its own record id, and every other search is unchanged. */
  lemma {:induction false} InsertAllFinds(order: int, root: Node, keys: seq<int>, rids: seq<RecordId>)
    requires order >= 2 && |keys| == |rids| && WellShaped(root) && Ordered(root, None, None)
    requires Distinct(keys) && forall i :: 0 <= i < |keys| ==> Lookup(root, keys[i]) == []
    ensures Ordered(InsertAll(order, root, keys, rids), None, None)
    ensures forall i :: 0 <= i < |keys| ==> Lookup(InsertAll(order, root, keys, rids), keys[i]) == [rids[i]]
    ensures forall k :: k !in keys ==> Lookup(InsertAll(order, root, keys, rids), k) == Lookup(root, k)
    decreases |keys|
  {
    if keys != [] {
      var t := TreeInsert(order, root, keys[0], rids[0]);
      TreeInsertFinds(order, root, keys[0], rids[0]);
      var ks, rs := keys[1..], rids[1..];
      forall i | 0 <= i < |ks| ensures Lookup(t, ks[i]) == [] {
        assert ks[i] == keys[i + 1] != keys[0];
      }
      forall i, j | 0 <= i < j < |ks| ensures ks[i] != ks[j] {
        assert ks[i] == keys[i + 1] && ks[j] == keys[j + 1];
      }
      InsertAllFinds(order, t, ks, rs);
      var r := InsertAll(order, t, ks, rs);
      assert r == InsertAll(order, root, keys, rids);
      forall i | 0 <= i < |keys| ensures Lookup(r, keys[i]) == [rids[i]] {
        if i == 0 {
          forall j | 0 <= j < |ks| ensures ks[j] != keys[0] {
            assert ks[j] == keys[j + 1];
          }
        } else {
          assert keys[i] == ks[i - 1] && rids[i] == rs[i - 1];
        }
      }
      forall k | k !in keys ensures Lookup(r, k) == Lookup(root, k) {
        assert k != keys[0];
        assert forall j :: 0 <= j < |ks| ==> ks[j] == keys[j + 1];
      }
    }
  }

  /** An empty tree (a single empty leaf) is ordered and finds nothing. */
  lemma EmptyTreeFindsNothing(k: int)
    ensures Ordered(Leaf([], []), None, None) && Lookup(Leaf([], []), k) == []
  {
  }

  /** A run of distinct keys inserted into an empty tree: every one is found
      with its own record id, and any other key with none. */
  lemma DistinctInsertsFound(order: int, keys: seq<int>, rids: seq<RecordId>)
    requires order >= 2 && |keys| == |rids| && Distinct(keys)
    ensures forall i :: 0 <= i < |keys| ==> Lookup(InsertAll(order, Leaf([], []), keys, rids), keys[i]) == [rids[i]]
    ensures forall k :: k !in keys ==> Lookup(InsertAll(order, Leaf([], []), keys, rids), k) == []
  {
    InsertAllFinds(order, Leaf([], []), keys, rids);
  }

  /** What an insert into the tree promises: every leaf stays sorted, a key
      whose leaf has room is found after the matches it had, and a key the
      tree did not hold is found with exactly the new record id while every
      other search is unchanged. */
  lemma TreeInsertPromises(order: int, root: Node, key: int, rid: RecordId)
    requires WellShaped(root) && SortedLeaves(root)
    ensures SortedLeaves(TreeInsert(order, root, key, rid))
    ensures |LeafFor(root, key).keys| + 1 < order ==> Lookup(TreeInsert(order, root, key, rid), key) == Lookup(root, key) + [rid]
    ensures order >= 2 && Ordered(root, None, None) && Lookup(root, key) == [] ==>
      Ordered(TreeInsert(order, root, key, rid), None, None) && Lookup(TreeInsert(order, root, key, rid), key) == [rid] &&
      forall k :: k != key ==> Lookup(TreeInsert(order, root, key, rid), k) == Lookup(root, k)
  {
    InsertKeepsSorted(order, root, key, rid);
    if |LeafFor(root, key).keys| + 1 < order {
      DuplicateInsertAppends(order, root, key, rid);
    }
    if order >= 2 && Ordered(root, None, None) && Lookup(root, key) == [] {
      TreeInsertFinds(order, root, key, rid);
    }
  }

  // ---------------------------------------------------------------------
  // Leaf entries, and the sibling a misplaced split key overwrites

  /** A leaf's keys and record ids side by side. */
  function Zip(keys: seq<int>, pointers: seq<RecordId>): (z: seq<(int, RecordId)>)
    requires |keys| == |pointers|
    ensures |z| == |keys| && forall i :: 0 <= i < |z| ==> z[i] == (keys[i], pointers[i])
  {
    seq(|keys|, i requires 0 <= i < |keys| => (keys[i], pointers[i]))
  }

  /** The (key, record id) pairs a leaf stores. */
  function Pairs(keys: seq<int>, pointers: seq<RecordId>): multiset<(int, RecordId)>
    requires |keys| == |pointers|
  {
    multiset(Zip(keys, pointers))
  }

  /** Every (key, record id) pair stored in the leaves under n. */
  function Entries(n: Node): multiset<(int, RecordId)>
    requires WellShaped(n)
    decreases n, 1
  {
    match n
    case Leaf(ks, ps) => Pairs(ks, ps)
    case Internal(_, cs) => EntriesOf(cs)
  }

  /** The pairs stored under a run of children. */
  function EntriesOf(cs: seq<Node>): multiset<(int, RecordId)>
    requires AllShaped(cs)
    decreases cs, 0
  {
    if cs == [] then multiset{}
    else EntriesOf(cs[..|cs| - 1]) + Entries(cs[|cs| - 1])
  }

  /** A leaf stores a pair only under one of its own keys. */
  lemma PairsKeys(keys: seq<int>, pointers: seq<RecordId>, key: int, rid: RecordId)
    requires |keys| == |pointers|
    ensures (key, rid) in Pairs(keys, pointers) ==> key in keys
  {
    var z := Zip(keys, pointers);
    if (key, rid) in multiset(z) {
      assert (key, rid) in z;
      var i :| 0 <= i < |z| && z[i] == (key, rid);
      assert keys[i] == key;
    }
  }

  /** The pairs an outcome holds: the node's, and the split sibling's. */
  function EntriesOut(o: Outcome): multiset<(int, RecordId)>
    requires OutShaped(o)
  {
    Entries(o.node) + (if o.split.Some? then Entries(o.split.value.entry) else multiset{})
  }

  lemma PairsAppend(k1: seq<int>, p1: seq<RecordId>, k2: seq<int>, p2: seq<RecordId>)
    requires |k1| == |p1| && |k2| == |p2|
    ensures Pairs(k1 + k2, p1 + p2) == Pairs(k1, p1) + Pairs(k2, p2)
  {
    assert Zip(k1 + k2, p1 + p2) == Zip(k1, p1) + Zip(k2, p2);
  }

  /** A leaf insert at any position adds exactly the one pair. */
  lemma PairsInsert(ks: seq<int>, ps: seq<RecordId>, p: nat, key: int, rid: RecordId)
    requires |ks| == |ps| && p <= |ks|
    ensures Pairs(InsertAt(ks, p, key), InsertAt(ps, p, rid)) == Pairs(ks, ps) + multiset{(key, rid)}
  {
    var z := Zip(ks, ps);
    assert Zip(InsertAt(ks, p, key), InsertAt(ps, p, rid)) == z[..p] + [(key, rid)] + z[p..];
    assert z == z[..p] + z[p..];
  }

  /** A leaf split keeps every pair, in one half or the other. */
  lemma SplitLeafPairs(ks: seq<int>, ps: seq<RecordId>)
    requires |ks| == |ps| >= 1
    ensures EntriesOut(SplitLeaf(ks, ps)) == Pairs(ks, ps)
  {
    var mid := |ks| / 2;
    assert ks == ks[..mid] + ks[mid..] && ps == ps[..mid] + ps[mid..];
    PairsAppend(ks[..mid], ps[..mid], ks[mid..], ps[mid..]);
  }

  /** BPlusLeafNode.insert keeps every pair and adds the new one, split or not. */
  lemma LeafInsertEntries(order: int, ks: seq<int>, ps: seq<RecordId>, key: int, rid: RecordId)
    requires |ks| == |ps|
    ensures EntriesOut(LeafInsert(order, ks, ps, key, rid)) == Pairs(ks, ps) + multiset{(key, rid)}
  {
    var p := Pos(ks, key);
    var nk, np := InsertAt(ks, p, key), InsertAt(ps, p, rid);
    PairsInsert(ks, ps, p, key, rid);
    if |nk| >= order {
      SplitLeafPairs(nk, np);
    }
  }

  lemma AllShapedSlice(cs: seq<Node>, a: nat, b: nat)
    requires AllShaped(cs) && a <= b <= |cs|
    ensures AllShaped(cs[a..b])
  {
    forall j | 0 <= j < b - a ensures WellShaped(cs[a..b][j]) {
      assert cs[a..b][j] == cs[a + j];
    }
  }

  lemma EntriesOfSingle(c: Node)
    requires WellShaped(c)
    ensures AllShaped([c]) && EntriesOf([c]) == Entries(c)
  {
    assert [c][..0] == [];
  }

  lemma {:induction false} EntriesOfAppend(a: seq<Node>, b: seq<Node>)
    requires AllShaped(a) && AllShaped(b)
    ensures AllShaped(a + b) && EntriesOf(a + b) == EntriesOf(a) + EntriesOf(b)
    decreases |b|
  {
    var ab := a + b;
    forall j | 0 <= j < |ab| ensures WellShaped(ab[j]) {
      if j < |a| { assert ab[j] == a[j]; } else { assert ab[j] == b[j - |a|]; }
    }
    if b == [] {
      assert ab == a;
    } else {
      var n := |b| - 1;
      AllShapedSlice(b, 0, n);
      EntriesOfAppend(a, b[..n]);
      assert ab[..|ab| - 1] == a + b[..n] && ab[|ab| - 1] == b[n];
      assert EntriesOf(ab) == EntriesOf(a + b[..n]) + Entries(b[n]);
      assert EntriesOf(b) == EntriesOf(b[..n]) + Entries(b[n]);
    }
  }

  /** The pairs under children [0, i), child i, and children (i, end]. */
  lemma EntriesOfAround(cs: seq<Node>, i: nat)
    requires AllShaped(cs) && i < |cs|
    ensures AllShaped(cs[..i]) && AllShaped(cs[i + 1..])
    ensures EntriesOf(cs) == EntriesOf(cs[..i]) + Entries(cs[i]) + EntriesOf(cs[i + 1..])
  {
    var l, r := cs[..i], cs[i + 1..];
    AllShapedSlice(cs, 0, i);
    AllShapedSlice(cs, i + 1, |cs|);
    assert cs[0..i] == l && cs[i + 1..|cs|] == r;
    EntriesOfSingle(cs[i]);
    EntriesOfAppend(l, [cs[i]]);
    EntriesOfAppend(l + [cs[i]], r);
    Around(cs, i);
  }

  /** A sequence is its elements before i, element i, and those after. */
  lemma Around<T>(s: seq<T>, i: nat)
    requires i < |s|
    ensures s == s[..i] + [s[i]] + s[i + 1..]
  {
  }

  /** Setting child i trades its pairs for the new child's. */
  lemma EntriesOfSet(cs: seq<Node>, i: nat, c: Node)
    requires AllShaped(cs) && i < |cs| && WellShaped(c)
    ensures AllShaped(cs[i := c])
    ensures EntriesOf(cs[i := c]) + Entries(cs[i]) == EntriesOf(cs) + Entries(c)
  {
    var ds := cs[i := c];
    EntriesOfAround(cs, i);
    EntriesOfAround(ds, i);
    assert ds[..i] == cs[..i] && ds[i + 1..] == cs[i + 1..];
  }

  /** List.add(i, e) on the children adds e's pairs. */
  lemma EntriesOfInsert(cs: seq<Node>, i: nat, e: Node)
    requires AllShaped(cs) && i <= |cs| && WellShaped(e)
    ensures AllShaped(InsertAt(cs, i, e))
    ensures EntriesOf(InsertAt(cs, i, e)) == EntriesOf(cs) + Entries(e)
  {
    var ds := InsertAt(cs, i, e);
    EntriesOfAround(ds, i);
    assert ds[..i] == cs[..i] && ds[i + 1..] == cs[i..];
    assert cs == cs[..i] + cs[i..];
    assert AllShaped(cs[..i]) && AllShaped(cs[i..]) by {
      assert forall j :: 0 <= j < i ==> cs[..i][j] == cs[j];
      assert forall j :: 0 <= j < |cs| - i ==> cs[i..][j] == cs[i + j];
    }
    EntriesOfAppend(cs[..i], cs[i..]);
  }

  /** The following split of an internal node loses no pair. */
  lemma SettleEntries(order: int, keys: seq<int>, children: seq<Node>)
    requires |children| == |keys| + 1 && |keys| >= 1 && AllShaped(children)
    ensures EntriesOut(Settle(order, keys, children)) == EntriesOf(children)
  {
    if |keys| >= order {
      var o := SplitInternal(keys, children);
      EntriesOfAppend(o.node.children, o.split.value.entry.children);
    }
  }

  /** The corrected take-in: the split key goes in at idx, the position the
      insert went down, so the child that split keeps its slot and its sibling
      follows it (keys.add(idx, splitKey), children.add(idx + 1, sibling)).
      With distinct keys idx is the split key's own findChildIndex position,
      so this is Absorb (CorrectedAgrees). */
  function AbsorbAt(order: int, keys: seq<int>, children: seq<Node>, idx: nat, child: Node, s: Split): (o: Outcome)
    requires |children| == |keys| + 1 && idx < |children|
    requires WellShaped(child) && WellShaped(s.entry) && AllShaped(children)
    ensures OutShaped(o) && o.node.Internal?
    ensures EntriesOut(o) + Entries(children[idx]) == EntriesOf(children) + (Entries(child) + Entries(s.entry))
  {
    var ks := InsertAt(keys, idx, s.key);
    EntriesOfSet(children, idx, child);
    var cs := InsertAt(children[idx := child], idx + 1, s.entry);
    EntriesOfInsert(children[idx := child], idx + 1, s.entry);
    SettleEntries(order, ks, cs);
    Shift(EntriesOf(cs), EntriesOf(children[idx := child]), Entries(children[idx]), EntriesOf(children), Entries(child), Entries(s.entry));
    Settle(order, ks, cs)
  }

  /** The multiset step of AbsorbAt: y is x plus e, and x + was is base plus c. */
  lemma Shift<T>(y: multiset<T>, x: multiset<T>, was: multiset<T>, base: multiset<T>, c: multiset<T>, e: multiset<T>)
    requires y == x + e && x + was == base + c
    ensures y + was == base + (c + e)
  {
    forall t ensures (y + was)[t] == (base + (c + e))[t] {
      assert (x + was)[t] == (base + c)[t];
    }
  }

  /** BPlusNode.insert with the corrected take-in. */
  function CorrectedInsert(order: int, n: Node, key: int, rid: RecordId): (o: Outcome)
    requires WellShaped(n)
    ensures OutShaped(o) && o.node.Leaf? == n.Leaf?
    decreases n
  {
    match n
    case Leaf(ks, ps) => LeafInsert(order, ks, ps, key, rid)
    case Internal(ks, cs) =>
      var idx := Pos(ks, key);
      var c := CorrectedInsert(order, cs[idx], key, rid);
      if c.split.None? then Outcome(Internal(ks, cs[idx := c.node]), None)
      else AbsorbAt(order, ks, cs, idx, c.node, c.split.value)
  }

  /** BPlusTreeIndex.insert over the corrected node insert. */
  function CorrectedTreeInsert(order: int, root: Node, key: int, rid: RecordId): (r: Node)
    requires WellShaped(root)
    ensures WellShaped(r)
  {
    var o := CorrectedInsert(order, root, key, rid);
    if o.split.Some? then Internal([o.split.value.key], [o.node, o.split.value.entry]) else o.node
  }

  /** With the corrected take-in, an insert into a node keeps every pair under
      it, whatever the keys, and adds exactly (key, rid). */
  lemma {:induction false} CorrectedInsertEntries(order: int, n: Node, key: int, rid: RecordId)
    requires WellShaped(n)
    ensures EntriesOut(CorrectedInsert(order, n, key, rid)) == Entries(n) + multiset{(key, rid)}
    decreases n
  {
    match n
    case Leaf(ks, ps) =>
      LeafInsertEntries(order, ks, ps, key, rid);
    case Internal(ks, cs) =>
      var idx := Pos(ks, key);
      CorrectedInsertEntries(order, cs[idx], key, rid);
      var c := CorrectedInsert(order, cs[idx], key, rid);
      var o := CorrectedInsert(order, n, key, rid);
      var was, added := Entries(cs[idx]), multiset{(key, rid)};
      if c.split.None? {
        EntriesOfSet(cs, idx, c.node);
        assert o == Outcome(Internal(ks, cs[idx := c.node]), None);
        Trade(EntriesOut(o), was, EntriesOf(cs), Entries(c.node), added);
      } else {
        assert o == AbsorbAt(order, ks, cs, idx, c.node, c.split.value);
        Trade(EntriesOut(o), was, EntriesOf(cs), Entries(c.node) + Entries(c.split.value.entry), added);
      }
  }

  /** The multiset step of both cases above: x + was is base plus a gain that
      is itself was plus added, so x is base plus added. */
  lemma Trade<T>(x: multiset<T>, was: multiset<T>, base: multiset<T>, gain: multiset<T>, added: multiset<T>)
    requires x + was == base + gain && gain == was + added
    ensures x == base + added
  {
    forall t ensures x[t] == (base + added)[t] {
      assert (x + was)[t] == (base + gain)[t];
    }
  }

  /** The corrected tree insert keeps every stored pair, duplicates included,
      and adds exactly (key, rid). */
  lemma CorrectedTreeInsertEntries(order: int, root: Node, key: int, rid: RecordId)
    requires WellShaped(root)
    ensures Entries(CorrectedTreeInsert(order, root, key, rid)) == Entries(root) + multiset{(key, rid)}
  {
    CorrectedInsertEntries(order, root, key, rid);
    var o := CorrectedInsert(order, root, key, rid);
    if o.split.Some? {
      EntriesOfTwo(o.node, o.split.value.entry);
    }
  }

  /** The pairs under a new root's two children. */
  lemma EntriesOfTwo(a: Node, b: Node)
    requires WellShaped(a) && WellShaped(b)
    ensures AllShaped([a, b]) && EntriesOf([a, b]) == Entries(a) + Entries(b)
  {
    EntriesOfSingle(a);
    EntriesOfSingle(b);
    EntriesOfAppend([a], [b]);
    assert [a] + [b] == [a, b];
  }

  /** On a search tree and a key it does not hold, the corrected insert is the
      source's: the split key's findChildIndex position is the one the insert
      went down, so line 53 sets the child that split. */
  lemma {:induction false} CorrectedAgrees(order: int, n: Node, lo: Option<int>, hi: Option<int>, key: int, rid: RecordId)
    requires order >= 2 && WellShaped(n) && Ordered(n, lo, hi) && InRange(key, lo, hi) && Lookup(n, key) == []
    ensures CorrectedInsert(order, n, key, rid) == InsertNode(order, n, key, rid)
    decreases n
  {
    match n
    case Leaf(_, _) =>
    case Internal(ks, cs) =>
      var idx := Pos(ks, key);
      ChildRange(ks, lo, hi, key);
      LookupInternal(ks, cs, key);
      CorrectedAgrees(order, cs[idx], LoOf(ks, lo, idx), HiOf(ks, hi, idx), key, rid);
      var c := InsertNode(order, cs[idx], key, rid);
      if c.split.Some? {
        InsertOrdered(order, cs[idx], LoOf(ks, lo, idx), HiOf(ks, hi, idx), key, rid);
        AbsorbStep(ks, cs, lo, hi, key, rid, c);
        AbsorbAtIs(order, ks, cs, idx, c.node, c.split.value);
        assert InsertNode(order, n, key, rid) == Absorb(order, ks, cs[idx := c.node], c.node, c.split.value);
        assert CorrectedInsert(order, n, key, rid) == AbsorbAt(order, ks, cs, idx, c.node, c.split.value);
      }
  }

  /** When the split key's own position is the one the insert went down, the
      corrected take-in and the source's coincide. */
  lemma AbsorbAtIs(order: int, ks: seq<int>, cs: seq<Node>, idx: nat, child: Node, s: Split)
    requires |cs| == |ks| + 1 && idx < |cs| && AllShaped(cs) && WellShaped(child) && WellShaped(s.entry)
    requires Pos(ks, s.key) == idx
    ensures AllShaped(cs[idx := child])
    ensures AbsorbAt(order, ks, cs, idx, child, s) == Absorb(order, ks, cs[idx := child], child, s)
  {
    assert cs[idx := child][idx := child] == cs[idx := child];
  }

  /** On a search tree and a key it does not hold, the corrected tree insert
      builds the same tree as BPlusTreeIndex.insert, so every distinct-key
      promise above holds for it as well. */
  lemma CorrectedTreeAgrees(order: int, root: Node, key: int, rid: RecordId)
    requires order >= 2 && WellShaped(root) && Ordered(root, None, None) && Lookup(root, key) == []
    ensures CorrectedTreeInsert(order, root, key, rid) == TreeInsert(order, root, key, rid)
  {
    CorrectedAgrees(order, root, None, None, key, rid);
  }

  /** A run of corrected tree inserts, in order. */
  function CorrectedInsertAll(order: int, root: Node, keys: seq<int>, rids: seq<RecordId>): (r: Node)
    requires |keys| == |rids| && WellShaped(root)
    ensures WellShaped(r)
    decreases |keys|
  {
    if keys == [] then root
    else CorrectedInsertAll(order, CorrectedTreeInsert(order, root, keys[0], rids[0]), keys[1..], rids[1..])
  }

  /** A run of corrected inserts stores exactly the pairs it inserted, on top
      of those the tree held. */
  lemma {:induction false} CorrectedInsertAllEntries(order: int, root: Node, keys: seq<int>, rids: seq<RecordId>)
    requires |keys| == |rids| && WellShaped(root)
    ensures Entries(CorrectedInsertAll(order, root, keys, rids)) == Entries(root) + Pairs(keys, rids)
    decreases |keys|
  {
    if keys != [] {
      var t := CorrectedTreeInsert(order, root, keys[0], rids[0]);
      CorrectedTreeInsertEntries(order, root, keys[0], rids[0]);
      CorrectedInsertAllEntries(order, t, keys[1..], rids[1..]);
      PairsCons(keys, rids);
      Regroup(Entries(root), multiset{(keys[0], rids[0])}, Pairs(keys[1..], rids[1..]));
    }
  }

  lemma PairsCons(keys: seq<int>, rids: seq<RecordId>)
    requires |keys| == |rids| > 0
    ensures Pairs(keys, rids) == multiset{(keys[0], rids[0])} + Pairs(keys[1..], rids[1..])
  {
    assert Zip(keys, rids) == [(keys[0], rids[0])] + Zip(keys[1..], rids[1..]);
  }

  lemma Regroup<T>(a: multiset<T>, b: multiset<T>, c: multiset<T>)
    ensures a + b + c == a + (b + c)
  {
    forall t ensures (a + b + c)[t] == (a + (b + c))[t] {
    }
  }

  /** The keys of the run that shows the lost sibling, inserted at order 4. */
  const RunKeys: seq<int> := [5, 5, 5, 5, 8, 1, 2]

  /** The tree after the first six inserts of the run, [1 5 5 | 5 5 8] under
      separator 5. No internal node has taken in a split by then. */
  function SixOf(r: seq<RecordId>): Node
    requires |r| >= 6
  {
    Internal([5], [Leaf([1, 5, 5], [r[5], r[0], r[1]]), Leaf([5, 5, 8], [r[2], r[3], r[4]])])
  }

  /** The fourth insert fills the leaf [5, 5, 5] and splits it into [5, 5] and [5, 5]. */
  lemma FourthStep(a: RecordId, b: RecordId, c: RecordId, d: RecordId)
    ensures var t := Internal([5], [Leaf([5, 5], [a, b]), Leaf([5, 5], [c, d])]);
      TreeInsert(4, Leaf([5, 5, 5], [a, b, c]), 5, d) == t && CorrectedTreeInsert(4, Leaf([5, 5, 5], [a, b, c]), 5, d) == t
  {
    PosIs([5, 5, 5], 5, 3);
    var ks, ps := InsertAt([5, 5, 5], 3, 5), InsertAt([a, b, c], 3, d);
    assert ks == [5, 5, 5, 5] && ps == [a, b, c, d];
    assert ks[..2] == [5, 5] && ks[2..] == [5, 5] && ps[..2] == [a, b] && ps[2..] == [c, d];
  }

  /** The fifth insert puts 8 at the end of the right leaf, which keeps room. */
  lemma FifthStep(a: RecordId, b: RecordId, c: RecordId, d: RecordId, e: RecordId)
    ensures var t := Internal([5], [Leaf([5, 5], [a, b]), Leaf([5, 5], [c, d])]);
      var u := Internal([5], [Leaf([5, 5], [a, b]), Leaf([5, 5, 8], [c, d, e])]);
      TreeInsert(4, t, 8, e) == u && CorrectedTreeInsert(4, t, 8, e) == u
  {
    PosIs([5], 8, 1);
    PosIs([5, 5], 8, 2);
    assert InsertAt([5, 5], 2, 8) == [5, 5, 8] && InsertAt([c, d], 2, e) == [c, d, e];
    var cs := [Leaf([5, 5], [a, b]), Leaf([5, 5], [c, d])];
    var o := Outcome(Leaf([5, 5, 8], [c, d, e]), None);
    assert LeafInsert(4, [5, 5], [c, d], 8, e) == o;
    assert InsertNode(4, cs[1], 8, e) == o && CorrectedInsert(4, cs[1], 8, e) == o;
    assert cs[1 := o.node] == [Leaf([5, 5], [a, b]), Leaf([5, 5, 8], [c, d, e])];
  }

  /** The sixth insert puts 1 at the front of the left leaf, which keeps room. */
  lemma SixthStep(a: RecordId, b: RecordId, c: RecordId, d: RecordId, e: RecordId, f: RecordId)
    ensures var t := Internal([5], [Leaf([5, 5], [a, b]), Leaf([5, 5, 8], [c, d, e])]);
      var u := Internal([5], [Leaf([1, 5, 5], [f, a, b]), Leaf([5, 5, 8], [c, d, e])]);
      TreeInsert(4, t, 1, f) == u && CorrectedTreeInsert(4, t, 1, f) == u
  {
    PosIs([5], 1, 0);
    PosIs([5, 5], 1, 0);
    assert InsertAt([5, 5], 0, 1) == [1, 5, 5] && InsertAt([a, b], 0, f) == [f, a, b];
    var cs := [Leaf([5, 5], [a, b]), Leaf([5, 5, 8], [c, d, e])];
    var o := Outcome(Leaf([1, 5, 5], [f, a, b]), None);
    assert LeafInsert(4, [5, 5], [a, b], 1, f) == o;
    assert InsertNode(4, cs[0], 1, f) == o && CorrectedInsert(4, cs[0], 1, f) == o;
    assert cs[0 := o.node] == [Leaf([1, 5, 5], [f, a, b]), Leaf([5, 5, 8], [c, d, e])];
  }

  /** The seventh insert fills the left leaf [1, 5, 5] with 2, and its split
      reports [5, 5] under split key 5, with [1, 2] left behind. */
  lemma SeventhSplit(a: RecordId, b: RecordId, f: RecordId, g: RecordId)
    ensures LeafInsert(4, [1, 5, 5], [f, a, b], 2, g) == Outcome(Leaf([1, 2], [f, g]), Some(Split(5, Leaf([5, 5], [a, b]))))
  {
    PosIs([1, 5, 5], 2, 1);
    var ks, ps := InsertAt([1, 5, 5], 1, 2), InsertAt([f, a, b], 1, g);
    assert ks == [1, 2, 5, 5] && ps == [f, g, a, b];
    assert ks[..2] == [1, 2] && ks[2..] == [5, 5] && ps[..2] == [f, g] && ps[2..] == [a, b];
  }

  /** As written, the root puts split key 5 after its separator 5 and sets
      child 1, the leaf holding 8, to the left half [1, 2]. */
  lemma SeventhStep(a: RecordId, b: RecordId, c: RecordId, d: RecordId, e: RecordId, f: RecordId, g: RecordId)
    ensures var t := Internal([5], [Leaf([1, 5, 5], [f, a, b]), Leaf([5, 5, 8], [c, d, e])]);
      var left := Leaf([1, 2], [f, g]);
      TreeInsert(4, t, 2, g) == Internal([5, 5], [left, left, Leaf([5, 5], [a, b])])
  {
    SeventhSplit(a, b, f, g);
    PosIs([5], 2, 0);
    PosIs([5], 5, 1);
    var left := Leaf([1, 2], [f, g]);
    var full := Leaf([1, 5, 5], [f, a, b]);
    var o := Outcome(left, Some(Split(5, Leaf([5, 5], [a, b]))));
    assert InsertNode(4, full, 2, g) == o;
    var cs := [left, Leaf([5, 5, 8], [c, d, e])];
    assert [full, Leaf([5, 5, 8], [c, d, e])][0 := left] == cs;
    assert InsertAt([5], 1, 5) == [5, 5];
    assert cs[1 := left] == [left, left];
    assert InsertAt([left, left], 2, Leaf([5, 5], [a, b])) == [left, left, Leaf([5, 5], [a, b])];
    assert Absorb(4, [5], cs, left, Split(5, Leaf([5, 5], [a, b]))).node == Internal([5, 5], [left, left, Leaf([5, 5], [a, b])]);
  }

  /** Corrected, the split key and the new sibling go in at child 0, where
      the insert went down, and the leaf holding 8 keeps its place. */
  lemma SeventhCorrected(a: RecordId, b: RecordId, c: RecordId, d: RecordId, e: RecordId, f: RecordId, g: RecordId)
    ensures var t := Internal([5], [Leaf([1, 5, 5], [f, a, b]), Leaf([5, 5, 8], [c, d, e])]);
      CorrectedTreeInsert(4, t, 2, g) == Internal([5, 5], [Leaf([1, 2], [f, g]), Leaf([5, 5], [a, b]), Leaf([5, 5, 8], [c, d, e])])
  {
    SeventhSplit(a, b, f, g);
    PosIs([5], 2, 0);
    var cs := [Leaf([1, 5, 5], [f, a, b]), Leaf([5, 5, 8], [c, d, e])];
    var left := Leaf([1, 2], [f, g]);
    assert CorrectedInsert(4, cs[0], 2, g) == Outcome(left, Some(Split(5, Leaf([5, 5], [a, b]))));
    assert InsertAt([5], 0, 5) == [5, 5];
    assert cs[0 := left] == [left, Leaf([5, 5, 8], [c, d, e])];
    assert InsertAt([left, Leaf([5, 5, 8], [c, d, e])], 1, Leaf([5, 5], [a, b]))
      == [left, Leaf([5, 5], [a, b]), Leaf([5, 5, 8], [c, d, e])];
  }

  /** One insert of a run, from its i-th key on. */
  lemma InsertAllStep(order: int, root: Node, keys: seq<int>, rids: seq<RecordId>, i: nat)
    requires |keys| == |rids| && i < |keys| && WellShaped(root)
    ensures InsertAll(order, root, keys[i..], rids[i..])
         == InsertAll(order, TreeInsert(order, root, keys[i], rids[i]), keys[i + 1..], rids[i + 1..])
    ensures CorrectedInsertAll(order, root, keys[i..], rids[i..])
         == CorrectedInsertAll(order, CorrectedTreeInsert(order, root, keys[i], rids[i]), keys[i + 1..], rids[i + 1..])
  {
    assert keys[i..][1..] == keys[i + 1..] && rids[i..][1..] == rids[i + 1..];
  }

  /** The first insert of a key x into the empty root leaf, by either insert. */
  lemma FirstStep(x: int, a: RecordId)
    ensures TreeInsert(4, Leaf([], []), x, a) == Leaf([x], [a])
    ensures CorrectedTreeInsert(4, Leaf([], []), x, a) == Leaf([x], [a])
  {
    PosIs([], x, 0);
    assert InsertAt([], 0, x) == [x] && InsertAt([], 0, a) == [a];
  }

  /** The second x goes at the end of the root leaf, which keeps room. */
  lemma SecondStep(x: int, a: RecordId, b: RecordId)
    ensures TreeInsert(4, Leaf([x], [a]), x, b) == Leaf([x, x], [a, b])
    ensures CorrectedTreeInsert(4, Leaf([x], [a]), x, b) == Leaf([x, x], [a, b])
  {
    PosIs([x], x, 1);
    assert InsertAt([x], 1, x) == [x, x] && InsertAt([a], 1, b) == [a, b];
  }

  /** So does the third. */
  lemma ThirdStep(x: int, a: RecordId, b: RecordId, c: RecordId)
    ensures TreeInsert(4, Leaf([x, x], [a, b]), x, c) == Leaf([x, x, x], [a, b, c])
    ensures CorrectedTreeInsert(4, Leaf([x, x], [a, b]), x, c) == Leaf([x, x, x], [a, b, c])
  {
    PosIs([x, x], x, 2);
    assert InsertAt([x, x], 2, x) == [x, x, x] && InsertAt([a, b], 2, c) == [a, b, c];
  }

  /** The source's insert takes the run's first three keys to the leaf [5, 5, 5]. */
  lemma WrittenFirst(k: seq<int>, r: seq<RecordId>)
    requires k == RunKeys && |r| == 7
    ensures InsertAll(4, Leaf([], []), k, r)
         == InsertAll(4, Leaf([5, 5, 5], [r[0], r[1], r[2]]), k[3..], r[3..])
  {
    var t1 := Leaf([5], [r[0]]);
    var t2 := Leaf([5, 5], [r[0], r[1]]);
    FirstStep(5, r[0]);
    SecondStep(5, r[0], r[1]);
    ThirdStep(5, r[0], r[1], r[2]);
    assert k[0..] == k && r[0..] == r;
    InsertAllStep(4, Leaf([], []), k, r, 0);
    InsertAllStep(4, t1, k, r, 1);
    InsertAllStep(4, t2, k, r, 2);
  }

  /** ... and the next three to SixOf(r), with 2 left to insert. */
  lemma WrittenRest(k: seq<int>, r: seq<RecordId>)
    requires k == RunKeys && |r| == 7
    ensures InsertAll(4, Leaf([5, 5, 5], [r[0], r[1], r[2]]), k[3..], r[3..])
         == TreeInsert(4, SixOf(r), 2, r[6])
  {
    var t4 := Internal([5], [Leaf([5, 5], [r[0], r[1]]), Leaf([5, 5], [r[2], r[3]])]);
    var t5 := Internal([5], [Leaf([5, 5], [r[0], r[1]]), Leaf([5, 5, 8], [r[2], r[3], r[4]])]);
    FourthStep(r[0], r[1], r[2], r[3]);
    FifthStep(r[0], r[1], r[2], r[3], r[4]);
    SixthStep(r[0], r[1], r[2], r[3], r[4], r[5]);
    InsertAllStep(4, Leaf([5, 5, 5], [r[0], r[1], r[2]]), k, r, 3);
    InsertAllStep(4, t4, k, r, 4);
    InsertAllStep(4, t5, k, r, 5);
    InsertAllStep(4, SixOf(r), k, r, 6);
    assert |k[7..]| == 0;
  }

  /** So does the corrected insert. */
  lemma CorrectedFirst(k: seq<int>, r: seq<RecordId>)
    requires k == RunKeys && |r| == 7
    ensures CorrectedInsertAll(4, Leaf([], []), k, r)
         == CorrectedInsertAll(4, Leaf([5, 5, 5], [r[0], r[1], r[2]]), k[3..], r[3..])
  {
    var t1 := Leaf([5], [r[0]]);
    var t2 := Leaf([5, 5], [r[0], r[1]]);
    FirstStep(5, r[0]);
    SecondStep(5, r[0], r[1]);
    ThirdStep(5, r[0], r[1], r[2]);
    assert k[0..] == k && r[0..] == r;
    InsertAllStep(4, Leaf([], []), k, r, 0);
    InsertAllStep(4, t1, k, r, 1);
    InsertAllStep(4, t2, k, r, 2);
  }

  /** ... and to the same tree. */
  lemma CorrectedRest(k: seq<int>, r: seq<RecordId>)
    requires k == RunKeys && |r| == 7
    ensures CorrectedInsertAll(4, Leaf([5, 5, 5], [r[0], r[1], r[2]]), k[3..], r[3..])
         == CorrectedTreeInsert(4, SixOf(r), 2, r[6])
  {
    var t4 := Internal([5], [Leaf([5, 5], [r[0], r[1]]), Leaf([5, 5], [r[2], r[3]])]);
    var t5 := Internal([5], [Leaf([5, 5], [r[0], r[1]]), Leaf([5, 5, 8], [r[2], r[3], r[4]])]);
    FourthStep(r[0], r[1], r[2], r[3]);
    FifthStep(r[0], r[1], r[2], r[3], r[4]);
    SixthStep(r[0], r[1], r[2], r[3], r[4], r[5]);
    InsertAllStep(4, Leaf([5, 5, 5], [r[0], r[1], r[2]]), k, r, 3);
    InsertAllStep(4, t4, k, r, 4);
    InsertAllStep(4, t5, k, r, 5);
    InsertAllStep(4, SixOf(r), k, r, 6);
    assert |k[7..]| == 0;
  }

  /** The pairs under three children. */
  lemma EntriesOfThree(a: Node, b: Node, c: Node)
    requires WellShaped(a) && WellShaped(b) && WellShaped(c)
    ensures AllShaped([a, b, c]) && EntriesOf([a, b, c]) == Entries(a) + Entries(b) + Entries(c)
  {
    EntriesOfTwo(a, b);
    EntriesOfSingle(c);
    EntriesOfAppend([a, b], [c]);
    assert [a, b] + [c] == [a, b, c];
  }

  /** The tree the run leaves, as written: the left half of the split leaf
      twice, and the right half; the leaf holding 8 is gone. */
  function LostTree(r: seq<RecordId>): (t: Node)
    requires |r| == 7
    ensures t.Internal? && |t.children| == 3 && t.children[0] == t.children[1]
  {
    var left := Leaf([1, 2], [r[5], r[6]]);
    Internal([5, 5], [left, left, Leaf([5, 5], [r[0], r[1]])])
  }

  /** The tree the run leaves with the corrected take-in. */
  function KeptTree(r: seq<RecordId>): (t: Node)
    requires |r| == 7
    ensures t.Internal? && |t.children| == 3 && t.children[2].Leaf? && 8 in t.children[2].keys
  {
    Internal([5, 5], [Leaf([1, 2], [r[5], r[6]]), Leaf([5, 5], [r[0], r[1]]), Leaf([5, 5, 8], [r[2], r[3], r[4]])])
  }

  /** Inserting keys 5, 5, 5, 5, 8, 1, 2 at order 4, as written, ends in
      LostTree. */
  lemma WrittenRun(r: seq<RecordId>)
    requires |r| == 7
    ensures InsertAll(4, Leaf([], []), RunKeys, r) == LostTree(r)
  {
    WrittenFirst(RunKeys, r);
    WrittenRest(RunKeys, r);
    SeventhStep(r[0], r[1], r[2], r[3], r[4], r[5], r[6]);
  }

  /** The same inserts with the corrected take-in end in KeptTree. */
  lemma CorrectedRun(r: seq<RecordId>)
    requires |r| == 7
    ensures CorrectedInsertAll(4, Leaf([], []), RunKeys, r) == KeptTree(r)
  {
    CorrectedFirst(RunKeys, r);
    CorrectedRest(RunKeys, r);
    SeventhCorrected(r[0], r[1], r[2], r[3], r[4], r[5], r[6]);
  }

  /** As written: the seventh insert splits the leftmost leaf [1, 2, 5, 5]
      into [1, 2] and [5, 5] under split key 5. The insert went down child 0,
      but findChildIndex(5) is 1, so line 53 sets child 1, the leaf holding
      8, to the left half. Key 8, inserted once, is no longer found, and a
      search for 5 finds two of its four record ids. */
  lemma LostSibling(r: seq<RecordId>)
    requires |r| == 7
    ensures var t := InsertAll(4, Leaf([], []), RunKeys, r);
      Lookup(t, 8) == [] && Lookup(t, 5) == [r[0], r[1]]
  {
    WrittenRun(r);
    LostLookups(r);
  }

  /** A search for a key from 5 on LostTree goes to its last child, [5, 5]. */
  lemma LostLookups(r: seq<RecordId>)
    requires |r| == 7
    ensures Lookup(LostTree(r), 8) == [] && Lookup(LostTree(r), 5) == [r[0], r[1]]
  {
    LostLookup(r, 8);
    LostLookup(r, 5);
    MatchingTwo(5, 5, r[0], r[1], 8);
    MatchingTwo(5, 5, r[0], r[1], 5);
  }

  /** The leaf a search for key = 5 or 8 reaches in LostTree. */
  lemma LostLookup(r: seq<RecordId>, key: int)
    requires |r| == 7 && (key == 5 || key == 8)
    ensures Lookup(LostTree(r), key) == Matching([5, 5], [r[0], r[1]], key)
  {
    var t, right := LostTree(r), Leaf([5, 5], [r[0], r[1]]);
    PosIs([5, 5], key, 2);
    assert t.children[2] == right;
    assert LeafFor(t, key) == right;
  }

  /** A search of a two-entry leaf. */
  lemma MatchingTwo(k0: int, k1: int, p0: RecordId, p1: RecordId, key: int)
    ensures Matching([k0, k1], [p0, p1], key)
         == (if k0 == key then [p0] else []) + (if k1 == key then [p1] else [])
  {
    assert [k0, k1][..1] == [k0] && [p0, p1][..1] == [p0];
    assert [k0][..0] == [] && [p0][..0] == [];
  }

  /** A search of a three-entry leaf. */
  lemma MatchingThree(k0: int, k1: int, k2: int, p0: RecordId, p1: RecordId, p2: RecordId, key: int)
    ensures Matching([k0, k1, k2], [p0, p1, p2], key)
         == (if k0 == key then [p0] else []) + (if k1 == key then [p1] else []) + (if k2 == key then [p2] else [])
  {
    assert [k0, k1, k2][..2] == [k0, k1] && [p0, p1, p2][..2] == [p0, p1];
    MatchingTwo(k0, k1, p0, p1, key);
  }

  /** ... and the pair (8, r[4]) is stored nowhere in the tree any more. */
  lemma LostEntry(r: seq<RecordId>)
    requires |r| == 7
    ensures (8, r[4]) !in Entries(InsertAll(4, Leaf([], []), RunKeys, r))
  {
    WrittenRun(r);
    LostTreeKeys(r, 8, r[4]);
  }

  /** LostTree stores pairs under keys 1, 2 and 5 only. */
  lemma LostTreeKeys(r: seq<RecordId>, key: int, rid: RecordId)
    requires |r| == 7
    ensures (key, rid) in Entries(LostTree(r)) ==> key in {1, 2, 5}
  {
    var left, right := Leaf([1, 2], [r[5], r[6]]), Leaf([5, 5], [r[0], r[1]]);
    EntriesOfThree(left, left, right);
    PairsKeys([1, 2], [r[5], r[6]], key, rid);
    PairsKeys([5, 5], [r[0], r[1]], key, rid);
  }

  /** LostTree stores the left half's two pairs twice and the right half's
      two, and nothing with key 8. */
  lemma LostTreeEntries(r: seq<RecordId>)
    requires |r| == 7
    ensures Entries(LostTree(r))
         == multiset{(1, r[5]), (2, r[6]), (1, r[5]), (2, r[6]), (5, r[0]), (5, r[1])}
  {
    var left, right := Leaf([1, 2], [r[5], r[6]]), Leaf([5, 5], [r[0], r[1]]);
    EntriesOfThree(left, left, right);
    assert Zip([1, 2], [r[5], r[6]]) == [(1, r[5]), (2, r[6])];
    assert Zip([5, 5], [r[0], r[1]]) == [(5, r[0]), (5, r[1])];
  }

  /** Corrected: the same run keeps the leaf holding 8, and stores all seven
      pairs. */
  lemma KeptSibling(r: seq<RecordId>)
    requires |r| == 7
    ensures var t := CorrectedInsertAll(4, Leaf([], []), RunKeys, r);
      Lookup(t, 8) == [r[4]] && Entries(t) == Pairs(RunKeys, r)
  {
    CorrectedRun(r);
    KeptLookup(r);
    CorrectedInsertAllEntries(4, Leaf([], []), RunKeys, r);
  }

  /** A search for 8 on KeptTree goes to its last child, [5, 5, 8]. */
  lemma KeptLookup(r: seq<RecordId>)
    requires |r| == 7
    ensures Lookup(KeptTree(r), 8) == [r[4]]
  {
    var t, right := KeptTree(r), Leaf([5, 5, 8], [r[2], r[3], r[4]]);
    PosIs([5, 5], 8, 2);
    assert t.children[2] == right;
    assert LeafFor(t, 8) == right;
    MatchingThree(5, 5, 8, r[2], r[3], r[4], 8);
  }

  // ---------------------------------------------------------------------
  // The nodes' scans and searches, as loops

  /** findChildIndex, and the leaf's position scan: step past every key not greater than key. */
  method FindPos(keys: seq<int>, key: int) returns (pos: nat)
    ensures pos == Pos(keys, key)
  {
    pos := 0;
    while pos < |keys| && key >= keys[pos]
      invariant pos <= |keys|
      invariant forall i :: 0 <= i < pos ==> keys[i] <= key
      decreases |keys| - pos
    {
      pos := pos + 1;
    }
    PosIs(keys, key, pos);
  }

  /** BPlusLeafNode.search: collect the record id of every key equal to key, in order. */
  method SearchLeaf(keys: seq<int>, pointers: seq<RecordId>, key: int) returns (result: seq<RecordId>)
    requires |keys| == |pointers|
    ensures result == Matching(keys, pointers, key)
  {
    result := [];
    for i := 0 to |keys|
      invariant result == Matching(keys[..i], pointers[..i], key)
    {
      assert keys[..i + 1][..i] == keys[..i] && pointers[..i + 1][..i] == pointers[..i];
      if keys[i] == key {
        result := result + [pointers[i]];
      }
    }
    assert keys[..|keys|] == keys && pointers[..|pointers|] == pointers;
  }

  /** BPlusNode.search: descend to child findChildIndex(key) until a leaf, and search it. */
  method SearchNode(n: Node, key: int) returns (result: seq<RecordId>)
    requires WellShaped(n)
    ensures result == Lookup(n, key)
    decreases n
  {
    match n
    case Leaf(ks, ps) =>
      result := SearchLeaf(ks, ps, key);
    case Internal(ks, cs) =>
      var idx := FindPos(ks, key);
      result := SearchNode(cs[idx], key);
  }

  // ---------------------------------------------------------------------
  // The tree object

  /** BPlusTreeIndex: the root node, and the two fields through which a node
      that splits hands the separator and the new sibling to its parent. */
  class BPlusTreeIndex {
    const order: int
    var root: Node
    var splitKey: Option<int>
    var splitEntry: Option<Node>

    /** Every node is well formed and every leaf's keys are sorted. */
    ghost predicate Valid()
      reads this
    {
      WellShaped(root) && SortedLeaves(root)
    }

    /** The split fields hold exactly the split of the outcome, or nothing. */
    ghost predicate Reports(o: Outcome)
      reads this
    {
      if o.split.Some? then splitKey == Some(o.split.value.key) && splitEntry == Some(o.split.value.entry)
      else splitKey.None? && splitEntry.None?
    }

    /** A new tree is a single empty leaf, which finds nothing. */
    constructor(order: int)
      ensures this.order == order && root == Leaf([], []) && splitKey.None? && splitEntry.None?
      ensures Valid() && Ordered(root, None, None) && forall k :: Lookup(root, k) == []
    {
      this.order := order;
      root := Leaf([], []);
      splitKey := None;
      splitEntry := None;
    }

    /** clearSplit: forget the split that was handled. */
    method ClearSplit()
      modifies this
      ensures splitKey.None? && splitEntry.None? && root == old(root)
    {
      splitKey := None;
      splitEntry := None;
    }

    /** BPlusLeafNode.insert: the entry goes in after every key not greater
        than it; a leaf that reaches order entries keeps the first half and
        reports the second as its split, keyed by the sibling's first key. */
    method InsertIntoLeaf(keys: seq<int>, pointers: seq<RecordId>, key: int, rid: RecordId) returns (m: Node)
      requires |keys| == |pointers| && splitKey.None? && splitEntry.None?
      modifies this
      ensures m == LeafInsert(order, keys, pointers, key, rid).node
      ensures Reports(LeafInsert(order, keys, pointers, key, rid)) && root == old(root)
    {
      var pos := FindPos(keys, key);
      var ks, ps := InsertAt(keys, pos, key), InsertAt(pointers, pos, rid);
      if |ks| >= order {
        var mid := |ks| / 2;
        var sibling := Leaf(ks[mid..], ps[mid..]);
        m := Leaf(ks[..mid], ps[..mid]);
        splitKey := Some(ks[mid]);
        splitEntry := Some(sibling);
      } else {
        m := Leaf(ks, ps);
      }
    }

    /** BPlusInternalNode.insert: insert into child findChildIndex(key), and
        take in the split the child reports, if any. */
    method InsertIntoInternal(keys: seq<int>, children: seq<Node>, key: int, rid: RecordId) returns (m: Node)
      requires |children| == |keys| + 1 && AllShaped(children) && splitKey.None? && splitEntry.None?
      modifies this
      ensures m == InsertNode(order, Internal(keys, children), key, rid).node
      ensures Reports(InsertNode(order, Internal(keys, children), key, rid)) && root == old(root)
      decreases Internal(keys, children), 0
    {
      var idx := FindPos(keys, key);
      var child := InsertInto(children[idx], key, rid);
      // The child is updated in place; its slot holds the updated child.
      var cs := children[idx := child];
      if splitEntry.Some? {
        m := TakeSplit(keys, cs, child);
      } else {
        m := Internal(keys, cs);
      }
    }

    /** The split-handling half of BPlusInternalNode.insert: clear the split,
        put the split key in at its own findChildIndex position, set that slot
        to the child that was descended into, and put the sibling right after it. */
    method TakeSplit(keys: seq<int>, children: seq<Node>, child: Node) returns (m: Node)
      requires |children| == |keys| + 1 && AllShaped(children) && WellShaped(child)
      requires splitKey.Some? && splitEntry.Some? && WellShaped(splitEntry.value)
      modifies this
      ensures m == Absorb(order, keys, children, child, Split(old(splitKey).value, old(splitEntry).value)).node
      ensures Reports(Absorb(order, keys, children, child, Split(old(splitKey).value, old(splitEntry).value)))
      ensures root == old(root)
    {
      var sk, newNode := splitKey.value, splitEntry.value;
      ClearSplit();
      var insertPos := FindPos(keys, sk);
      var ks := InsertAt(keys, insertPos, sk);
      // The source picks the child here whenever the split entry is
      // cleared, which it always is at this point.
      var cs := InsertAt(children[insertPos := child], insertPos + 1, newNode);
      m := SplitIfFull(ks, cs);
    }

    /** The end of BPlusInternalNode.insert: a node holding order keys or more
        keeps keys [0, mid) and children [0, mid], and reports keys[mid] with
        a sibling holding the rest. */
    method SplitIfFull(keys: seq<int>, children: seq<Node>) returns (m: Node)
      requires |children| == |keys| + 1 && |keys| >= 1 && AllShaped(children)
      requires splitKey.None? && splitEntry.None?
      modifies this
      ensures m == Settle(order, keys, children).node && Reports(Settle(order, keys, children)) && root == old(root)
    {
      if |keys| >= order {
        var mid := |keys| / 2;
        var upKey := keys[mid];
        var sibling := Internal(keys[mid + 1..], children[mid + 1..]);
        m := Internal(keys[..mid], children[..mid + 1]);
        splitKey := Some(upKey);
        splitEntry := Some(sibling);
      } else {
        m := Internal(keys, children);
      }
    }

    /** node.insert(key, rid, tree): the node after the insert, with its split reported in the fields. */
    method InsertInto(n: Node, key: int, rid: RecordId) returns (m: Node)
      requires WellShaped(n) && splitKey.None? && splitEntry.None?
      modifies this
      ensures m == InsertNode(order, n, key, rid).node
      ensures Reports(InsertNode(order, n, key, rid)) && root == old(root)
      decreases n, 1
    {
      match n
      case Leaf(ks, ps) =>
        m := InsertIntoLeaf(ks, ps, key, rid);
      case Internal(ks, cs) =>
        m := InsertIntoInternal(ks, cs, key, rid);
    }

    /** BPlusTreeIndex.insert: clear the split fields, insert at the root, and
        grow a new root over the old one and its sibling when the root split.
        Every leaf stays sorted; a key whose leaf has room is found after the
        matches it had; a key the tree did not hold is found with exactly the
        new record id while every other search is unchanged. */
    method Insert(key: int, rid: RecordId)
      requires Valid()
      modifies this
      ensures root == TreeInsert(order, old(root), key, rid)
      ensures Valid() && splitKey.None? && splitEntry.None?
      ensures |LeafFor(old(root), key).keys| + 1 < order ==> Lookup(root, key) == Lookup(old(root), key) + [rid]
      ensures order >= 2 && Ordered(old(root), None, None) && Lookup(old(root), key) == [] ==>
        Ordered(root, None, None) && Lookup(root, key) == [rid] && forall k :: k != key ==> Lookup(root, k) == Lookup(old(root), k)
    {
      ghost var before := root;
      splitKey := None;
      splitEntry := None;
      var m := InsertInto(root, key, rid);
      root := m;
      if splitEntry.Some? {
        root := Internal([splitKey.value], [root, splitEntry.value]);
        ClearSplit();
      }
      TreeInsertPromises(order, before, key, rid);
    }

    /** BPlusTreeIndex.search: the matches in the leaf the search reaches. */
    method Search(key: int) returns (result: seq<RecordId>)
      requires Valid()
      ensures result == Lookup(root, key)
    {
      result := SearchNode(root, key);
    }
  }
}
