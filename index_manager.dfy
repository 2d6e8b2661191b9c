/** IndexManager: B+ tree indexes kept by name. */
module IndexManager {
  import opened Wrappers
  import HeapPage
  import opened BPlusTree

  type RecordId = HeapPage.RecordId

  /** The failure of an insert or a search on a name no index is registered
      under: the source looks the tree up and dereferences null. */
  const NoSuchIndex: string := "NullPointerException"

  class IndexManager {
    var indexes: map<string, BPlusTreeIndex>

    /** Every tree is valid and no tree is registered under two names, so an
        operation on one name leaves every other index as it was. */
    ghost predicate Valid()
      reads this, indexes.Values
    {
      (forall n :: n in indexes ==> indexes[n].Valid()) &&
      forall a, b :: a in indexes && b in indexes && a != b ==> indexes[a] != indexes[b]
    }

    /** The root of every registered tree, by name. */
    ghost function Roots(): map<string, Node>
      reads this, indexes.Values
    {
      map n | n in indexes :: indexes[n].root
    }

    /** A new manager holds no index. */
    constructor()
      ensures indexes == map[] && Valid()
    {
      indexes := map[];
    }

    /** createIndex: a fresh empty tree under the name, replacing any index
        that was there; every other index is unchanged. */
    method CreateIndex(name: string, order: int)
      requires Valid()
      modifies this
      ensures Valid() && name in indexes && fresh(indexes[name]) && indexes[name].order == order
      ensures Roots() == old(Roots())[name := Leaf([], [])]
      ensures forall k :: Lookup(Roots()[name], k) == []
    {
      var t := new BPlusTreeIndex(order);
      indexes := indexes[name := t];
    }

    /** insert: the named tree takes the entry exactly as BPlusTreeIndex.insert
        does; an unknown name fails and nothing changes. */
    method Insert(name: string, key: int, rid: RecordId) returns (r: Result<()>)
      requires Valid()
      modifies indexes.Values
      ensures Valid() && indexes == old(indexes)
      ensures r.Err? <==> name !in indexes
      ensures r.Err? ==> r.msg == NoSuchIndex && Roots() == old(Roots())
      ensures r.Ok? ==> Roots() == old(Roots())[name := TreeInsert(indexes[name].order, old(Roots())[name], key, rid)]
    {
      if name !in indexes {
        return Err(NoSuchIndex);
      }
      var t := indexes[name];
      t.Insert(key, rid);
      r := Ok(());
      forall a, b | a in indexes && b in indexes && a != b ensures indexes[a] != indexes[b] {
      }
      assert Roots() == old(Roots())[name := t.root];
    }

    /** search: the matches in the named tree; an unknown name fails. */
    method Search(name: string, key: int) returns (r: Result<seq<RecordId>>)
      requires Valid()
      ensures r.Err? <==> name !in indexes
      ensures r.Err? ==> r.msg == NoSuchIndex
      ensures r.Ok? ==> r.value == Lookup(Roots()[name], key)
    {
      if name !in indexes {
        return Err(NoSuchIndex);
      }
      var found := indexes[name].Search(key);
      return Ok(found);
    }
  }
}
