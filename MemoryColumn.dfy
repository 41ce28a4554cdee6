/** An append-only store that gives each distinct item a sequential key
    (src/IpLookup/Storage/InMemory/DataStructures/MemoryColumn.cs). */
module MemoryColumn {

  predicate Distinct<T(==)>(items: seq<T>) {
    forall i, j :: 0 <= i < j < |items| ==> items[i] != items[j]
  }

  class MemoryColumn<T(==)> {
    var items: seq<T>
    var itemsKey: map<T, int>
    var key: int

    /** `_key` counts the items, and `_itemsKey` maps each stored item to its
        position in `_items` and nothing else. */
    ghost predicate Valid()
      reads this
    {
      && key == |items|
      && (forall i :: 0 <= i < |items| ==> items[i] in itemsKey && itemsKey[items[i]] == i)
      && (forall x :: x in itemsKey ==> 0 <= itemsKey[x] < |items| && items[itemsKey[x]] == x)
    }

    /** The number of stored items, which is the next key to hand out; every
        key handed out so far is below it. */
    function Count(): (c: nat)
      reads this
      ensures Valid() ==> c == key && forall x :: x in itemsKey ==> itemsKey[x] < c
    {
      |items|
    }

    /** `Get`: positional retrieval; only keys `Add` has handed out are valid. */
    function Get(id: int): (item: T)
      reads this
      requires 0 <= id < Count()
      ensures Valid() ==> item in itemsKey && itemsKey[item] == id
    {
      items[id]
    }

    /** The capacity hint only sizes the backing collections. */
    constructor(capacity: int)
      ensures Valid() && items == []
    {
      items, itemsKey, key := [], map[], 0;
    }

    /** `Add`: an item already stored keeps its key and nothing changes; a new
        item is appended under the next key. Either way `Get` of the returned
        key gives the item back, and earlier items keep their keys. */
    method Add(item: T) returns (k: int)
      requires Valid()
      modifies this
      ensures Valid()
      ensures 0 <= k < Count() && Get(k) == item
      ensures item in old(items) ==> unchanged(this) && k == old(itemsKey[item])
      ensures item !in old(items) ==> items == old(items) + [item] && k == old(Count())
      ensures forall x :: x in old(itemsKey) ==> x in itemsKey && itemsKey[x] == old(itemsKey[x])
    {
      if item in itemsKey {
        return itemsKey[item];
      }
      items := items + [item];
      itemsKey := itemsKey[item := key];
      k := key;
      key := key + 1;
    }
  }

  /** The column never stores an item twice. */
  lemma StoredItemsAreDistinct<T>(column: MemoryColumn<T>)
    requires column.Valid()
    ensures Distinct(column.items)
  {
    forall i, j | 0 <= i < j < |column.items|
      ensures column.items[i] != column.items[j]
    {
      assert column.itemsKey[column.items[i]] == i;
    }
  }

  function ItemSet<T>(items: seq<T>): set<T> {
    set i | 0 <= i < |items| :: items[i]
  }

  /** A sequence without repetitions has as many distinct items as elements. */
  lemma {:induction false} DistinctItemCount<T>(items: seq<T>)
    requires Distinct(items)
    ensures |ItemSet(items)| == |items|
  {
    if items != [] {
      var n := |items| - 1;
      var front := items[..n];
      assert Distinct(front);
      DistinctItemCount(front);
      assert ItemSet(items) == ItemSet(front) + {items[n]};
      assert items[n] !in ItemSet(front);
    }
  }
}
