/** ordered_multimap: a vector of (key, value) pairs kept sorted by key. */
module OrderedMap {

  datatype Item<V> = Item(first: nat, second: V)

  predicate KeysSorted<V>(items: seq<Item<V>>) {
    forall j, k :: 0 <= j < k < |items| ==> items[j].first <= items[k].first
  }

  predicate KeysDistinct<V>(items: seq<Item<V>>) {
    forall j, k :: 0 <= j < k < |items| ==> items[j].first < items[k].first
  }

  /** `w` is where `std::lower_bound` points: the first key not below `x`. */
  predicate IsLowerBound<V>(items: seq<Item<V>>, x: nat, w: nat) {
    && w <= |items|
    && (forall k :: 0 <= k < w ==> items[k].first < x)
    && (forall k :: w <= k < |items| ==> x <= items[k].first)
  }

  class OrderedMultimap<V> {
    var items: seq<Item<V>>

    constructor ()
      ensures items == []
    {
      items := [];
    }

    /** `lower_bound`: binary search over the sorted vector. */
    method LowerBound(x: nat) returns (w: nat)
      requires KeysSorted(items)
      ensures IsLowerBound(items, x, w)
    {
      var len: nat := |items|;
      w := 0;
      while len > 0
        invariant w + len <= |items|
        invariant forall k :: 0 <= k < w ==> items[k].first < x
        invariant forall k :: w + len <= k < |items| ==> x <= items[k].first
      {
        var half := len / 2;
        if items[w + half].first < x {
          w := w + half + 1;
          len := len - half - 1;
        } else {
          len := half;
        }
      }
    }

    /** `find`: the first item with key `x`; the vector's length when there is none. */
    method Find(x: nat) returns (w: nat)
      requires KeysSorted(items)
      ensures w <= |items|
      ensures w < |items| ==> items[w].first == x && IsLowerBound(items, x, w)
      ensures w == |items| <==> forall k :: 0 <= k < |items| ==> items[k].first != x
    {
      w := LowerBound(x);
      if w < |items| && items[w].first != x {
        w := |items|;
      }
    }

    /** `emplace`: a new item before every item with the same key. */
    method Emplace(x: nat, v: V) returns (w: nat)
      requires KeysSorted(items)
      modifies this
      ensures IsLowerBound(old(items), x, w)
      ensures items == old(items)[..w] + [Item(x, v)] + old(items)[w..]
      ensures KeysSorted(items)
    {
      w := LowerBound(x);
      items := items[..w] + [Item(x, v)] + items[w..];
    }

    method Clear()
      modifies this
      ensures items == []
    {
      items := [];
    }
  }
}
