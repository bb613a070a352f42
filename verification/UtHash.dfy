/** uthash: the table itself. The user's head variable and the table record it leads to are one object. */
module UtHash {
  import opened MergeSort
  import opened Bits
  import opened HashElements
  import opened Facts
  import opened HashTable
  import HashSort

  ghost predicate DistinctKeys<V>(s: seq<Elem<V>>) {
    forall i, j :: 0 <= i < j < |s| ==> s[i].key != s[j].key
  }

  ghost predicate Keyed<V>(hash: Key -> nat, s: seq<Elem<V>>)
    reads s`hashv
  {
    forall e :: e in s ==> e.hashv == hash(e.key)
  }

  /** The application order is linked, and every hash value is that of its key. */
  ghost predicate Ordered<V>(hash: Key -> nat, head: Elem?<V>, tail: Elem?<V>, s: seq<Elem<V>>)
    reads s`next, s`prev, s`hashv
  {
    AppOrder(head, tail, s) && Keyed(hash, s)
  }

  /** `add` is not in the table, or is the only element there with its key. */
  ghost predicate Enters<V>(s: seq<Elem<V>>, add: Elem<V>) {
    add in s ==> forall e :: e in s && e.key == add.key ==> e == add
  }

  /** `s` is the order `t` with `add` in front of the first element that compares above it. */
  ghost predicate EnteredAt<V>(cmp: Comparator<Elem<V>>, t: seq<Elem<V>>, add: Elem<V>, k: nat, s: seq<Elem<V>>) {
    UpperBoundAt(cmp, t, add, k) && s == InsertAt(t, k, add) && Members(s) == Members(t) + {add}
  }

  class Table<V> {
    const hash: Key -> nat
    var head: Elem?<V>
    var tail: Elem?<V>
    var buckets: array<Bucket<V>>
    var numBuckets: nat
    var log2NumBuckets: nat
    var numItems: nat
    var idealChainMaxlen: nat
    var nonidealItems: nat
    var ineffExpands: nat
    var noexpand: bool

    ghost var order: seq<Elem<V>>
    ghost var chains: seq<seq<Elem<V>>>

    /** Everything the integrity check HASH_FSCK looks at, and what makes lookups right. */
    ghost predicate Valid()
      reads this, buckets, order
    {
      && Ordered(hash, head, tail, order)
      && (head != null ==> Sized() && numItems == |order| && Hashed(buckets[..], chains, Members(order)))
    }

    ghost predicate Sized()
      reads this
    {
      buckets.Length == numBuckets == Pow2(log2NumBuckets)
    }

    ghost predicate SameMultipliers(bs: seq<Bucket<V>>)
      reads this`buckets, buckets
    {
      buckets.Length == |bs| && forall j :: 0 <= j < |bs| ==> buckets[j].expandMult == bs[j].expandMult
    }

    /** The table still has the buckets it was made with, and they have never been measured. */
    ghost predicate Young()
      reads this, buckets
    {
      && buckets.Length == numBuckets == 32 && !noexpand
      && forall j :: 0 <= j < 32 ==> buckets[j].expandMult == 0
    }

    ghost predicate Empty()
      reads this, buckets
    {
      buckets.Length == 32 && forall j :: 0 <= j < 32 ==> buckets[j].count == 0
    }

    /** What an addition to a bucket that was `b` makes of a young table. */
    ghost predicate Outgrown(b: Bucket<V>)
      reads this, buckets
    {
      if b.count + 1 < 10 then Young() else numBuckets == 64
    }

    constructor (hash: Key -> nat)
      ensures Valid() && order == [] && this.hash == hash && fresh(buckets)
    {
      this.hash := hash;
      head, tail := null, null;
      buckets := new Bucket<V>[0];
      numBuckets, log2NumBuckets, numItems, idealChainMaxlen, nonidealItems, ineffExpands := 0, 0, 0, 0, 0, 0;
      noexpand := false;
      order, chains := [], [];
    }

    /** HASH_FIND. */
    method Find(key: Key) returns (out: Elem?<V>)
      requires Valid()
      ensures out != null ==> out in order && out.key == key
      ensures out == null ==> forall e :: e in order ==> e.key != key
    {
      out := null;
      if head != null {
        var hashv := hash(key);
        var bkt := Slot(hashv, numBuckets);
        assert Chain(buckets[..][bkt], chains[bkt]);
        out := FindInBucket(buckets[bkt], key, hashv, chains[bkt]);
        if out == null {
          forall e | e in order ensures e.key != key {
            assert e in Members(order);
          }
        }
      }
    }

    /** HASH_MAKE_TABLE: a zeroed record with the initial bucket array. */
    method MakeTable(add: Elem<V>)
      modifies this
      ensures fresh(buckets) && Sized() && Whole(Hashed(buckets[..], chains, {}))
      ensures numBuckets == 32 && log2NumBuckets == 5
      ensures forall j :: 0 <= j < 32 ==> buckets[j] == Bucket(null, 0, 0)
      ensures numItems == idealChainMaxlen == nonidealItems == ineffExpands == 0 && !noexpand
      ensures tail == add && head == old(head) && order == old(order)
    {
      ZeroRecord(add);
      var nb;
      ghost var cs;
      nb, cs := ZeroedBuckets<V>(INITIAL_NUM_BUCKETS, 0);
      buckets, chains := nb, cs;
    }

    method ZeroRecord(add: Elem<V>)
      modifies this`tail, this`numBuckets, this`log2NumBuckets, this`numItems, this`idealChainMaxlen,
               this`nonidealItems, this`ineffExpands, this`noexpand
      ensures numBuckets == INITIAL_NUM_BUCKETS == Pow2(log2NumBuckets) && log2NumBuckets == INITIAL_NUM_BUCKETS_LOG2
      ensures numItems == idealChainMaxlen == nonidealItems == ineffExpands == 0 && !noexpand && tail == add
    {
      tail := add;
      numBuckets, log2NumBuckets := INITIAL_NUM_BUCKETS, INITIAL_NUM_BUCKETS_LOG2;
      numItems, idealChainMaxlen, nonidealItems, ineffExpands := 0, 0, 0, 0;
      noexpand := false;
      InitialSize();
    }

    /** HASH_ADD_TO_TABLE: count the element, push it on its bucket, and expand if the bucket is full. */
    method AddToTable(add: Elem<V>, ghost elems: set<Elem<V>>, ghost all: set<Elem<V>>)
      requires Sized() && Whole(Hashed(buckets[..], chains, elems)) && add !in elems && all == elems + {add}
      modifies this`buckets, this`numBuckets, this`log2NumBuckets, this`idealChainMaxlen, this`nonidealItems,
               this`ineffExpands, this`noexpand, this`chains, this`numItems, buckets,
               add`hhNext, add`hhPrev, elems`hhNext, elems`hhPrev
      ensures buckets == old(buckets) || fresh(buckets)
      ensures Sized() && Whole(Hashed(buckets[..], chains, all)) && numItems == old(numItems) + 1
      ensures numBuckets == old(numBuckets) || numBuckets == 2 * old(numBuckets)
      ensures var b := old(buckets[Slot(add.hashv, numBuckets)]);
              && (numBuckets == old(numBuckets) ==> old(noexpand) || b.count + 1 < 10 * (b.expandMult + 1))
              && (numBuckets != old(numBuckets) ==> !old(noexpand) && b.count + 1 >= 10 * (b.expandMult + 1))
      ensures numBuckets == old(numBuckets) ==> Whole(SameMultipliers(old(buckets[..]))) && noexpand == old(noexpand)
    {
      var full := Push(add, elems, all);
      if full && !noexpand {
        ExpandBuckets(all);
      }
    }

    /** For a young table: it stays as it is, or doubles. */
    method AddOrGrow(add: Elem<V>, ghost elems: set<Elem<V>>, ghost all: set<Elem<V>>)
      requires Sized() && Whole(Hashed(buckets[..], chains, elems)) && add !in elems && all == elems + {add}
      modifies this`buckets, this`numBuckets, this`log2NumBuckets, this`idealChainMaxlen, this`nonidealItems,
               this`ineffExpands, this`noexpand, this`chains, this`numItems, buckets,
               add`hhNext, add`hhPrev, elems`hhNext, elems`hhPrev
      ensures buckets == old(buckets) || fresh(buckets)
      ensures Sized() && Whole(Hashed(buckets[..], chains, all)) && numItems == old(numItems) + 1
      ensures old(Young()) ==> Whole(Outgrown(old(buckets[Slot(add.hashv, 32)])))
    {
      AddToTable(add, elems, all);
    }

    /** The first half: count the element and push it; does its bucket ask for an expansion? */
    method Push(add: Elem<V>, ghost elems: set<Elem<V>>, ghost all: set<Elem<V>>) returns (full: bool)
      requires Sized() && Whole(Hashed(buckets[..], chains, elems)) && add !in elems && all == elems + {add}
      modifies this`chains, this`numItems, buckets, add`hhNext, add`hhPrev, elems`hhPrev
      ensures Sized() && Whole(Hashed(buckets[..], chains, all)) && numItems == old(numItems) + 1
      ensures var b := old(buckets[Slot(add.hashv, numBuckets)]);
              full <==> b.count + 1 >= (b.expandMult + 1) * BKT_CAPACITY_THRESH
      ensures Whole(SameMultipliers(old(buckets[..])))
    {
      numItems := numItems + 1;
      var bkt;
      ghost var cs;
      bkt, cs := PushHashed(buckets, add, chains, elems);
      chains := cs;
      full := buckets[bkt].count >= (buckets[bkt].expandMult + 1) * BKT_CAPACITY_THRESH;
    }

    /** The common end of the two add macros: the application order already runs through `s`, the
        buckets still hold the elements from before. */
    method FinishAdd(add: Elem<V>, ghost s: seq<Elem<V>>, ghost elems: set<Elem<V>>)
      requires head != null && Whole(Ordered(hash, head, tail, s))
      requires Members(s) == elems + {add} && add !in elems && |s| == numItems + 1
      requires Sized() && Whole(Hashed(buckets[..], chains, elems))
      modifies this, buckets, s
      ensures Whole(Valid()) && order == s && (buckets == old(buckets) || fresh(buckets))
      ensures old(Young()) ==> Whole(Outgrown(old(buckets[Slot(add.hashv, 32)])))
    {
      assert add in Members(s);
      AddAround(add, s, elems, Members(s));
      Adopt(s, Members(s));
    }

    /** From here on the table is described by `s`. */
    ghost method Adopt(s: seq<Elem<V>>, elems: set<Elem<V>>)
      requires head != null && Sized() && numItems == |s| && Members(s) == elems
      requires Whole(Ordered(hash, head, tail, s)) && Whole(Hashed(buckets[..], chains, elems))
      modifies this`order
      ensures Whole(Valid()) && order == s
    {
      order := s;
    }

    /** The application order does not notice. */
    method AddAround(add: Elem<V>, ghost s: seq<Elem<V>>, ghost elems: set<Elem<V>>, ghost all: set<Elem<V>>)
      requires Sized() && Whole(Hashed(buckets[..], chains, elems)) && add !in elems && all == elems + {add}
      requires Whole(Ordered(hash, head, tail, s))
      modifies this`buckets, this`numBuckets, this`log2NumBuckets, this`idealChainMaxlen, this`nonidealItems,
               this`ineffExpands, this`noexpand, this`chains, this`numItems, buckets,
               add`hhNext, add`hhPrev, elems`hhNext, elems`hhPrev
      ensures buckets == old(buckets) || fresh(buckets)
      ensures Sized() && Whole(Hashed(buckets[..], chains, all)) && numItems == old(numItems) + 1
      ensures Whole(Ordered(hash, head, tail, s))
      ensures old(Young()) ==> Whole(Outgrown(old(buckets[Slot(add.hashv, 32)])))
    {
      AddOrGrow(add, elems, all);
    }

    /** Store the hash value in an element that is not in the table yet. */
    method SetHash(add: Elem<V>)
      requires Valid() && add !in order
      modifies add`hashv
      ensures Whole(Valid()) && add.hashv == hash(add.key)
    {
      add.hashv := hash(add.key);
    }

    /** HASH_ADD: append in application order, whatever the key. */
    method Add(add: Elem<V>)
      requires Valid() && add !in order
      modifies this, buckets, order, add
      ensures Valid() && (buckets == old(buckets) || fresh(buckets))
      ensures order == old(order) + [add]
      ensures old(order) == [] ==> Whole(Young())
      ensures old(order) != [] && old(Young()) ==> Whole(Outgrown(old(buckets[Slot(hash(add.key), 32)])))
    {
      ghost var elems, s := Members(order), [];
      SetHash(add);
      s := PlaceLast(add);
      FinishAdd(add, s, elems);
    }

    method PlaceLast(add: Elem<V>) returns (ghost s: seq<Elem<V>>)
      requires Whole(Valid()) && add !in order && add.hashv == hash(add.key)
      modifies this, Members(order)`next, add`next, add`prev
      ensures order == old(order) && s == order + [add] && Members(s) == Members(order) + {add}
      ensures head != null && Whole(Ordered(hash, head, tail, s))
      ensures |s| == numItems + 1 && Sized() && Whole(Hashed(buckets[..], chains, Members(order)))
      ensures order == [] ==> fresh(buckets) && Whole(Young()) && Whole(Empty())
      ensures order != [] ==> buckets == old(buckets) && (old(Young()) ==> Whole(Young()))
    {
      s := order + [add];
      assert Members(s) == Members(order) + {add};
      if head == null {
        Start(add, s);
      } else {
        EnterLast(add, s);
      }
    }

    /** Make a table for its first element. */
    method Start(add: Elem<V>, ghost s: seq<Elem<V>>)
      requires s == [add] && add.hashv == hash(add.key)
      modifies this, add`next, add`prev
      ensures order == old(order) && head == tail == add && numItems == 0
      ensures Whole(Ordered(hash, head, tail, s)) && Sized() && Whole(Hashed(buckets[..], chains, {}))
      ensures fresh(buckets) && Whole(Young()) && Whole(Empty())
    {
      add.next, add.prev := null, null;
      MakeTable(add);
      head := add;
    }

    /** Put `add` at the end of a non-empty application order; the buckets are not concerned. */
    method EnterLast(add: Elem<V>, ghost s: seq<Elem<V>>)
      requires head != null && Whole(Ordered(hash, head, tail, order)) && add !in order && add.hashv == hash(add.key)
      requires s == order + [add]
      requires Sized() && Whole(Hashed(buckets[..], chains, Members(order)))
      modifies this`tail, Members(order)`next, add`next, add`prev
      ensures head != null && Whole(Ordered(hash, head, tail, s))
      ensures Sized() && Whole(Hashed(buckets[..], chains, Members(order)))
    {
      ListLast(add, s);
    }

    method ListLast(add: Elem<V>, ghost s: seq<Elem<V>>)
      requires head != null && Whole(Ordered(hash, head, tail, order)) && add !in order && add.hashv == hash(add.key)
      requires s == order + [add]
      modifies this`tail, Members(order)`next, add`next, add`prev
      ensures head != null && Whole(Ordered(hash, head, tail, s))
    {
      assert tail in order;
      AppendList(head, tail, add, order);
      tail := add;
    }

    /** HASH_ADD_INORDER: insert in front of the first element that compares above `add`. */
    method AddInorder(add: Elem<V>, cmp: Comparator<Elem<V>>) returns (ghost k: nat)
      requires Valid() && add !in order
      modifies this, buckets, order, add
      ensures Valid() && (buckets == old(buckets) || fresh(buckets))
      ensures UpperBoundAt(cmp, old(order), add, k) && order == InsertAt(old(order), k, add)
    {
      ghost var elems, s := Members(order), [];
      SetHash(add);
      k, s := PlaceInorder(add, cmp);
      FinishAdd(add, s, elems);
    }

    method PlaceInorder(add: Elem<V>, cmp: Comparator<Elem<V>>) returns (ghost k: nat, ghost s: seq<Elem<V>>)
      requires Whole(Valid()) && add !in order && add.hashv == hash(add.key)
      modifies this, Members(order)`next, Members(order)`prev, add`next, add`prev
      ensures order == old(order) && (buckets == old(buckets) || fresh(buckets))
      ensures UpperBoundAt(cmp, order, add, k) && s == InsertAt(order, k, add) && Members(s) == Members(order) + {add}
      ensures head != null && Whole(Ordered(hash, head, tail, s))
      ensures |s| == numItems + 1 && Sized() && Whole(Hashed(buckets[..], chains, Members(order)))
    {
      if head == null {
        k, s := 0, [add];
        assert Members(s) == {add};
        Start(add, s);
      } else {
        k, s := EnterOrder(add, cmp);
      }
    }

    /** Put `add` in its place in a non-empty application order; the buckets are not concerned. */
    method EnterOrder(add: Elem<V>, cmp: Comparator<Elem<V>>) returns (ghost k: nat, ghost s: seq<Elem<V>>)
      requires head != null && Whole(AppOrder(head, tail, order)) && add !in order
      requires Whole(Keyed(hash, order)) && add.hashv == hash(add.key)
      requires Sized() && numItems == |order| && Whole(Hashed(buckets[..], chains, Members(order)))
      modifies this`head, this`tail, Members(order)`next, Members(order)`prev, add`next, add`prev
      ensures Whole(EnteredAt(cmp, order, add, k, s))
      ensures head != null && Whole(Ordered(hash, head, tail, s))
      ensures |s| == numItems + 1 && Sized() && Whole(Hashed(buckets[..], chains, Members(order)))
    {
      k, s := ListInorder(add, cmp);
    }

    method ListInorder(add: Elem<V>, cmp: Comparator<Elem<V>>) returns (ghost k: nat, ghost s: seq<Elem<V>>)
      requires head != null && Whole(AppOrder(head, tail, order)) && add !in order
      requires Whole(Keyed(hash, order)) && add.hashv == hash(add.key)
      modifies this`head, this`tail, Members(order)`next, Members(order)`prev, add`next, add`prev
      ensures Whole(EnteredAt(cmp, order, add, k, s))
      ensures head != null && Whole(Ordered(hash, head, tail, s))
    {
      var iter;
      iter, k := InnerLoop(head, add, cmp, tail, order);
      s := InsertAt(order, k, add);
      InsertMembers(order, k, add);
      KeyedMembers(hash, order, s, add);
      var h, t := LinkAt(add, iter, k, s);
      head, tail := h, t;
    }

    /** Hook `add` in front of `iter`. */
    method LinkAt(add: Elem<V>, iter: Elem?<V>, ghost k: nat, ghost s: seq<Elem<V>>) returns (h: Elem<V>, t: Elem<V>)
      requires head != null && Whole(AppOrder(head, tail, order)) && add !in order
      requires k <= |order| && iter == At(order, k) && s == InsertAt(order, k, add) && Whole(Keyed(hash, s))
      modifies Members(order)`next, Members(order)`prev, add`next, add`prev
      ensures Whole(Ordered(hash, h, t, s))
    {
      h, t := InsertList(head, tail, add, iter, order, k);
    }

    /** HASH_DELETE. Deleting the last element frees the table. */
    method Delete(del: Elem<V>, ghost k: nat)
      requires Valid() && k < |order| && order[k] == del
      modifies this, buckets, order
      ensures Valid() && buckets == old(buckets)
      ensures order == Without(old(order), k)
    {
      if del.prev == null && del.next == null {
        assert |order| == 1;
        head := null;
        order := [];
      } else {
        ghost var elems := Members(order);
        ghost var s := LeaveOrder(del, k);
        FinishDelete(del, s, elems);
      }
    }

    /** Take `del` out of the application order; the buckets are not concerned. */
    method LeaveOrder(del: Elem<V>, ghost k: nat) returns (ghost s: seq<Elem<V>>)
      requires head != null && Whole(Ordered(hash, head, tail, order))
      requires k < |order| && order[k] == del && |order| > 1
      requires Sized() && numItems == |order| && Whole(Hashed(buckets[..], chains, Members(order)))
      modifies this`head, this`tail, Members(order)`next, Members(order)`prev
      ensures s == Without(order, k) && Members(s) == Members(order) - {del}
      ensures head != null && Whole(Ordered(hash, head, tail, s))
      ensures |s| == numItems - 1 && Sized() && Whole(Hashed(buckets[..], chains, Members(order)))
    {
      s := ListDelete(del, k);
    }

    method ListDelete(del: Elem<V>, ghost k: nat) returns (ghost s: seq<Elem<V>>)
      requires head != null && Whole(Ordered(hash, head, tail, order))
      requires k < |order| && order[k] == del && |order| > 1
      modifies this`head, this`tail, Members(order)`next, Members(order)`prev
      ensures s == Without(order, k) && Members(s) == Members(order) - {del}
      ensures head != null && Whole(Ordered(hash, head, tail, s))
    {
      s := Without(order, k);
      WithoutMembers(order, k);
      assert Members(s) == Members(order) - {del};
      KeyedMembers(hash, order, s, del);
      var h, t := DeleteList(head, tail, del, order, k);
      head, tail := h, t;
    }

    method FinishDelete(del: Elem<V>, ghost s: seq<Elem<V>>, ghost elems: set<Elem<V>>)
      requires head != null && Whole(Ordered(hash, head, tail, s))
      requires Members(s) == elems - {del} && del in elems && |s| == numItems - 1
      requires Sized() && Whole(Hashed(buckets[..], chains, elems))
      modifies this`order, this`chains, this`numItems, buckets, elems`hhNext, elems`hhPrev
      ensures Whole(Valid()) && order == s
    {
      DeleteAround(del, s, elems);
      Adopt(s, Members(s));
    }

    /** The application order does not notice. */
    method DeleteAround(del: Elem<V>, ghost s: seq<Elem<V>>, ghost elems: set<Elem<V>>)
      requires Whole(Hashed(buckets[..], chains, elems)) && del in elems && numItems > 0
      requires Whole(Ordered(hash, head, tail, s))
      modifies this`chains, this`numItems, buckets, elems`hhNext, elems`hhPrev
      ensures Whole(Hashed(buckets[..], chains, elems - {del})) && numItems == old(numItems) - 1
      ensures Whole(Ordered(hash, head, tail, s))
    {
      BucketDelete(del, elems);
    }

    method BucketDelete(del: Elem<V>, ghost elems: set<Elem<V>>)
      requires Whole(Hashed(buckets[..], chains, elems)) && del in elems && numItems > 0
      modifies this`chains, this`numItems, buckets, elems`hhNext, elems`hhPrev
      ensures Whole(Hashed(buckets[..], chains, elems - {del})) && numItems == old(numItems) - 1
    {
      ghost var cs, m := DelHashed(buckets, del, chains, elems);
      chains := cs;
      numItems := numItems - 1;
    }

    /** HASH_REPLACE: put `add` in the place of an element with its key, at the end of the order. */
    method Replace(add: Elem<V>) returns (replaced: Elem?<V>, ghost k: nat)
      requires Valid() && Enters(order, add)
      modifies this, buckets, order, add
      ensures Valid() && (buckets == old(buckets) || fresh(buckets))
      ensures replaced == null ==> (forall e :: e in old(order) ==> e.key != add.key) && order == old(order) + [add]
      ensures replaced != null ==> k < |old(order)| && old(order)[k] == replaced && replaced.key == add.key
                                   && order == Without(old(order), k) + [add]
    {
      replaced, k := Evict(add);
      Add(add);
    }

    /** HASH_REPLACE_INORDER: the same, with `add` in its place in the order. */
    method ReplaceInorder(add: Elem<V>, cmp: Comparator<Elem<V>>)
      returns (replaced: Elem?<V>, ghost k: nat, ghost m: nat)
      requires Valid() && Enters(order, add)
      modifies this, buckets, order, add
      ensures Valid() && (buckets == old(buckets) || fresh(buckets))
      ensures replaced == null ==> forall e :: e in old(order) ==> e.key != add.key
      ensures replaced != null ==> k < |old(order)| && old(order)[k] == replaced && replaced.key == add.key
      ensures var rest := if replaced == null then old(order) else Without(old(order), k);
              UpperBoundAt(cmp, rest, add, m) && order == InsertAt(rest, m, add)
    {
      replaced, k := Evict(add);
      m := AddInorder(add, cmp);
    }

    /** The find and delete that both begin with. */
    method Evict(add: Elem<V>) returns (replaced: Elem?<V>, ghost k: nat)
      requires Valid() && Enters(order, add)
      modifies this, buckets, order
      ensures Valid() && buckets == old(buckets) && add !in order
      ensures replaced == null ==> (forall e :: e in old(order) ==> e.key != add.key) && order == old(order)
      ensures replaced != null ==> k < |old(order)| && old(order)[k] == replaced && replaced.key == add.key
                                   && order == Without(old(order), k)
    {
      k := 0;
      replaced := Find(add.key);
      if replaced != null {
        k :| 0 <= k < |order| && order[k] == replaced;
        WithoutMembers(order, k);
        Delete(replaced, k);
      }
    }

    /** HASH_SRT. The chains, and with them every lookup, stay as they are. */
    method Sort(cmp: Comparator<Elem<V>>)
      requires Valid()
      modifies this`head, this`tail, this`order, Members(order)`next, Members(order)`prev
      ensures Valid() && order == MergeSort.Sort(cmp, old(order))
    {
      if head != null {
        ghost var s, elems := [], Members(order);
        var h, t;
        h, t, s := HashSort.SortOrder(head, tail, cmp, order);
        KeyedMembers(hash, order, s, head);
        assert Whole(Hashed(buckets[..], chains, elems));
        SetOrder(h, t, s, elems);
      }
    }

    /** Hand the sorted order back to the head variable and the record. */
    method SetOrder(h: Elem<V>, t: Elem<V>, ghost s: seq<Elem<V>>, ghost elems: set<Elem<V>>)
      requires Sized() && numItems == |s| > 0 && Members(s) == elems
      requires Whole(Ordered(hash, h, t, s)) && Whole(Hashed(buckets[..], chains, elems))
      modifies this`head, this`tail, this`order
      ensures Whole(Valid()) && order == s
    {
      head, tail := h, t;
      Adopt(s, elems);
    }

    /** HASH_CLEAR. */
    method Clear()
      requires Valid()
      modifies this`head, this`order
      ensures Valid() && order == []
    {
      head := null;
      order := [];
    }

    /** HASH_COUNT. */
    method Count() returns (n: nat)
      requires Valid()
      ensures n == |order|
    {
      n := if head != null then numItems else 0;
    }

    /** HASH_EXPAND_BUCKETS. */
    method ExpandBuckets(ghost elems: set<Elem<V>>)
      requires Sized() && Whole(Hashed(buckets[..], chains, elems))
      modifies this`buckets, this`numBuckets, this`log2NumBuckets, this`idealChainMaxlen, this`nonidealItems,
               this`ineffExpands, this`noexpand, this`chains, elems`hhNext, elems`hhPrev
      ensures fresh(buckets) && Sized() && Whole(Hashed(buckets[..], chains, elems))
      ensures numBuckets == 2 * old(numBuckets) && log2NumBuckets == old(log2NumBuckets) + 1
      ensures Whole(IsCeiling(idealChainMaxlen, numItems, numBuckets))
      ensures Whole(Measured(buckets[..], idealChainMaxlen, nonidealItems))
      ensures numItems > 0 ==> Whole(ChainsBounded(buckets[..], idealChainMaxlen))
      ensures ineffExpands == if nonidealItems > numItems / 2 then old(ineffExpands) + 1 else 0
      ensures noexpand == (old(noexpand) || ineffExpands > 1)
    {
      var ideal := IdealChainMaxlen(numItems, log2NumBuckets + 1, numBuckets * 2);
      idealChainMaxlen := ideal;
      var nb, nonideal;
      ghost var cs;
      nb, nonideal, cs := Rehash(buckets, ideal, chains, elems);
      assert numItems == old(numItems) && ineffExpands == old(ineffExpands) && noexpand == old(noexpand);
      Install(nb, nonideal, cs, elems);
    }

    /** The closing bookkeeping of an expansion. */
    method Install(nb: array<Bucket<V>>, nonideal: nat, ghost cs: seq<seq<Elem<V>>>, ghost elems: set<Elem<V>>)
      requires Sized() && nb.Length == 2 * numBuckets && Whole(Hashed(nb[..], cs, elems))
      requires Whole(Measured(nb[..], idealChainMaxlen, nonideal))
      requires idealChainMaxlen > 0 ==> Whole(ChainsBounded(nb[..], idealChainMaxlen))
      modifies this`buckets, this`numBuckets, this`log2NumBuckets, this`nonidealItems,
               this`ineffExpands, this`noexpand, this`chains
      ensures buckets == nb && Sized() && Whole(Hashed(buckets[..], chains, elems))
      ensures idealChainMaxlen > 0 ==> Whole(ChainsBounded(buckets[..], idealChainMaxlen))
      ensures Whole(Measured(buckets[..], idealChainMaxlen, nonidealItems))
      ensures numBuckets == 2 * old(numBuckets) && log2NumBuckets == old(log2NumBuckets) + 1
      ensures ineffExpands == if nonidealItems > numItems / 2 then old(ineffExpands) + 1 else 0
      ensures noexpand == (old(noexpand) || ineffExpands > 1)
    {
      nonidealItems := nonideal;
      numBuckets := numBuckets * 2;
      log2NumBuckets := log2NumBuckets + 1;
      buckets := nb;
      chains := cs;
      ineffExpands := if nonidealItems > Shr(numItems, 1) then ineffExpands + 1 else 0;
      ShrDivides(numItems, 1);
      if ineffExpands > 1 {
        noexpand := true;
      }
    }
  }

  lemma KeyedMembers<V>(hash: Key -> nat, s: seq<Elem<V>>, t: seq<Elem<V>>, add: Elem<V>)
    requires Keyed(hash, s) && add.hashv == hash(add.key) && Members(t) <= Members(s) + {add}
    ensures Keyed(hash, t)
  {
    forall e | e in t ensures e.hashv == hash(e.key) {
      assert e in Members(t);
    }
  }

  lemma InsertMembers<V>(s: seq<Elem<V>>, k: nat, add: Elem<V>)
    requires k <= |s|
    ensures Members(InsertAt(s, k, add)) == Members(s) + {add}
  {
    var r := InsertAt(s, k, add);
    assert r[k] == add;
    forall e | e in s ensures e in r {
      var i :| 0 <= i < |s| && s[i] == e;
      assert r[if i < k then i else i + 1] == e;
    }
  }

  lemma InitialSize()
    ensures INITIAL_NUM_BUCKETS == Pow2(INITIAL_NUM_BUCKETS_LOG2)
  {
  }

  /** `q` is `n / d`, rounded up. */
  ghost predicate IsCeiling(q: nat, n: nat, d: nat) {
    n <= q * d < n + d
  }

  /** It is the least number of elements per bucket that leaves none over. */
  lemma CeilingIsLeast(q: nat, n: nat, d: nat, r: nat)
    requires d > 0 && IsCeiling(q, n, d)
    ensures q * d >= n
    ensures r * d >= n ==> q <= r
  {
    if r < q {
      Scaled(r + 1, q, d);
      assert (r + 1) * d == r * d + d;
    }
  }

  /** The longest chain of an ideal table of `b = 2^lb` buckets, by shift and mask. */
  method IdealChainMaxlen(n: nat, lb: nat, b: nat) returns (q: nat)
    requires b == Pow2(lb)
    ensures Whole(IsCeiling(q, n, b)) && (n > 0 ==> q > 0)
  {
    q := Shr(n, lb) + (if And(n, b - 1) != 0 then 1 else 0);
    ShrDivides(n, lb);
    AndMask(n, lb);
    Ceiling(n, b);
  }

  lemma Ceiling(n: nat, d: nat)
    requires d > 0
    ensures n <= (n / d + (if n % d != 0 then 1 else 0)) * d < n + d
    ensures n > 0 ==> n / d + (if n % d != 0 then 1 else 0) > 0
  {
    var q, r := n / d, n % d;
    assert n == q * d + r;
    assert (q + 1) * d == q * d + d;
  }
}
