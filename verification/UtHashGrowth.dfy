/** uthash: when a new table gets more buckets. */
module UtHashGrowth {
  import opened Bits
  import opened HashElements
  import opened Facts
  import opened HashTable
  import opened UtHash
  import opened UtHashModel

  /** The elements of `s` that belong in bucket `i` of the first 32. */
  ghost function InSlot<V>(hash: Key -> nat, s: seq<Elem<V>>, i: nat): set<Elem<V>> {
    set e | e in s && hash(e.key) % 32 == i
  }

  /** No bucket has reached its threshold. */
  ghost predicate Thin<V>(hash: Key -> nat, s: seq<Elem<V>>) {
    forall i: nat :: i < 32 ==> |InSlot(hash, s, i)| < 10
  }

  /** The last element is the tenth of its bucket. */
  ghost predicate JustTen<V>(hash: Key -> nat, s: seq<Elem<V>>)
    requires s != []
  {
    |InSlot(hash, s, hash(s[|s| - 1].key) % 32)| == 10
  }

  /** The count of a bucket is the number of elements that belong in it. */
  lemma BucketSize<V>(t: Table<V>, i: nat)
    requires t.Valid() && t.order != [] && t.numBuckets == 32 && i < 32
    ensures t.buckets.Length == 32 && t.buckets[i].count == |InSlot(t.hash, t.order, i)|
  {
    var cs, elems := t.chains, Members(t.order);
    assert Chain(t.buckets[..][i], cs[i]);
    DistinctSize(cs[i]);
    assert Pow2(5) == 32;
    forall e | e in elems ensures e in Members(cs[i]) <==> e in InSlot(t.hash, t.order, i) {
      InChain(cs, elems, i, e);
      SlotIsRemainder(e.hashv, 5);
    }
    forall e | e in Members(cs[i]) ensures e in elems {
      InChain(cs, elems, i, e);
    }
    assert Members(cs[i]) == InSlot(t.hash, t.order, i);
  }

  lemma InSlotNext<V>(hash: Key -> nat, s: seq<Elem<V>>, e: Elem<V>)
    requires e !in s
    ensures |InSlot(hash, s + [e], hash(e.key) % 32)| == |InSlot(hash, s, hash(e.key) % 32)| + 1
    ensures Thin(hash, s + [e]) ==> Thin(hash, s)
    ensures Thin(hash, s) && |InSlot(hash, s + [e], hash(e.key) % 32)| < 10 ==> Thin(hash, s + [e])
  {
    var bkt := hash(e.key) % 32;
    assert InSlot(hash, s + [e], bkt) == InSlot(hash, s, bkt) + {e};
    forall i: nat | i != bkt ensures InSlot(hash, s + [e], i) == InSlot(hash, s, i) {
    }
  }

  lemma {:induction false} SlotNoLarger<V>(hash: Key -> nat, s: seq<Elem<V>>, i: nat)
    ensures |InSlot(hash, s, i)| <= |s|
  {
    if s != [] {
      var n := |s| - 1;
      SlotNoLarger(hash, s[..n], i);
      assert s == s[..n] + [s[n]];
      assert InSlot(hash, s, i) <= InSlot(hash, s[..n], i) + {s[n]};
      Subset(InSlot(hash, s, i), InSlot(hash, s[..n], i) + {s[n]});
    }
  }

  lemma Subset<T>(a: set<T>, b: set<T>)
    requires a <= b
    ensures |a| <= |b|
  {
    assert b == a + (b - a);
  }

  /** The first `i` elements have been added; `es[..i]` is the order. */
  ghost predicate Filled<V>(t: Table<V>, es: seq<Elem<V>>, i: nat)
    requires i <= |es|
    reads t, t.buckets, t.order
  {
    && t.Valid() && t.order == es[..i]
    && (i > 0 && Thin(t.hash, es[..i]) ==> t.Young())
    && (i > 0 && Thin(t.hash, es[..i - 1]) && JustTen(t.hash, es[..i]) ==> t.numBuckets == 64)
  }

  /** A young table knows how many elements its buckets have. */
  lemma SlotCount<V>(t: Table<V>, es: seq<Elem<V>>, i: nat, key: Key)
    requires 0 < i <= |es| && Whole(Filled(t, es, i)) && Thin(t.hash, es[..i])
    ensures Whole(t.Young()) && t.buckets.Length == 32 && Slot(t.hash(key), 32) == t.hash(key) % 32
    ensures t.buckets[t.hash(key) % 32].count == |InSlot(t.hash, es[..i], t.hash(key) % 32)|
  {
    BucketSize(t, t.hash(key) % 32);
    assert Pow2(5) == 32;
    SlotIsRemainder(t.hash(key), 5);
  }

  /** What one more element makes of the table, in terms of its bucket. */
  ghost predicate Grown<V>(t: Table<V>, s: seq<Elem<V>>, e: Elem<V>)
    reads t, t.buckets
  {
    && (s == [] ==> t.Young())
    && (s != [] && Thin(t.hash, s) ==>
          if |InSlot(t.hash, s, t.hash(e.key) % 32)| + 1 < 10 then t.Young() else t.numBuckets == 64)
  }

  lemma FilledNext<V>(t: Table<V>, es: seq<Elem<V>>, i: nat)
    requires i < |es| && Distinct(es) && Whole(t.Valid()) && t.order == es[..i + 1] && Whole(Grown(t, es[..i], es[i]))
    ensures Whole(Filled(t, es, i + 1))
  {
    var s := es[..i];
    assert es[..i + 1] == s + [es[i]] && es[i] !in s;
    InSlotNext(t.hash, s, es[i]);
    assert s == [] ==> InSlot(t.hash, s, t.hash(es[i].key) % 32) == {};
  }

  method AddNext<V>(t: Table<V>, ghost es: seq<Elem<V>>, ghost i: nat, e: Elem<V>)
    requires i < |es| && e == es[i] && Distinct(es) && Whole(Filled(t, es, i))
    modifies t, t.buckets, es
    ensures Whole(Filled(t, es, i + 1)) && (t.buckets == old(t.buckets) || fresh(t.buckets))
  {
    AddGrows(t, es, i, e);
    FilledNext(t, es, i);
  }

  method AddGrows<V>(t: Table<V>, ghost es: seq<Elem<V>>, ghost i: nat, e: Elem<V>)
    requires i < |es| && e == es[i] && Distinct(es) && Whole(Filled(t, es, i))
    modifies t, t.buckets, es
    ensures Whole(t.Valid()) && t.order == es[..i + 1] && (t.buckets == old(t.buckets) || fresh(t.buckets))
    ensures Whole(Grown(t, es[..i], es[i]))
  {
    if i > 0 && Thin(t.hash, es[..i]) {
      SlotCount(t, es, i, e.key);
    }
    assert es[..i + 1] == es[..i] + [e];
    t.Add(e);
  }

  /** Additions to a new table, whatever the hash function: it keeps its 32 buckets as long as none of
      them has ten elements, and has 64 as soon as one does. */
  method AddAll<V>(t: Table<V>, es: seq<Elem<V>>)
    requires t.Valid() && t.order == [] && Distinct(es)
    modifies t, t.buckets, es
    ensures t.Valid() && t.order == es
    ensures es != [] && Thin(t.hash, es) ==> t.numBuckets == 32
    ensures es != [] && Thin(t.hash, es[..|es| - 1]) && JustTen(t.hash, es) ==> t.numBuckets == 64
  {
    var i := 0;
    while i < |es|
      invariant i <= |es| && Whole(Filled(t, es, i)) && (t.buckets == old(t.buckets) || fresh(t.buckets))
    {
      AddNext(t, es, i, es[i]);
      i := i + 1;
    }
    assert es[..i] == es;
  }

  /** So with fewer than ten elements there are 32 buckets... */
  method AddFew<V>(t: Table<V>, es: seq<Elem<V>>)
    requires t.Valid() && t.order == [] && Distinct(es) && 0 < |es| < 10
    modifies t, t.buckets, es
    ensures t.Valid() && t.order == es && t.numBuckets == 32
  {
    forall i: nat | i < 32 ensures |InSlot(t.hash, es, i)| < 10 {
      SlotNoLarger(t.hash, es, i);
    }
    AddAll(t, es);
  }

  /** ...and ten elements that belong in one of them make 64. */
  method AddTen<V>(t: Table<V>, es: seq<Elem<V>>)
    requires t.Valid() && t.order == [] && Distinct(es) && |es| == 10
    requires forall i :: 0 <= i < 10 ==> t.hash(es[i].key) % 32 == t.hash(es[0].key) % 32
    modifies t, t.buckets, es
    ensures t.Valid() && t.order == es && t.numBuckets == 64
  {
    forall i: nat | i < 32 ensures |InSlot(t.hash, es[..9], i)| < 10 {
      SlotNoLarger(t.hash, es[..9], i);
    }
    assert InSlot(t.hash, es, t.hash(es[9].key) % 32) == Members(es);
    DistinctSize(es);
    AddAll(t, es);
  }
}
