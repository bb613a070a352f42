/** uthash: the elements of a table, which sit in two linked structures at once, and the operations
    that touch only one of the two: the chain of one bucket, or the application order. */
module HashElements {
  import opened Facts
  import opened MergeSort

  /** The key bytes; equality covers the length check and the byte comparison of HASH_KEYCMP. */
  type Key = seq<bv8>

  /** A user structure with its embedded hash handle. */
  class Elem<V> {
    const key: Key
    const value: V
    var hashv: nat
    var prev: Elem?<V>
    var next: Elem?<V>
    var hhPrev: Elem?<V>
    var hhNext: Elem?<V>

    constructor (key: Key, value: V)
      ensures this.key == key && this.value == value
    {
      this.key := key;
      this.value := value;
      hashv := 0;
      prev, next, hhPrev, hhNext := null, null, null, null;
    }
  }

  datatype Bucket<V> = Bucket(hhHead: Elem?<V>, count: nat, expandMult: nat)

  ghost predicate Distinct<V>(s: seq<Elem<V>>) {
    forall i, j :: 0 <= i < j < |s| ==> s[i] != s[j]
  }

  ghost function At<V>(s: seq<Elem<V>>, k: int): Elem?<V> {
    if 0 <= k < |s| then s[k] else null
  }

  ghost function Members<V>(s: seq<Elem<V>>): set<Elem<V>> {
    set e | e in s
  }

  function Without<X>(s: seq<X>, k: nat): (r: seq<X>)
    requires k < |s|
    ensures |r| == |s| - 1
    ensures forall i {:trigger r[i]} :: 0 <= i < |r| ==> r[i] == if i < k then s[i] else s[i + 1]
  {
    s[..k] + s[k + 1..]
  }

  lemma WithoutMembers<V>(s: seq<Elem<V>>, k: nat)
    requires k < |s| && Distinct(s)
    ensures forall e :: e in Without(s, k) <==> e in s && e != s[k]
  {
    var r := Without(s, k);
    forall e ensures e in r <==> e in s && e != s[k] {
      if e in s && e != s[k] {
        var i :| 0 <= i < |s| && s[i] == e;
        assert e == r[if i < k then i else i - 1];
      }
    }
  }

  // ---------- one bucket ----------

  /** The bucket counts and heads the doubly linked chain `c`. */
  ghost predicate Chain<V>(b: Bucket<V>, c: seq<Elem<V>>)
    reads c`hhNext, c`hhPrev
  {
    && b.count == |c| && b.hhHead == At(c, 0)
    && Distinct(c)
    && (forall k {:trigger c[k].hhNext} :: 0 <= k < |c| ==> c[k].hhNext == At(c, k + 1))
    && (forall k {:trigger c[k].hhPrev} :: 0 <= k < |c| ==> c[k].hhPrev == At(c, k - 1))
  }

  /** The chain element by element, in both directions, and the count. */
  lemma ChainMeans<V>(b: Bucket<V>, c: seq<Elem<V>>, k: nat)
    requires Chain(b, c)
    ensures b.count == |c| && (c == [] ==> b.hhHead == null)
    ensures k < |c| ==> b.hhHead == c[0] && c[k].hhNext == (if k + 1 < |c| then c[k + 1] else null)
                        && c[k].hhPrev == if k > 0 then c[k - 1] else null
  {
  }

  /** HASH_FIND_IN_BKT. */
  method FindInBucket<V>(b: Bucket<V>, key: Key, hashval: nat, ghost c: seq<Elem<V>>) returns (out: Elem?<V>)
    requires Chain(b, c)
    ensures out != null ==> out in c && out.hashv == hashval && out.key == key
    ensures out == null ==> forall e :: e in c ==> e.hashv != hashval || e.key != key
  {
    out := b.hhHead;
    ghost var k := 0;
    while out != null
      invariant 0 <= k <= |c| && out == At(c, k)
      invariant forall i :: 0 <= i < k ==> c[i].hashv != hashval || c[i].key != key
      decreases |c| - k
    {
      if out.hashv == hashval && |out.key| == |key| {
        if out.key == key {
          break;
        }
      }
      out, k := out.hhNext, k + 1;
    }
  }

  /** HASH_ADD_TO_BKT up to the expansion test: push `add` on the front of the chain. */
  method PushOnBucket<V>(b: Bucket<V>, add: Elem<V>, ghost c: seq<Elem<V>>) returns (b': Bucket<V>)
    requires Chain(b, c) && add !in c
    modifies add`hhNext, add`hhPrev, (if b.hhHead == null then {} else {b.hhHead})`hhPrev
    ensures Chain(b', [add] + c) && b'.expandMult == b.expandMult
  {
    add.hhNext := b.hhHead;
    add.hhPrev := null;
    if b.hhHead != null {
      b.hhHead.hhPrev := add;
    }
    b' := b.(hhHead := add, count := b.count + 1);
  }

  /** HASH_DEL_IN_BKT. */
  method DelInBucket<V>(b: Bucket<V>, del: Elem<V>, ghost c: seq<Elem<V>>, ghost k: nat) returns (b': Bucket<V>)
    requires Chain(b, c) && k < |c| && c[k] == del
    modifies (if del.hhPrev == null then {} else {del.hhPrev})`hhNext,
             (if del.hhNext == null then {} else {del.hhNext})`hhPrev
    ensures Chain(b', Without(c, k)) && b'.expandMult == b.expandMult
  {
    b' := b.(count := b.count - 1);
    if b'.hhHead == del {
      b' := b'.(hhHead := del.hhNext);
    }
    if del.hhPrev != null {
      assert del.hhPrev == c[k - 1];
      del.hhPrev.hhNext := del.hhNext;
    }
    if del.hhNext != null {
      assert del.hhNext == c[k + 1];
      del.hhNext.hhPrev := del.hhPrev;
    }
  }

  // ---------- the application order ----------

  /** `s` is linked both ways from `head` to `tail`, with null beyond either end. */
  ghost predicate AppOrder<V>(head: Elem?<V>, tail: Elem?<V>, s: seq<Elem<V>>)
    reads s`next, s`prev
  {
    && head == At(s, 0) && (head != null ==> tail == s[|s| - 1])
    && Distinct(s)
    && (forall k {:trigger s[k].next} :: 0 <= k < |s| ==> s[k].next == At(s, k + 1))
    && (forall k {:trigger s[k].prev} :: 0 <= k < |s| ==> s[k].prev == At(s, k - 1))
  }

  /** The application order element by element, in both directions. */
  lemma OrderMeans<V>(head: Elem?<V>, tail: Elem?<V>, s: seq<Elem<V>>, k: nat)
    requires AppOrder(head, tail, s)
    ensures s == [] ==> head == null
    ensures k < |s| ==> head == s[0] && tail == s[|s| - 1] && s[k].next == (if k + 1 < |s| then s[k + 1] else null)
                        && s[k].prev == if k > 0 then s[k - 1] else null
  {
  }

  /** HASH_APPEND_LIST. */
  method AppendList<V>(head: Elem<V>, tail: Elem<V>, add: Elem<V>, ghost s: seq<Elem<V>>)
    requires AppOrder(head, tail, s) && add !in s
    modifies add`next, add`prev, tail`next
    ensures AppOrder(head, add, s + [add])
  {
    add.next := null;
    add.prev := tail;
    tail.next := add;
  }

  /** `k` elements come before the first one that compares above `add`. */
  ghost predicate UpperBoundAt<V>(cmp: Comparator<Elem<V>>, s: seq<Elem<V>>, add: Elem<V>, k: nat) {
    && k <= |s|
    && (forall i :: 0 <= i < k ==> cmp(s[i], add) <= 0)
    && (k < |s| ==> cmp(s[k], add) > 0)
  }

  /** How many leading elements do not compare above `add`. */
  function UpperBound<V>(cmp: Comparator<Elem<V>>, s: seq<Elem<V>>, add: Elem<V>): nat {
    if s == [] || cmp(s[0], add) > 0 then 0 else 1 + UpperBound(cmp, s[1..], add)
  }

  lemma {:induction false} UpperBoundUnique<V>(cmp: Comparator<Elem<V>>, s: seq<Elem<V>>, add: Elem<V>, k: nat)
    requires UpperBoundAt(cmp, s, add, k)
    ensures k == UpperBound(cmp, s, add)
  {
    if k > 0 {
      assert cmp(s[0], add) <= 0;
      UpperBoundUnique(cmp, s[1..], add, k - 1);
    }
  }

  /** HASH_AKBI_INNER_LOOP: walk to the first element that compares above `add`. */
  method InnerLoop<V>(head: Elem<V>, add: Elem<V>, cmp: Comparator<Elem<V>>, ghost tail: Elem<V>, ghost s: seq<Elem<V>>)
    returns (iter: Elem?<V>, ghost k: nat)
    requires AppOrder(head, tail, s)
    ensures UpperBoundAt(cmp, s, add, k) && k == UpperBound(cmp, s, add)
    ensures iter == At(s, UpperBound(cmp, s, add))
  {
    iter, k := head, 0;
    while iter != null
      invariant 0 <= k <= |s| && iter == At(s, k)
      invariant forall i :: 0 <= i < k ==> cmp(s[i], add) <= 0
      decreases |s| - k
    {
      if cmp(iter, add) > 0 {
        break;
      }
      iter, k := iter.next, k + 1;
    }
    UpperBoundUnique(cmp, s, add, k);
  }

  /** The list half of HASH_ADD_KEYPTR_BYHASHVALUE_INORDER for a table that is not empty. */
  method InsertList<V>(head: Elem<V>, tail: Elem<V>, add: Elem<V>, iter: Elem?<V>, ghost s: seq<Elem<V>>, ghost k: nat)
    returns (head': Elem<V>, tail': Elem<V>)
    requires AppOrder(head, tail, s) && add !in s && k <= |s| && iter == At(s, k)
    modifies add`next, add`prev, Members(s)`next, Members(s)`prev
    ensures Whole(AppOrder(head', tail', InsertAt(s, k, add)))
  {
    head', tail' := head, tail;
    if iter != null {
      add.next := iter;
      add.prev := iter.prev;
      if add.prev != null {
        assert add.prev == s[k - 1];
        add.prev.next := add;
      } else {
        head' := add;
      }
      iter.prev := add;
    } else {
      assert tail in s;
      AppendList(head, tail, add, s);
      tail' := add;
      assert InsertAt(s, k, add) == s + [add];
    }
  }

  /** The list half of HASH_DELETE_HH for an element that is not the only one. */
  method DeleteList<V>(head: Elem<V>, tail: Elem<V>, del: Elem<V>, ghost s: seq<Elem<V>>, ghost k: nat)
    returns (head': Elem<V>, tail': Elem<V>)
    requires AppOrder(head, tail, s) && k < |s| && s[k] == del && |s| > 1
    modifies Members(s)`next, Members(s)`prev
    ensures AppOrder(head', tail', Without(s, k))
  {
    head', tail' := head, tail;
    if del == tail {
      assert del.prev == s[|s| - 2];
      tail' := del.prev;
    }
    if del.prev != null {
      assert del.prev == s[k - 1];
      del.prev.next := del.next;
    } else {
      assert del.next == s[1];
      head' := del.next;
    }
    if del.next != null {
      assert del.next == s[k + 1];
      del.next.prev := del.prev;
    }
  }
}
