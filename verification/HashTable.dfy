/** uthash: an intrusive hash table that keeps the application order beside the bucket chains. */
module HashTable {
  import opened MergeSort
  import opened Bits
  import opened HashElements
  import opened Facts

  const INITIAL_NUM_BUCKETS: nat := 32
  const INITIAL_NUM_BUCKETS_LOG2: nat := 5
  const BKT_CAPACITY_THRESH: nat := 10

  /** HASH_TO_BKT. */
  function Slot(hashv: nat, numBuckets: nat): (r: nat)
    requires numBuckets > 0
    ensures r < numBuckets
  {
    And(hashv, numBuckets - 1)
  }

  /** Every element of `elems`, and nothing else, is in the chain its hash value selects. */
  ghost predicate Placed<V>(cs: seq<seq<Elem<V>>>, elems: set<Elem<V>>)
    reads elems`hashv
  {
    && 0 < |cs|
    && (forall i, j {:trigger cs[i][j]} :: 0 <= i < |cs| && 0 <= j < |cs[i]| ==>
         cs[i][j] in elems && Slot(cs[i][j].hashv, |cs|) == i)
    && (forall e {:trigger e in elems} :: e in elems ==> e in cs[Slot(e.hashv, |cs|)])
  }

  /** The buckets `bs` hold the chains `cs`, which partition `elems` by hash value. */
  ghost predicate Hashed<V>(bs: seq<Bucket<V>>, cs: seq<seq<Elem<V>>>, elems: set<Elem<V>>)
    reads elems`hashv, elems`hhNext, elems`hhPrev
  {
    && |bs| == |cs|
    && Placed(cs, elems)
    && (forall i :: 0 <= i < |cs| ==> Chain(bs[i], cs[i]))
  }

  lemma PlacedPush<V>(cs: seq<seq<Elem<V>>>, elems: set<Elem<V>>, add: Elem<V>, k: nat)
    requires Placed(cs, elems) && k < |cs| && Slot(add.hashv, |cs|) == k
    ensures Placed(cs[k := [add] + cs[k]], elems + {add})
  {
    var cs' := cs[k := [add] + cs[k]];
    forall e | e in elems + {add} ensures e in cs'[Slot(e.hashv, |cs'|)] {
      assert e == add || e in cs[Slot(e.hashv, |cs|)];
      assert e == add ==> cs'[k][0] == e;
    }
  }

  lemma PlacedWithout<V>(cs: seq<seq<Elem<V>>>, elems: set<Elem<V>>, k: nat, i: nat)
    requires Placed(cs, elems) && k < |cs| && i < |cs[k]| && Distinct(cs[k])
    ensures Placed(cs[k := Without(cs[k], i)], elems - {cs[k][i]})
  {
    WithoutMembers(cs[k], i);
    var del, cs' := cs[k][i], cs[k := Without(cs[k], i)];
    forall e | e in elems - {del} ensures e in cs'[Slot(e.hashv, |cs'|)] {
      assert e in cs[Slot(e.hashv, |cs|)];
    }
    forall a, b | 0 <= a < |cs'| && 0 <= b < |cs'[a]|
      ensures cs'[a][b] in elems - {del} && Slot(cs'[a][b].hashv, |cs'|) == a
    {
      if a == k {
        assert cs'[a][b] in Without(cs[k], i);
        assert cs'[a][b] == cs[a][if b < i then b else b + 1];
      } else {
        assert cs'[a][b] == cs[a][b];
      }
    }
  }

  /** The elements of one chain are in no other chain. */
  lemma NotInOthers<V>(cs: seq<seq<Elem<V>>>, elems: set<Elem<V>>, k: nat, e: Elem?<V>)
    requires Placed(cs, elems) && k < |cs| && (e == null || e in cs[k] || e !in elems)
    ensures forall i, j {:trigger cs[i][j]} :: 0 <= i < |cs| && i != k && 0 <= j < |cs[i]| ==> cs[i][j] != e
  {
    if e != null && e in cs[k] {
      var j :| 0 <= j < |cs[k]| && cs[k][j] == e;
    }
  }

  ghost predicate Within<V>(cs: seq<seq<Elem<V>>>, elems: set<Elem<V>>) {
    forall i, j {:trigger cs[i][j]} :: 0 <= i < |cs| && 0 <= j < |cs[i]| ==> cs[i][j] in elems
  }

  /** All chains but the one of bucket `k` are in order. */
  ghost predicate OtherChains<V>(bs: seq<Bucket<V>>, cs: seq<seq<Elem<V>>>, elems: set<Elem<V>>, k: nat)
    requires |bs| == |cs| && Within(cs, elems)
    reads elems`hhNext, elems`hhPrev
  {
    forall i :: 0 <= i < |cs| && i != k ==> Chain(bs[i], cs[i])
  }

  /** Push `add` in front of the chain of bucket `k`; the other chains do not notice. */
  method PushAmong<V>(b: Bucket<V>, add: Elem<V>, ghost bs: seq<Bucket<V>>, ghost cs: seq<seq<Elem<V>>>,
                      ghost elems: set<Elem<V>>, ghost k: nat)
    returns (b': Bucket<V>)
    requires Hashed(bs, cs, elems) && add !in elems && k < |cs| && b == bs[k]
    modifies add`hhNext, add`hhPrev, elems`hhPrev
    ensures Chain(b', [add] + cs[k]) && b'.expandMult == b.expandMult && b'.count == b.count + 1
    ensures OtherChains(bs, cs, elems, k)
  {
    assert Chain(bs[k], cs[k]);
    assert b.hhHead != null ==> b.hhHead in cs[k] && b.hhHead in elems;
    NotInOthers(cs, elems, k, add);
    NotInOthers(cs, elems, k, b.hhHead);
    b' := PushOnBucket(b, add, cs[k]);
    forall i | 0 <= i < |cs| && i != k ensures Chain(bs[i], cs[i]) {
      assert old(Chain(bs[i], cs[i]));
    }
  }

  /** Unlink element `m` of the chain of bucket `k`; the other chains do not notice. */
  method DelAmong<V>(b: Bucket<V>, del: Elem<V>, ghost bs: seq<Bucket<V>>, ghost cs: seq<seq<Elem<V>>>,
                     ghost elems: set<Elem<V>>, ghost k: nat, ghost m: nat)
    returns (b': Bucket<V>)
    requires Hashed(bs, cs, elems) && k < |cs| && b == bs[k] && m < |cs[k]| && cs[k][m] == del
    modifies elems`hhNext, elems`hhPrev
    ensures Chain(b', Without(cs[k], m)) && b'.expandMult == b.expandMult
    ensures OtherChains(bs, cs, elems, k)
  {
    ghost var before, after := At(cs[k], m - 1), At(cs[k], m + 1);
    assert (before != null ==> before in cs[k] && before in elems)
        && (after != null ==> after in cs[k] && after in elems);
    assert Chain(bs[k], cs[k]);
    NotInOthers(cs, elems, k, before);
    NotInOthers(cs, elems, k, after);
    b' := DelApart(b, del, bs, cs, elems, k, m);
  }

  /** The same, given that the neighbours of `del` are in no other chain. */
  method DelApart<V>(b: Bucket<V>, del: Elem<V>, ghost bs: seq<Bucket<V>>, ghost cs: seq<seq<Elem<V>>>,
                     ghost elems: set<Elem<V>>, ghost k: nat, ghost m: nat)
    returns (b': Bucket<V>)
    requires |bs| == |cs| && k < |cs| && m < |cs[k]| && cs[k][m] == del && Within(cs, elems)
    requires Chain(b, cs[k]) && Whole(OtherChains(bs, cs, elems, k))
    requires forall i, j {:trigger cs[i][j]} :: 0 <= i < |cs| && i != k && 0 <= j < |cs[i]| ==>
      cs[i][j] != At(cs[k], m - 1) && cs[i][j] != At(cs[k], m + 1)
    modifies elems`hhNext, elems`hhPrev
    ensures Chain(b', Without(cs[k], m)) && b'.expandMult == b.expandMult
    ensures OtherChains(bs, cs, elems, k)
  {
    assert del.hhPrev == At(cs[k], m - 1) && del.hhNext == At(cs[k], m + 1);
    b' := DelInBucket(b, del, cs[k], m);
    forall i | 0 <= i < |cs| && i != k ensures Chain(bs[i], cs[i]) {
      assert old(Chain(bs[i], cs[i]));
    }
  }

  lemma Reassemble<V>(bs: seq<Bucket<V>>, cs: seq<seq<Elem<V>>>, elems: set<Elem<V>>, k: nat,
                      b': Bucket<V>, c': seq<Elem<V>>, elems': set<Elem<V>>)
    requires |bs| == |cs| && k < |cs| && Within(cs, elems)
    requires OtherChains(bs, cs, elems, k) && Chain(b', c') && Placed(cs[k := c'], elems')
    ensures Hashed(bs[k := b'], cs[k := c'], elems')
  {
  }

  /** Push `add` on its bucket. */
  method PushHashed<V>(buckets: array<Bucket<V>>, add: Elem<V>, ghost cs: seq<seq<Elem<V>>>, ghost elems: set<Elem<V>>)
    returns (bkt: nat, ghost cs': seq<seq<Elem<V>>>)
    requires Whole(Hashed(buckets[..], cs, elems)) && add !in elems
    modifies buckets, add`hhNext, add`hhPrev, elems`hhPrev
    ensures bkt == Slot(add.hashv, |cs|) && cs' == cs[bkt := [add] + cs[bkt]]
    ensures buckets[..] == old(buckets[..])[bkt := buckets[bkt]]
    ensures buckets[bkt].expandMult == old(buckets[bkt].expandMult) && buckets[bkt].count == old(buckets[bkt].count) + 1
    ensures Whole(Hashed(buckets[..], cs', elems + {add}))
  {
    bkt := Slot(add.hashv, buckets.Length);
    ghost var bs := buckets[..];
    PlacedPush(cs, elems, add, bkt);
    var b := PushAmong(buckets[bkt], add, bs, cs, elems, bkt);
    Reassemble(bs, cs, elems, bkt, b, [add] + cs[bkt], elems + {add});
    buckets[bkt] := b;
    cs' := cs[bkt := [add] + cs[bkt]];
  }

  /** Take `del` out of its bucket, where it is element `m` of the chain. */
  method DelHashed<V>(buckets: array<Bucket<V>>, del: Elem<V>, ghost cs: seq<seq<Elem<V>>>, ghost elems: set<Elem<V>>)
    returns (ghost cs': seq<seq<Elem<V>>>, ghost m: nat)
    requires Whole(Hashed(buckets[..], cs, elems)) && del in elems
    modifies buckets, elems`hhNext, elems`hhPrev
    ensures var bkt := Slot(del.hashv, |cs|);
            m < |cs[bkt]| && cs[bkt][m] == del && cs' == cs[bkt := Without(cs[bkt], m)]
    ensures Whole(Hashed(buckets[..], cs', elems - {del}))
  {
    var bkt := Slot(del.hashv, buckets.Length);
    ghost var bs := buckets[..];
    m :| 0 <= m < |cs[bkt]| && cs[bkt][m] == del;
    assert Chain(bs[bkt], cs[bkt]);
    PlacedWithout(cs, elems, bkt, m);
    var b := DelAmong(buckets[bkt], del, bs, cs, elems, bkt, m);
    Reassemble(bs, cs, elems, bkt, b, Without(cs[bkt], m), elems - {del});
    buckets[bkt] := b;
    cs' := cs[bkt := Without(cs[bkt], m)];
  }

  // ---------- expansion ----------

  /** The expansion multiplier after `count` elements were put in a bucket. */
  function MultFor(count: nat, ideal: nat): nat {
    if count == 0 then 0
    else
      var m := MultFor(count - 1, ideal);
      if count > ideal && count > m * ideal then m + 1 else m
  }

  function Excess(count: nat, ideal: nat): nat {
    if count > ideal then count - ideal else 0
  }

  function ExcessSum<V>(bs: seq<Bucket<V>>, ideal: nat): nat {
    if |bs| == 0 then 0 else Excess(bs[0].count, ideal) + ExcessSum(bs[1..], ideal)
  }

  ghost predicate Measured<V>(bs: seq<Bucket<V>>, ideal: nat, nonideal: nat) {
    && (forall i :: 0 <= i < |bs| ==> bs[i].expandMult == MultFor(bs[i].count, ideal))
    && nonideal == ExcessSum(bs, ideal)
  }

  /** The multiplier is 0 up to the ideal length; beyond it, it is the least one, or one less, whose
      multiple of the ideal length covers the chain. */
  lemma {:induction false} MultiplierBounds(count: nat, ideal: nat)
    requires ideal > 0
    ensures count <= ideal ==> MultFor(count, ideal) == 0
    ensures count > ideal ==>
      MultFor(count, ideal) > 0 && (MultFor(count, ideal) - 1) * ideal < count <= MultFor(count, ideal) * ideal + 1
  {
    if count > 0 {
      MultiplierBounds(count - 1, ideal);
      var m := MultFor(count - 1, ideal);
      assert (m + 1) * ideal == m * ideal + ideal && (m - 1) * ideal == m * ideal - ideal;
    }
  }

  /** And exactly: the quotient rounded up, but one less right above the ideal length and for ideal length 1. */
  lemma {:induction false} MultiplierIs(count: nat, ideal: nat)
    requires ideal > 0
    ensures MultFor(count, ideal) == if count <= ideal then 0
                                     else if ideal == 1 || count == ideal + 1 then (count - 1) / ideal
                                     else (count - 1) / ideal + 1
  {
    MultiplierBounds(count, ideal);
    if count == ideal + 1 {
      MultiplierBounds(ideal, ideal);
      DivMod(ideal, 1, 0, ideal);
    } else if count > ideal + 1 {
      MultiplierIs(count - 1, ideal);
      if ideal > 1 {
        NextQuotient(count - 2, ideal);
      }
    }
  }

  /** `n` and `n + 1`, divided: the quotient grows exactly when `n + 1` reaches the next multiple. */
  lemma NextQuotient(n: nat, d: nat)
    requires d > 1
    ensures n == d ==> n / d == 1
    ensures (n + 1) / d == if n + 1 >= (n / d + 1) * d then n / d + 1 else n / d
  {
    var q, r := n / d, n % d;
    Division(n, d);
    if n == d {
      DivMod(n, 1, 0, d);
    }
    assert (q + 1) * d == q * d + d;
    if r + 1 == d {
      DivMod(n + 1, q + 1, 0, d);
    } else {
      DivMod(n + 1, q, r + 1, d);
    }
  }

  /** No chain is longer than its multiplier, or the ideal length, allows. */
  ghost predicate ChainsBounded<V>(bs: seq<Bucket<V>>, ideal: nat) {
    forall i :: 0 <= i < |bs| ==> bs[i].count <= ideal || bs[i].count <= bs[i].expandMult * ideal + 1
  }

  lemma MeasuredBounds<V>(bs: seq<Bucket<V>>, ideal: nat, nonideal: nat)
    requires Measured(bs, ideal, nonideal) && ideal > 0
    ensures ChainsBounded(bs, ideal)
  {
    forall i | 0 <= i < |bs| ensures bs[i].count <= ideal || bs[i].count <= bs[i].expandMult * ideal + 1 {
      MultiplierBounds(bs[i].count, ideal);
    }
  }

  lemma {:induction false} ExcessSumUpdate<V>(bs: seq<Bucket<V>>, k: nat, b: Bucket<V>, ideal: nat)
    requires k < |bs|
    ensures ExcessSum(bs[k := b], ideal) == ExcessSum(bs, ideal) - Excess(bs[k].count, ideal) + Excess(b.count, ideal)
  {
    if k > 0 {
      assert bs[k := b][1..] == bs[1..][k - 1 := b];
      ExcessSumUpdate(bs[1..], k - 1, b, ideal);
    } else {
      assert bs[k := b][1..] == bs[1..];
    }
  }

  /** The elements, by bucket and position, that stand beyond the ideal length of their chain. */
  ghost function Beyond<V>(bs: seq<Bucket<V>>, ideal: nat): set<(int, int)> {
    set i, j | 0 <= i < |bs| && ideal <= j < bs[i].count :: (i, j)
  }

  /** The sum of the excesses is the number of elements beyond the ideal length. */
  lemma {:induction false} ExcessCounts<V>(bs: seq<Bucket<V>>, ideal: nat)
    ensures ExcessSum(bs, ideal) == |Beyond(bs, ideal)|
  {
    if |bs| > 0 {
      var n := |bs| - 1;
      ExcessCounts(bs[..n], ideal);
      ExcessSumSnoc(bs[..n], bs[n], ideal);
      assert bs == bs[..n] + [bs[n]];
      var row := set j | ideal <= j < bs[n].count :: (n, j);
      RowSize(n, ideal, bs[n].count);
      assert Beyond(bs, ideal) == Beyond(bs[..n], ideal) + row;
      assert Beyond(bs[..n], ideal) !! row;
    }
  }

  lemma {:induction false} ExcessSumSnoc<V>(bs: seq<Bucket<V>>, b: Bucket<V>, ideal: nat)
    ensures ExcessSum(bs + [b], ideal) == ExcessSum(bs, ideal) + Excess(b.count, ideal)
  {
    if |bs| > 0 {
      assert (bs + [b])[1..] == bs[1..] + [b];
      ExcessSumSnoc(bs[1..], b, ideal);
    } else {
      assert ExcessSum([b], ideal) == Excess(b.count, ideal) + ExcessSum([b][1..], ideal);
    }
  }

  lemma {:induction false} RowSize(i: int, lo: nat, hi: nat)
    ensures |set j | lo <= j < hi :: (i, j)| == if hi > lo then hi - lo else 0
    decreases hi
  {
    if hi > lo {
      RowSize(i, lo, hi - 1);
      assert (set j | lo <= j < hi :: (i, j)) == (set j | lo <= j < hi - 1 :: (i, j)) + {(i, hi - 1)};
    }
  }

  lemma {:induction false} ExcessSumZero<V>(bs: seq<Bucket<V>>, ideal: nat)
    requires forall b :: b in bs ==> b.count == 0
    ensures ExcessSum(bs, ideal) == 0
  {
    if |bs| > 0 {
      assert bs[0] in bs;
      ExcessSumZero(bs[1..], ideal);
    }
  }

  /** Move one element to its bucket in the doubled array, keeping the statistics. */
  method MoveElement<V>(nb: array<Bucket<V>>, thh: Elem<V>, ideal: nat, nonideal: nat,
                        ghost cs: seq<seq<Elem<V>>>, ghost moved: set<Elem<V>>)
    returns (nonideal': nat, ghost cs': seq<seq<Elem<V>>>)
    requires Whole(Hashed(nb[..], cs, moved)) && thh !in moved && Whole(Measured(nb[..], ideal, nonideal))
    modifies nb, thh`hhNext, thh`hhPrev, moved`hhPrev
    ensures Whole(Hashed(nb[..], cs', moved + {thh})) && Whole(Measured(nb[..], ideal, nonideal'))
  {
    ghost var bs := nb[..];
    var bkt;
    bkt, cs' := PushHashed(nb, thh, cs, moved);
    nonideal' := nonideal;
    var b := nb[bkt];
    if b.count > ideal {
      nonideal' := nonideal' + 1;
      if b.count > b.expandMult * ideal {
        b := b.(expandMult := b.expandMult + 1);
      }
    }
    ghost var linked := nb[..];
    nb[bkt] := b;
    assert nb[..] == linked[bkt := b] == bs[bkt := b];
    SameLinks(linked, cs', moved + {thh}, bkt, b);
    MeasuredStep(bs, bkt, b, ideal, nonideal, nonideal');
  }

  lemma MeasuredStep<V>(bs: seq<Bucket<V>>, k: nat, b: Bucket<V>, ideal: nat, nonideal: nat, nonideal': nat)
    requires k < |bs| && Whole(Measured(bs, ideal, nonideal)) && b.count == bs[k].count + 1
    requires nonideal' == if b.count > ideal then nonideal + 1 else nonideal
    requires b.expandMult == if b.count > ideal && b.count > bs[k].expandMult * ideal
                             then bs[k].expandMult + 1 else bs[k].expandMult
    ensures Whole(Measured(bs[k := b], ideal, nonideal'))
  {
    ExcessSumUpdate(bs, k, b, ideal);
  }

  lemma SameLinks<V>(bs: seq<Bucket<V>>, cs: seq<seq<Elem<V>>>, elems: set<Elem<V>>, k: nat, b: Bucket<V>)
    requires Whole(Hashed(bs, cs, elems)) && k < |bs| && b.hhHead == bs[k].hhHead && b.count == bs[k].count
    ensures Whole(Hashed(bs[k := b], cs, elems))
  {
    forall i | 0 <= i < |cs| ensures Chain(bs[k := b][i], cs[i]) {
      assert Chain(bs[i], cs[i]);
    }
  }

  /** Move a whole old chain, front to back. Only its `hhNext` links are read. */
  method MoveChain<V>(nb: array<Bucket<V>>, first: Elem?<V>, ideal: nat, nonideal: nat,
                      ghost c: seq<Elem<V>>, ghost cs: seq<seq<Elem<V>>>, ghost moved: set<Elem<V>>)
    returns (nonideal': nat, ghost cs': seq<seq<Elem<V>>>)
    requires Whole(Hashed(nb[..], cs, moved)) && Whole(Measured(nb[..], ideal, nonideal))
    requires Distinct(c) && moved !! Members(c) && first == At(c, 0)
    requires forall k {:trigger c[k].hhNext} :: 0 <= k < |c| ==> c[k].hhNext == At(c, k + 1)
    modifies nb, Members(c)`hhNext, Members(c)`hhPrev, moved`hhPrev
    ensures Whole(Hashed(nb[..], cs', moved + Members(c))) && Whole(Measured(nb[..], ideal, nonideal'))
  {
    var thh := first;
    nonideal', cs' := nonideal, cs;
    ghost var k, done := 0, moved;
    while thh != null
      invariant 0 <= k <= |c| && thh == At(c, k)
      invariant done == moved + Members(c[..k])
      invariant Whole(Hashed(nb[..], cs', done)) && Whole(Measured(nb[..], ideal, nonideal'))
      invariant forall j {:trigger c[j].hhNext} :: k <= j < |c| ==> c[j].hhNext == At(c, j + 1)
      decreases |c| - k
    {
      var nxt := thh.hhNext;
      assert c[k] in Members(c) && thh !in done;
      nonideal', cs' := MoveElement(nb, thh, ideal, nonideal', cs', done);
      MembersTake(c, k);
      done := done + {thh};
      thh, k := nxt, k + 1;
    }
    assert c[..k] == c;
  }

  lemma MembersTake<V>(c: seq<Elem<V>>, k: nat)
    requires k < |c|
    ensures Members(c[..k + 1]) == Members(c[..k]) + {c[k]}
  {
    assert c[..k + 1] == c[..k] + [c[k]];
  }

  /** Distinct chains share no element. */
  ghost predicate Apart<V>(cs: seq<seq<Elem<V>>>) {
    forall i, j :: 0 <= i < j < |cs| ==> Members(cs[i]) !! Members(cs[j])
  }

  /** The elements of the first `i` chains. */
  ghost function Front<V>(cs: seq<seq<Elem<V>>>, i: nat): set<Elem<V>>
    requires i <= |cs|
  {
    if i == 0 then {} else Front(cs, i - 1) + Members(cs[i - 1])
  }

  lemma {:induction false} FrontApart<V>(cs: seq<seq<Elem<V>>>, i: nat, j: nat)
    requires Apart(cs) && i <= j < |cs|
    ensures Front(cs, i) !! Members(cs[j])
  {
    if i > 0 {
      FrontApart(cs, i - 1, j);
    }
  }

  lemma PlacedApart<V>(cs: seq<seq<Elem<V>>>, elems: set<Elem<V>>)
    requires Placed(cs, elems)
    ensures Apart(cs)
  {
    forall i, j | 0 <= i < j < |cs| ensures Members(cs[i]) !! Members(cs[j]) {
      forall e | e in Members(cs[i]) ensures e !in Members(cs[j]) {
        InChain(cs, elems, i, e);
        InChain(cs, elems, j, e);
      }
    }
  }

  lemma InChain<V>(cs: seq<seq<Elem<V>>>, elems: set<Elem<V>>, i: nat, e: Elem<V>)
    requires Placed(cs, elems) && i < |cs|
    ensures e in cs[i] <==> e in elems && Slot(e.hashv, |cs|) == i
  {
    if e in cs[i] {
      var j :| 0 <= j < |cs[i]| && cs[i][j] == e;
    }
  }

  lemma {:induction false} InFront<V>(cs: seq<seq<Elem<V>>>, elems: set<Elem<V>>, i: nat, e: Elem<V>)
    requires Placed(cs, elems) && i <= |cs|
    ensures e in Front(cs, i) <==> e in elems && Slot(e.hashv, |cs|) < i
  {
    if i > 0 {
      InFront(cs, elems, i - 1, e);
      InChain(cs, elems, i - 1, e);
    }
  }

  lemma FrontIsAll<V>(cs: seq<seq<Elem<V>>>, elems: set<Elem<V>>)
    requires Placed(cs, elems)
    ensures Front(cs, |cs|) == elems
  {
    forall e | e in Front(cs, |cs|) ensures e in elems {
      InFront(cs, elems, |cs|, e);
    }
    forall e | e in elems ensures e in Front(cs, |cs|) {
      InFront(cs, elems, |cs|, e);
    }
  }

  /** The first `i` old chains have been moved to the new buckets `nbs`, the others are in order. */
  ghost predicate Moving<V>(nbs: seq<Bucket<V>>, ncs: seq<seq<Elem<V>>>, ideal: nat, nonideal: nat,
                            bs: seq<Bucket<V>>, cs: seq<seq<Elem<V>>>, elems: set<Elem<V>>, i: nat)
    reads elems`hashv, elems`hhNext, elems`hhPrev
  {
    && i <= |cs| == |bs| && Within(cs, elems) && Front(cs, i) <= elems
    && Hashed(nbs, ncs, Front(cs, i)) && Measured(nbs, ideal, nonideal)
    && forall j :: i <= j < |cs| ==> Chain(bs[j], cs[j])
  }

  /** Empty old bucket `i` into the new array. */
  method MoveBucket<V>(nb: array<Bucket<V>>, b: Bucket<V>, i: nat, ideal: nat, nonideal: nat,
                       ghost bs: seq<Bucket<V>>, ghost cs: seq<seq<Elem<V>>>, ghost elems: set<Elem<V>>,
                       ghost ncs: seq<seq<Elem<V>>>)
    returns (nonideal': nat, ghost ncs': seq<seq<Elem<V>>>)
    requires i < |cs| == |bs| && b == bs[i] && Apart(cs) && Front(cs, i + 1) <= elems
    requires Whole(Moving(nb[..], ncs, ideal, nonideal, bs, cs, elems, i))
    modifies nb, elems`hhNext, elems`hhPrev
    ensures Whole(Moving(nb[..], ncs', ideal, nonideal', bs, cs, elems, i + 1))
  {
    assert Chain(bs[i], cs[i]);
    FrontApart(cs, i, i);
    forall j | i < j < |bs| ensures Front(cs, i + 1) !! Members(cs[j]) {
      FrontApart(cs, i + 1, j);
    }
    nonideal', ncs' := MoveChain(nb, b.hhHead, ideal, nonideal, cs[i], ncs, Front(cs, i));
    forall j | i < j < |bs| ensures Chain(bs[j], cs[j]) {
      assert old(Chain(bs[j], cs[j]));
      assert forall k {:trigger cs[j][k]} :: 0 <= k < |cs[j]| ==> cs[j][k] in Members(cs[j]);
    }
  }

  lemma {:induction false} FrontGrows<V>(cs: seq<seq<Elem<V>>>, i: nat, n: nat)
    requires i <= n <= |cs|
    ensures Front(cs, i) <= Front(cs, n)
    decreases n - i
  {
    if i < n {
      FrontGrows(cs, i + 1, n);
    }
  }

  /** A fresh bucket array, zeroed. */
  method ZeroedBuckets<V>(n: nat, ghost ideal: nat) returns (nb: array<Bucket<V>>, ghost cs: seq<seq<Elem<V>>>)
    requires n > 0
    ensures fresh(nb) && nb.Length == n && Whole(Hashed(nb[..], cs, {})) && Whole(Measured(nb[..], ideal, 0))
    ensures forall j :: 0 <= j < n ==> nb[j] == Bucket(null, 0, 0)
  {
    nb := new Bucket<V>[n](_ => Bucket(null, 0, 0));
    cs := seq(n, _ => []);
    ExcessSumZero(nb[..], ideal);
  }

  /** The double loop of HASH_EXPAND_BUCKETS: empty all old buckets into the new array. */
  method Redistribute<V>(buckets: array<Bucket<V>>, nb: array<Bucket<V>>, ideal: nat, ghost bs: seq<Bucket<V>>,
                         ghost cs: seq<seq<Elem<V>>>, ghost elems: set<Elem<V>>, ghost ncs: seq<seq<Elem<V>>>)
    returns (nonideal: nat, ghost ncs': seq<seq<Elem<V>>>)
    requires buckets != nb && bs == buckets[..] && |cs| == |bs| && Apart(cs) && Front(cs, |cs|) == elems
    requires Whole(Moving(nb[..], ncs, ideal, 0, bs, cs, elems, 0))
    modifies nb, elems`hhNext, elems`hhPrev
    ensures Whole(Moving(nb[..], ncs', ideal, nonideal, bs, cs, elems, |cs|))
  {
    nonideal, ncs' := 0, ncs;
    var i := 0;
    while i < buckets.Length
      invariant 0 <= i <= |cs| && bs == buckets[..]
      invariant Whole(Moving(nb[..], ncs', ideal, nonideal, bs, cs, elems, i))
    {
      FrontGrows(cs, i + 1, |cs|);
      nonideal, ncs' := MoveBucket(nb, buckets[i], i, ideal, nonideal, bs, cs, elems, ncs');
      i := i + 1;
    }
  }

  /** The new buckets hold exactly the elements of the old ones. */
  method Rehash<V>(buckets: array<Bucket<V>>, ideal: nat, ghost cs: seq<seq<Elem<V>>>, ghost elems: set<Elem<V>>)
    returns (nb: array<Bucket<V>>, nonideal: nat, ghost cs': seq<seq<Elem<V>>>)
    requires Whole(Hashed(buckets[..], cs, elems))
    modifies elems`hhNext, elems`hhPrev
    ensures fresh(nb) && nb.Length == 2 * buckets.Length
    ensures Whole(Hashed(nb[..], cs', elems)) && Whole(Measured(nb[..], ideal, nonideal))
    ensures ideal > 0 ==> Whole(ChainsBounded(nb[..], ideal))
  {
    PlacedApart(cs, elems);
    FrontIsAll(cs, elems);
    nb, cs' := ZeroedBuckets(2 * buckets.Length, ideal);
    nonideal, cs' := Redistribute(buckets, nb, ideal, buckets[..], cs, elems, cs');
    if ideal > 0 {
      MeasuredBounds(nb[..], ideal, nonideal);
    }
  }
}
