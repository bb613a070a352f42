/** uthash: HASH_SRT, which sorts the application order in place and never touches a bucket chain. */
module HashSort {
  import opened MergeSort
  import opened HashElements
  import opened Facts

  /** Of the order `s` being consumed, the left run `s[i..mid]` and the rest `s[j..]` are still linked
      forward as they were, and none of them has been moved to the output `t`. */
  ghost predicate Untouched<V>(s: seq<Elem<V>>, i: nat, mid: nat, j: nat, t: seq<Elem<V>>)
    requires i <= mid <= j <= |s|
    reads s`next
  {
    && (forall k {:trigger s[k].next} :: i <= k < mid || j <= k < |s| ==> s[k].next == At(s, k + 1))
    && (forall k :: i <= k < mid || j <= k < |s| ==> s[k] !in t)
  }

  /** The output `t` is linked both ways from `list` to `tail`; only the forward link of `tail` is open. */
  ghost predicate Output<V>(s: seq<Elem<V>>, t: seq<Elem<V>>, list: Elem?<V>, tail: Elem?<V>)
    reads t`next, t`prev
  {
    && Distinct(t)
    && (forall e :: e in t ==> e in s)
    && list == At(t, 0) && tail == At(t, |t| - 1)
    && (forall k {:trigger t[k].next} :: 0 <= k < |t| - 1 ==> t[k].next == t[k + 1])
    && (forall k {:trigger t[k].prev} :: 0 <= k < |t| ==> t[k].prev == At(t, k - 1))
  }

  ghost predicate Forward<V>(s: seq<Elem<V>>)
    reads s`next
  {
    forall k {:trigger s[k].next} :: 0 <= k < |s| ==> s[k].next == At(s, k + 1)
  }

  /** Step `q` over the left run, which starts at `s[i]`. */
  method SkipRun<V>(p: Elem<V>, insize: nat, ghost s: seq<Elem<V>>, ghost i: nat)
    returns (q: Elem?<V>, psize: nat)
    requires insize > 0 && i < |s| && p == s[i]
    requires forall k {:trigger s[k].next} :: i <= k < |s| ==> s[k].next == At(s, k + 1)
    ensures psize == Min(insize, |s| - i)
    ensures q == At(s, i + psize)
  {
    q, psize := p, 0;
    var n := 0;
    while n < insize
      invariant 0 <= n <= insize && n == psize && i + psize < |s| && q == s[i + psize]
    {
      psize := psize + 1;
      q := q.next;
      if q == null {
        break;
      }
      n := n + 1;
    }
  }

  /** Hook `e` behind the output, in both directions. */
  method AppendSorted<V>(list: Elem?<V>, tail: Elem?<V>, e: Elem<V>, ghost s: seq<Elem<V>>, ghost t: seq<Elem<V>>)
    returns (list': Elem?<V>)
    requires Output(s, t, list, tail) && e in s && e !in t
    modifies (if tail == null then {} else {tail})`next, e`prev
    ensures Output(s, t + [e], list', e)
  {
    list' := list;
    if tail != null {
      tail.next := e;
    } else {
      list' := e;
    }
    e.prev := tail;
  }

  /** Take the next element `e` off one of the two runs: as in the list sorts. */
  method Take<V>(p: Elem?<V>, psize: nat, q: Elem?<V>, qsize: nat, cmp: Comparator<Elem<V>>, ghost s: seq<Elem<V>>,
                 ghost i: nat, ghost mid: nat, ghost j: nat, ghost hi: nat, ghost t: seq<Elem<V>>)
    returns (e: Elem<V>, p': Elem?<V>, psize': nat, q': Elem?<V>, qsize': nat, ghost i': nat, ghost j': nat)
    requires i <= mid <= j <= hi <= |s| && (i < mid || j < hi)
    requires psize == mid - i && p == At(s, i)
    requires hi - j == Min(qsize, |s| - j) && q == At(s, j)
    requires Distinct(s) && Untouched(s, i, mid, j, t)
    ensures i <= i' <= mid <= j <= j' <= hi && i' - i + j' - j == 1
    ensures psize' == mid - i' && p' == At(s, i')
    ensures hi - j' == Min(qsize', |s| - j') && q' == At(s, j') && psize' + qsize' < psize + qsize
    ensures e in s && e !in t && Untouched(s, i', mid, j', t + [e])
    ensures MergeOnto(cmp, s, i', mid, j', hi, t + [e]) == MergeOnto(cmp, s, i, mid, j, hi, t)
  {
    p', psize', q', qsize', i', j' := p, psize, q, qsize, i, j;
    if psize == 0 {
      e := q;
      q', qsize', j' := q.next, qsize - 1, j + 1;
    } else if qsize == 0 || q == null {
      e := p;
      p', psize', i' := p.next, psize - 1, i + 1;
    } else if cmp(p, q) <= 0 {
      e := p;
      p', psize', i' := p.next, psize - 1, i + 1;
    } else {
      e := q;
      q', qsize', j' := q.next, qsize - 1, j + 1;
    }
  }

  /** Two runs being merged: the cursors `p` and `q` stand at `s[i]` and `s[j]`, the runs end at `mid`
      and `hi`, and the output so far is `t`. */
  ghost predicate Merging<V>(s: seq<Elem<V>>, i: nat, mid: nat, j: nat, hi: nat, p: Elem?<V>, psize: nat, q: Elem?<V>,
                             qsize: nat, t: seq<Elem<V>>, list: Elem?<V>, tail: Elem?<V>)
    reads s`next, t`next, t`prev
  {
    && i <= mid <= j <= hi <= |s|
    && psize == mid - i && p == At(s, i)
    && hi - j == Min(qsize, |s| - j) && q == At(s, j)
    && Untouched(s, i, mid, j, t) && Output(s, t, list, tail)
  }

  /** Between two merges the cursor stands at `s[i]`, and everything in front of it is in the output. */
  ghost predicate Passing<V>(s: seq<Elem<V>>, i: nat, p: Elem?<V>, t: seq<Elem<V>>, list: Elem?<V>, tail: Elem?<V>)
    reads s`next, t`next, t`prev
  {
    && i <= |s| && p == At(s, i)
    && Untouched(s, i, i, i, t) && Output(s, t, list, tail)
  }

  /** Move one node from the runs to the output. */
  method MergeOne<V>(p: Elem?<V>, psize: nat, q: Elem?<V>, qsize: nat, list: Elem?<V>, tail: Elem?<V>,
                     cmp: Comparator<Elem<V>>, ghost s: seq<Elem<V>>, ghost i: nat, ghost mid: nat, ghost j: nat,
                     ghost hi: nat, ghost t: seq<Elem<V>>)
    returns (e: Elem<V>, p': Elem?<V>, psize': nat, q': Elem?<V>, qsize': nat, list': Elem?<V>, ghost i': nat,
             ghost j': nat)
    requires Whole(Distinct(s)) && Whole(Merging(s, i, mid, j, hi, p, psize, q, qsize, t, list, tail))
    requires psize > 0 || (qsize > 0 && q != null)
    modifies Members(s)`next, Members(s)`prev
    ensures Whole(Merging(s, i', mid, j', hi, p', psize', q', qsize', t + [e], list', e))
    ensures psize' + qsize' < psize + qsize && i' <= mid <= j' <= hi <= |s|
    ensures i <= mid <= j <= hi && MergeOnto(cmp, s, i', mid, j', hi, t + [e]) == MergeOnto(cmp, s, i, mid, j, hi, t)
  {
    e, p', psize', q', qsize', i', j' := Take(p, psize, q, qsize, cmp, s, i, mid, j, hi, t);
    assert tail != null ==> tail in t && tail in s;
    list' := AppendSorted(list, tail, e, s, t);
  }

  lemma StartMerge<V>(s: seq<Elem<V>>, i: nat, insize: nat, p: Elem?<V>, psize: nat, q: Elem?<V>, t: seq<Elem<V>>,
                      list: Elem?<V>, tail: Elem?<V>)
    requires Whole(Passing(s, i, p, t, list, tail)) && i <= |s|
    requires psize == Min(insize, |s| - i) && q == At(s, i + psize)
    ensures var mid, hi := i + psize, Min(i + 2 * insize, |s|);
            Whole(Merging(s, i, mid, mid, hi, p, psize, q, insize, t, list, tail))
  {
  }

  lemma EndMerge<V>(s: seq<Elem<V>>, i: nat, mid: nat, j: nat, hi: nat, p: Elem?<V>, psize: nat, q: Elem?<V>,
                    qsize: nat, t: seq<Elem<V>>, list: Elem?<V>, tail: Elem?<V>)
    requires Whole(Merging(s, i, mid, j, hi, p, psize, q, qsize, t, list, tail))
    requires psize == 0 && (qsize == 0 || q == null)
    ensures i == mid && j == hi <= |s| && (q == null <==> hi == |s|)
    ensures Whole(Passing(s, hi, q, t, list, tail))
  {
  }

  /** Merge the left run, which starts at `p0`, with the one behind it. */
  method MergeRuns<V>(p0: Elem<V>, insize: nat, list0: Elem?<V>, tail0: Elem?<V>, cmp: Comparator<Elem<V>>,
                      ghost s: seq<Elem<V>>, ghost i0: nat, ghost t0: seq<Elem<V>>)
    returns (list: Elem?<V>, tail: Elem?<V>, q: Elem?<V>, ghost hi: nat, ghost t: seq<Elem<V>>)
    requires insize > 0 && i0 < |s| && Whole(Distinct(s)) && Whole(Passing(s, i0, p0, t0, list0, tail0))
    modifies Members(s)`next, Members(s)`prev
    ensures hi == Min(i0 + 2 * insize, |s|) && Whole(Passing(s, hi, q, t, list, tail))
    ensures (q == null) == (hi == |s|)
    ensures PassOnto(cmp, s, hi, insize, t) == PassOnto(cmp, s, i0, insize, t0)
  {
    var psize;
    list, tail, t := list0, tail0, t0;
    q, psize := SkipRun(p0, insize, s, i0);
    var p: Elem?<V> := p0;
    var qsize := insize;
    hi := Min(i0 + 2 * insize, |s|);
    ghost var mid: nat := i0 + psize;
    ghost var i: nat, j: nat := i0, mid;
    StartMerge(s, i0, insize, p, psize, q, t, list, tail);
    ghost var goal := MergeOnto(cmp, s, i0, mid, mid, hi, t0);
    while psize > 0 || (qsize > 0 && q != null)
      invariant i <= mid <= j <= hi
      invariant Whole(Merging(s, i, mid, j, hi, p, psize, q, qsize, t, list, tail))
      invariant MergeOnto(cmp, s, i, mid, j, hi, t) == goal
      decreases psize + qsize
    {
      var e;
      e, p, psize, q, qsize, list, i, j :=
        MergeOne(p, psize, q, qsize, list, tail, cmp, s, i, mid, j, hi, t);
      tail := e;
      t := t + [e];
    }
    EndMerge(s, i, mid, j, hi, p, psize, q, qsize, t, list, tail);
    PassOntoStep(cmp, s, i0, insize, t0, mid, hi);
  }

  /** One pass over the order. The forward link of the last element is closed by the caller. */
  method SortPass<V>(head: Elem<V>, insize: nat, cmp: Comparator<Elem<V>>, ghost s: seq<Elem<V>>)
    returns (list: Elem?<V>, tail: Elem?<V>, nmerges: nat)
    requires insize > 0 && head == At(s, 0) && Distinct(s) && Whole(Forward(s))
    modifies Members(s)`next, Members(s)`prev
    ensures Whole(Output(s, PassOnto(cmp, s, 0, insize, []), list, tail))
    ensures nmerges <= 1 <==> |s| <= 2 * insize
  {
    var p: Elem?<V> := head;
    list, tail, nmerges := null, null, 0;
    ghost var i: nat, t: seq<Elem<V>> := 0, [];
    while p != null
      invariant i <= |s| && (p == null <==> i == |s|) && Whole(Passing(s, i, p, t, list, tail))
      invariant PassOnto(cmp, s, i, insize, t) == PassOnto(cmp, s, 0, insize, [])
      invariant nmerges == 0 ==> i == 0
      invariant nmerges == 1 ==> i == Min(2 * insize, |s|)
      invariant nmerges > 1 ==> |s| > 2 * insize
      decreases |s| - i
    {
      nmerges := nmerges + 1;
      list, tail, p, i, t := MergeRuns(p, insize, list, tail, cmp, s, i, t);
    }
  }

  method CloseOrder<V>(list: Elem<V>, tail: Elem<V>, ghost s: seq<Elem<V>>, ghost t: seq<Elem<V>>)
    requires Output(s, t, list, tail)
    modifies tail`next
    ensures AppOrder(list, tail, t)
  {
    tail.next := null;
  }

  lemma SameMembers<V>(cmp: Comparator<Elem<V>>, s: seq<Elem<V>>, k: nat)
    requires k > 0
    ensures Members(PassOnto(cmp, s, 0, k, [])) == Members(s)
  {
    PassPermutes(cmp, s, k);
    PassOntoEmpty(cmp, s, k);
    var t := Pass(cmp, s, k);
    PermutationFacts(s, t);
    forall e | e in Members(t) ensures e in Members(s) {
      assert e in t;
    }
    forall e | e in Members(s) ensures e in Members(t) {
      assert e in s;
    }
  }

  /** One round of the sort: a pass, and the forward link of its last element. */
  method SortRound<V>(head: Elem<V>, ghost tail0: Elem<V>, insize: nat, cmp: Comparator<Elem<V>>,
                      ghost s: seq<Elem<V>>)
    returns (list: Elem<V>, tail: Elem<V>, nmerges: nat)
    requires insize > 0 && Whole(AppOrder(head, tail0, s))
    modifies Members(s)`next, Members(s)`prev
    ensures Whole(AppOrder(list, tail, PassOnto(cmp, s, 0, insize, [])))
    ensures nmerges <= 1 <==> |s| <= 2 * insize
  {
    var first, last;
    first, last, nmerges := SortPass(head, insize, cmp, s);
    ghost var t := PassOnto(cmp, s, 0, insize, []);
    assert first == t[0] && last == t[|t| - 1];
    assert last in t;
    CloseOrder(first, last, s, t);
    list, tail := first, last;
  }

  /** HASH_SRT for a table that is not empty; the results are the new head and tail. */
  method SortOrder<V>(head: Elem<V>, ghost tail0: Elem<V>, cmp: Comparator<Elem<V>>, ghost s: seq<Elem<V>>)
    returns (list: Elem<V>, tail: Elem<V>, ghost t: seq<Elem<V>>)
    requires AppOrder(head, tail0, s)
    modifies Members(s)`next, Members(s)`prev
    ensures t == Sort(cmp, s) && Members(t) == Members(s) && Whole(AppOrder(list, tail, t))
  {
    var insize, looping := 1, true;
    var l, tl: Elem?<V> := head, null;
    ghost var cur, last := s, tail0;
    while looping
      invariant insize > 0 && |cur| == |s| && Whole(AppOrder(l, last, cur))
      invariant !looping ==> tl == last
      invariant Members(cur) == Members(s)
      invariant if looping then SortFrom(cmp, cur, insize) == Sort(cmp, s) else cur == Sort(cmp, s)
      decreases looping, |s| - insize
    {
      var nmerges;
      SameMembers(cmp, cur, insize);
      l, tl, nmerges := SortRound(l, last, insize, cmp, cur);
      cur := PassOnto(cmp, cur, 0, insize, []);
      last := tl;
      if nmerges <= 1 {
        looping := false;
      }
      insize := insize * 2;
    }
    list, tail, t := l, tl, cur;
  }
}
