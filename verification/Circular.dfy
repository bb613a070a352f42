/** utlist: circular doubly linked lists, sorted in place. */
module Circular {
  import opened Bits
  import opened Facts
  import opened MergeSort
  import opened Lists
  import opened DoublyLinked

  /** The `next` links lead through `s` and back to the head. */
  ghost predicate IsRing<T>(head: Node?<T>, s: seq<Node<T>>)
    reads s`next
  {
    && head == At(s, 0)
    && Distinct(s)
    && forall k {:trigger s[k].next} :: 0 <= k < |s| ==> s[k].next == Link(s, k, head)
  }

  ghost predicate IsCDL<T>(head: Node?<T>, s: seq<Node<T>>)
    reads s`next, s`prev
  {
    && IsRing(head, s)
    && forall k {:trigger s[k].prev} :: 0 <= k < |s| ==> s[k].prev == Back(s, k)
  }

  /** The ring node by node, in both directions. */
  lemma CDLMeans<T>(head: Node?<T>, s: seq<Node<T>>, k: nat)
    requires IsCDL(head, s)
    ensures s == [] ==> head == null
    ensures k < |s| ==> head == s[0] && s[k].next == s[(k + 1) % |s|] && s[k].prev == s[(k + |s| - 1) % |s|]
  {
    if k < |s| {
      Around(k, |s|);
    }
  }

  lemma Around(k: nat, n: nat)
    requires k < n
    ensures (k + 1) % n == if k + 1 < n then k + 1 else 0
    ensures (k + n - 1) % n == if k > 0 then k - 1 else n - 1
  {
    if k + 1 < n {
      DivMod(k + 1, 0, k + 1, n);
    } else {
      DivMod(k + 1, 1, 0, n);
    }
    if k > 0 {
      DivMod(k + n - 1, 1, k - 1, n);
    } else {
      DivMod(n - 1, 0, n - 1, n);
    }
  }

  /** Step `q` over the left run; coming back to the old head is the end. */
  method RingSkipRun<T>(p: Node<T>, insize: nat, oldhead: Node<T>, ghost s: seq<Node<T>>, ghost i: nat)
    returns (q: Node?<T>, psize: nat)
    requires insize > 0 && i < |s| && p == s[i] && oldhead == s[0] && Distinct(s)
    requires forall k {:trigger s[k].next} :: i <= k < |s| ==> s[k].next == Link(s, k, oldhead)
    ensures psize == Min(insize, |s| - i)
    ensures q == At(s, i + psize)
  {
    q, psize := p, 0;
    var n := 0;
    while n < insize
      invariant 0 <= n <= insize && n == psize && i + psize < |s| && q == s[i + psize]
    {
      psize := psize + 1;
      if q.next == oldhead {
        q := null;
      } else {
        q := q.next;
      }
      if q == null {
        break;
      }
      n := n + 1;
    }
  }

  /** The choice of the circular sort: as `Lists.Take`, with every cursor stopping at the old head. */
  method RingTake<T>(p: Node?<T>, psize: nat, q: Node?<T>, qsize: nat, oldhead: Node<T>, cmp: Comparator<Node<T>>,
                     ghost s: seq<Node<T>>, ghost i: nat, ghost mid: nat, ghost j: nat, ghost hi: nat,
                     ghost t: seq<Node<T>>)
    returns (e: Node<T>, p': Node?<T>, psize': nat, q': Node?<T>, qsize': nat, ghost i': nat, ghost j': nat)
    requires i <= mid <= j <= hi <= |s| && (i < mid || j < hi) && oldhead == s[0]
    requires psize == mid - i && p == At(s, i)
    requires hi - j == Min(qsize, |s| - j) && q == At(s, j)
    requires Distinct(s) && Untouched(s, oldhead, i, mid, j, t)
    ensures i <= i' <= mid <= j <= j' <= hi && i' - i + j' - j == 1
    ensures psize' == mid - i' && p' == At(s, i')
    ensures hi - j' == Min(qsize', |s| - j') && q' == At(s, j') && psize' + qsize' < psize + qsize
    ensures e in s && e !in t && Untouched(s, oldhead, i', mid, j', t + [e])
    ensures MergeOnto(cmp, s, i', mid, j', hi, t + [e]) == MergeOnto(cmp, s, i, mid, j, hi, t)
  {
    p', psize', q', qsize', i', j' := p, psize, q, qsize, i, j;
    if psize == 0 {
      e := q;
      q', qsize', j' := q.next, qsize - 1, j + 1;
      if q' == oldhead {
        q' := null;
      }
    } else if qsize == 0 || q == null {
      e := p;
      p', psize', i' := p.next, psize - 1, i + 1;
      if p' == oldhead {
        p' := null;
      }
    } else if cmp(p, q) <= 0 {
      e := p;
      p', psize', i' := p.next, psize - 1, i + 1;
      if p' == oldhead {
        p' := null;
      }
    } else {
      e := q;
      q', qsize', j' := q.next, qsize - 1, j + 1;
      if q' == oldhead {
        q' := null;
      }
    }
  }

  /** Two runs being merged: the cursors `p` and `q` stand at `s[i]` and `s[j]`, the runs end at `mid`
      and `hi`, and the output so far is `t`. */
  ghost predicate CDLMerging<T>(s: seq<Node<T>>, i: nat, mid: nat, j: nat, hi: nat, p: Node?<T>, psize: nat,
                                q: Node?<T>, qsize: nat, oldhead: Node<T>, t: seq<Node<T>>, list: Node?<T>,
                                tail: Node?<T>)
    reads s`next, t`next, t`prev
  {
    && i <= mid <= j <= hi <= |s| && oldhead == At(s, 0)
    && psize == mid - i && p == At(s, i)
    && hi - j == Min(qsize, |s| - j) && q == At(s, j)
    && Untouched(s, oldhead, i, mid, j, t) && OutputBoth(s, t, list, tail)
  }

  /** Between two merges the cursor stands at `s[i]`, and everything in front of it is in the output. */
  ghost predicate CDLPassing<T>(s: seq<Node<T>>, i: nat, p: Node?<T>, oldhead: Node<T>, t: seq<Node<T>>,
                                list: Node?<T>, tail: Node?<T>)
    reads s`next, t`next, t`prev
  {
    && i <= |s| && p == At(s, i) && oldhead == At(s, 0)
    && Untouched(s, oldhead, i, i, i, t) && OutputBoth(s, t, list, tail)
  }

  /** Move one node from the runs to the output. */
  method CDLMergeOne<T>(p: Node?<T>, psize: nat, q: Node?<T>, qsize: nat, oldhead: Node<T>, list: Node?<T>,
                        tail: Node?<T>, cmp: Comparator<Node<T>>, ghost s: seq<Node<T>>, ghost i: nat, ghost mid: nat,
                        ghost j: nat, ghost hi: nat, ghost t: seq<Node<T>>)
    returns (e: Node<T>, p': Node?<T>, psize': nat, q': Node?<T>, qsize': nat, list': Node?<T>, ghost i': nat,
             ghost j': nat)
    requires Whole(Distinct(s)) && Whole(CDLMerging(s, i, mid, j, hi, p, psize, q, qsize, oldhead, t, list, tail))
    requires psize > 0 || (qsize > 0 && q != null)
    modifies Nodes(s)`next, Nodes(s)`prev
    ensures Whole(CDLMerging(s, i', mid, j', hi, p', psize', q', qsize', oldhead, t + [e], list', e))
    ensures psize' + qsize' < psize + qsize && i' <= mid <= j' <= hi <= |s|
    ensures i <= mid <= j <= hi && MergeOnto(cmp, s, i', mid, j', hi, t + [e]) == MergeOnto(cmp, s, i, mid, j, hi, t)
  {
    e, p', psize', q', qsize', i', j' := RingTake(p, psize, q, qsize, oldhead, cmp, s, i, mid, j, hi, t);
    assert tail != null ==> tail in t && tail in s;
    list' := AppendBoth(list, tail, e, s, t);
  }

  lemma CDLStartMerge<T>(s: seq<Node<T>>, i: nat, insize: nat, p: Node?<T>, psize: nat, q: Node?<T>, oldhead: Node<T>,
                         t: seq<Node<T>>, list: Node?<T>, tail: Node?<T>)
    requires Whole(CDLPassing(s, i, p, oldhead, t, list, tail)) && i <= |s|
    requires psize == Min(insize, |s| - i) && q == At(s, i + psize)
    ensures var mid, hi := i + psize, Min(i + 2 * insize, |s|);
            Whole(CDLMerging(s, i, mid, mid, hi, p, psize, q, insize, oldhead, t, list, tail))
  {
  }

  lemma CDLEndMerge<T>(s: seq<Node<T>>, i: nat, mid: nat, j: nat, hi: nat, p: Node?<T>, psize: nat, q: Node?<T>,
                       qsize: nat, oldhead: Node<T>, t: seq<Node<T>>, list: Node?<T>, tail: Node?<T>)
    requires Whole(CDLMerging(s, i, mid, j, hi, p, psize, q, qsize, oldhead, t, list, tail))
    requires psize == 0 && (qsize == 0 || q == null)
    ensures i == mid && j == hi <= |s| && (q == null <==> hi == |s|)
    ensures Whole(CDLPassing(s, hi, q, oldhead, t, list, tail))
  {
  }

  /** Merge the left run, which starts at `p0`, with the one behind it. */
  method CDLMergeRuns<T>(p0: Node<T>, insize: nat, oldhead: Node<T>, list0: Node?<T>, tail0: Node?<T>,
                         cmp: Comparator<Node<T>>, ghost s: seq<Node<T>>, ghost i0: nat, ghost t0: seq<Node<T>>)
    returns (list: Node?<T>, tail: Node?<T>, q: Node?<T>, ghost hi: nat, ghost t: seq<Node<T>>)
    requires insize > 0 && i0 < |s| && Whole(Distinct(s)) && Whole(CDLPassing(s, i0, p0, oldhead, t0, list0, tail0))
    modifies Nodes(s)`next, Nodes(s)`prev
    ensures hi == Min(i0 + 2 * insize, |s|) && Whole(CDLPassing(s, hi, q, oldhead, t, list, tail))
    ensures (q == null) == (hi == |s|)
    ensures PassOnto(cmp, s, hi, insize, t) == PassOnto(cmp, s, i0, insize, t0)
  {
    var psize;
    list, tail, t := list0, tail0, t0;
    q, psize := RingSkipRun(p0, insize, oldhead, s, i0);
    var p: Node?<T> := p0;
    var qsize := insize;
    hi := Min(i0 + 2 * insize, |s|);
    ghost var mid: nat := i0 + psize;
    ghost var i: nat, j: nat := i0, mid;
    CDLStartMerge(s, i0, insize, p, psize, q, oldhead, t, list, tail);
    ghost var goal := MergeOnto(cmp, s, i0, mid, mid, hi, t0);
    while psize > 0 || (qsize > 0 && q != null)
      invariant i <= mid <= j <= hi
      invariant Whole(CDLMerging(s, i, mid, j, hi, p, psize, q, qsize, oldhead, t, list, tail))
      invariant MergeOnto(cmp, s, i, mid, j, hi, t) == goal
      decreases psize + qsize
    {
      var e;
      e, p, psize, q, qsize, list, i, j :=
        CDLMergeOne(p, psize, q, qsize, oldhead, list, tail, cmp, s, i, mid, j, hi, t);
      tail := e;
      t := t + [e];
    }
    CDLEndMerge(s, i, mid, j, hi, p, psize, q, qsize, oldhead, t, list, tail);
    PassOntoStep(cmp, s, i0, insize, t0, mid, hi);
  }

  /** One pass over the ring. The two links between the ends are set by the caller. */
  method CDLPass<T>(head: Node<T>, insize: nat, cmp: Comparator<Node<T>>, ghost s: seq<Node<T>>)
    returns (list: Node?<T>, tail: Node?<T>, nmerges: nat)
    requires insize > 0 && IsRing(head, s)
    modifies Nodes(s)`next, Nodes(s)`prev
    ensures Whole(OutputBoth(s, PassOnto(cmp, s, 0, insize, []), list, tail))
    ensures nmerges <= 1 <==> |s| <= 2 * insize
  {
    var p: Node?<T> := head;
    var oldhead := head;
    list, tail, nmerges := null, null, 0;
    ghost var i: nat, t: seq<Node<T>> := 0, [];
    while p != null
      invariant i <= |s| && (p == null <==> i == |s|) && Whole(CDLPassing(s, i, p, oldhead, t, list, tail))
      invariant PassOnto(cmp, s, i, insize, t) == PassOnto(cmp, s, 0, insize, [])
      invariant nmerges == 0 ==> i == 0
      invariant nmerges == 1 ==> i == Min(2 * insize, |s|)
      invariant nmerges > 1 ==> |s| > 2 * insize
      decreases |s| - i
    {
      nmerges := nmerges + 1;
      list, tail, p, i, t := CDLMergeRuns(p, insize, oldhead, list, tail, cmp, s, i, t);
    }
  }

  /** Join the ends of a finished pass. */
  method CloseRing<T>(list: Node<T>, tail: Node<T>, ghost s: seq<Node<T>>, ghost t: seq<Node<T>>)
    requires OutputBoth(s, t, list, tail)
    modifies list`prev, tail`next
    ensures IsCDL(list, t)
  {
    list.prev := tail;
    tail.next := list;
  }

  /** One round of the sort: a pass, and the links between its ends. */
  method CDLRound<T>(head: Node<T>, insize: nat, cmp: Comparator<Node<T>>, ghost s: seq<Node<T>>)
    returns (list: Node<T>, nmerges: nat)
    requires insize > 0 && Whole(IsRing(head, s))
    modifies Nodes(s)`next, Nodes(s)`prev
    ensures Whole(IsCDL(list, PassOnto(cmp, s, 0, insize, [])))
    ensures nmerges <= 1 <==> |s| <= 2 * insize
  {
    var first, tail;
    first, tail, nmerges := CDLPass(head, insize, cmp, s);
    ghost var t := PassOnto(cmp, s, 0, insize, []);
    assert first in t && tail in t;
    CloseRing(first, tail, s, t);
    list := first;
  }

  /** CDL_SORT2: given a ring of `next` links, leaves the ring in both directions, stably sorted. */
  method CDLSort<T>(head: Node?<T>, cmp: Comparator<Node<T>>, ghost s: seq<Node<T>>) returns (list: Node?<T>)
    requires IsRing(head, s)
    modifies Nodes(s)`next, Nodes(s)`prev
    ensures IsCDL(list, Sort(cmp, s))
  {
    list := head;
    if list != null {
      var insize, looping := 1, true;
      ghost var t := s;
      while looping
        invariant insize > 0 && Whole(IsRing(list, t)) && |t| == |s| && list != null
        invariant !looping ==> Whole(IsCDL(list, t))
        invariant Nodes(t) == Nodes(s)
        invariant if looping then SortFrom(cmp, t, insize) == Sort(cmp, s) else t == Sort(cmp, s)
        decreases looping, |s| - insize
      {
        var nmerges;
        SameNodes(cmp, t, insize);
        list, nmerges := CDLRound(list, insize, cmp, t);
        t := PassOnto(cmp, t, 0, insize, []);
        if nmerges <= 1 {
          looping := false;
        }
        insize := insize * 2;
      }
    }
  }
}
