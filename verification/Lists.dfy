/** utlist: the intrusive singly linked, doubly linked and circular lists, sorted in place. */
module Lists {
  import opened Facts
  import opened MergeSort

  class Node<T> {
    const data: T
    var next: Node?<T>
    var prev: Node?<T>

    constructor (data: T)
      ensures this.data == data
    {
      this.data := data;
      next, prev := null, null;
    }
  }

  ghost predicate Distinct<T>(s: seq<Node<T>>) {
    forall i, j :: 0 <= i < j < |s| ==> s[i] != s[j]
  }

  /** The `k`-th node, or null behind the last one. */
  ghost function At<T>(s: seq<Node<T>>, k: nat): Node?<T> {
    if k < |s| then s[k] else null
  }

  /** What `s[k].next` holds; `end` is what the last node points to. */
  ghost function Link<T>(s: seq<Node<T>>, k: nat, end: Node?<T>): Node?<T> {
    if k + 1 < |s| then s[k + 1] else end
  }

  ghost function Nodes<T>(s: seq<Node<T>>): set<Node<T>> {
    set e | e in s
  }

  /** `head` is a null-terminated chain through exactly the nodes of `s`. */
  ghost predicate IsLL<T>(head: Node?<T>, s: seq<Node<T>>)
    reads s`next
  {
    && head == At(s, 0)
    && Distinct(s)
    && forall k {:trigger s[k].next} :: 0 <= k < |s| ==> s[k].next == Link(s, k, null)
  }

  /** The chain node by node, from the head to null. */
  lemma LLMeans<T>(head: Node?<T>, s: seq<Node<T>>, k: nat)
    requires IsLL(head, s)
    ensures s == [] ==> head == null
    ensures k < |s| ==> head == s[0] && s[k].next == if k + 1 < |s| then s[k + 1] else null
    ensures k < |s| ==> forall j :: 0 <= j < k ==> s[j] != s[k]
  {
  }

  // ---------- what a merge pass keeps ----------

  /** Of the list `s` being consumed, the left run `s[i..mid]` and the rest `s[j..]` are still
      linked as they were, and none of them has been moved to the output `t`. */
  ghost predicate Untouched<T>(s: seq<Node<T>>, end: Node?<T>, i: nat, mid: nat, j: nat, t: seq<Node<T>>)
    requires i <= mid <= j <= |s|
    reads s`next
  {
    && (forall k {:trigger s[k].next} :: i <= k < mid || j <= k < |s| ==> s[k].next == Link(s, k, end))
    && (forall k :: i <= k < mid || j <= k < |s| ==> s[k] !in t)
  }

  /** The output `t` runs from `list` to `tail`; only the link of `tail` is still open. */
  ghost predicate Output<T>(s: seq<Node<T>>, t: seq<Node<T>>, list: Node?<T>, tail: Node?<T>)
    reads t`next
  {
    && Distinct(t)
    && (forall e :: e in t ==> e in s)
    && list == At(t, 0)
    && tail == (if |t| == 0 then null else t[|t| - 1])
    && forall k {:trigger t[k].next} :: 0 <= k < |t| - 1 ==> t[k].next == t[k + 1]
  }

  /** Step `q` over the left run, which starts at `s[i]`. */
  method SkipRun<T>(p: Node<T>, insize: nat, ghost s: seq<Node<T>>, ghost i: nat)
    returns (q: Node?<T>, psize: nat)
    requires insize > 0 && i < |s| && p == s[i]
    requires forall k {:trigger s[k].next} :: i <= k < |s| ==> s[k].next == Link(s, k, null)
    ensures psize == Min(insize, |s| - i)
    ensures q == At(s, i + psize)
  {
    q, psize := p, 0;
    var n := 0;
    while n < insize
      invariant 0 <= n <= insize && n == psize && i + psize < |s| && q == s[i + psize]
    {
      psize := psize + 1;
      q := q.next;
      if q == null {
        break;
      }
      n := n + 1;
    }
  }

  /** Hook `e` behind the output. */
  method AppendNext<T>(list: Node?<T>, tail: Node?<T>, e: Node<T>, ghost s: seq<Node<T>>, ghost t: seq<Node<T>>)
    returns (list': Node?<T>)
    requires Output(s, t, list, tail) && e in s && e !in t
    modifies (if tail == null then {} else {tail})`next
    ensures Output(s, t + [e], list', e)
  {
    list' := list;
    if tail != null {
      tail.next := e;
    } else {
      list' := e;
    }
  }

  /** Take the next node `e` off one of the two runs: the choice all list sorts share. */
  method Take<T>(p: Node?<T>, psize: nat, q: Node?<T>, qsize: nat, cmp: Comparator<Node<T>>, ghost s: seq<Node<T>>,
                 ghost i: nat, ghost mid: nat, ghost j: nat, ghost hi: nat, ghost t: seq<Node<T>>)
    returns (e: Node<T>, p': Node?<T>, psize': nat, q': Node?<T>, qsize': nat, ghost i': nat, ghost j': nat)
    requires i <= mid <= j <= hi <= |s| && (i < mid || j < hi)
    requires psize == mid - i && p == At(s, i)
    requires hi - j == Min(qsize, |s| - j) && q == At(s, j)
    requires Distinct(s) && Untouched(s, null, i, mid, j, t)
    ensures i <= i' <= mid <= j <= j' <= hi && i' - i + j' - j == 1
    ensures psize' == mid - i' && p' == At(s, i')
    ensures hi - j' == Min(qsize', |s| - j') && q' == At(s, j') && psize' + qsize' < psize + qsize
    ensures e in s && e !in t && Untouched(s, null, i', mid, j', t + [e])
    ensures MergeOnto(cmp, s, i', mid, j', hi, t + [e]) == MergeOnto(cmp, s, i, mid, j, hi, t)
  {
    p', psize', q', qsize', i', j' := p, psize, q, qsize, i, j;
    if psize == 0 {
      e := q;
      q', qsize', j' := q.next, qsize - 1, j + 1;
    } else if qsize == 0 || q == null {
      e := p;
      p', psize', i' := p.next, psize - 1, i + 1;
    } else if cmp(p, q) <= 0 {
      e := p;
      p', psize', i' := p.next, psize - 1, i + 1;
    } else {
      e := q;
      q', qsize', j' := q.next, qsize - 1, j + 1;
    }
  }

  /** The cursors `p` and `q` stand at `s[i]` and `s[j]` of the two runs being merged, which end at
      `mid` and `hi`, and the output so far is `t`. */
  ghost predicate Merging<T>(s: seq<Node<T>>, i: nat, mid: nat, j: nat, hi: nat, p: Node?<T>, psize: nat, q: Node?<T>,
                             qsize: nat, t: seq<Node<T>>, list: Node?<T>, tail: Node?<T>)
    reads s`next, t`next
  {
    && i <= mid <= j <= hi <= |s|
    && psize == mid - i && p == At(s, i)
    && hi - j == Min(qsize, |s| - j) && q == At(s, j)
    && Untouched(s, null, i, mid, j, t) && Output(s, t, list, tail)
  }

  /** Move one node from the runs to the output. */
  method LLMergeOne<T>(p: Node?<T>, psize: nat, q: Node?<T>, qsize: nat, list: Node?<T>, tail: Node?<T>,
                       cmp: Comparator<Node<T>>, ghost s: seq<Node<T>>, ghost i: nat, ghost mid: nat, ghost j: nat,
                       ghost hi: nat, ghost t: seq<Node<T>>)
    returns (e: Node<T>, p': Node?<T>, psize': nat, q': Node?<T>, qsize': nat, list': Node?<T>, ghost i': nat,
             ghost j': nat)
    requires Whole(Distinct(s)) && Whole(Merging(s, i, mid, j, hi, p, psize, q, qsize, t, list, tail))
    requires psize > 0 || (qsize > 0 && q != null)
    modifies Nodes(s)`next
    ensures Whole(Merging(s, i', mid, j', hi, p', psize', q', qsize', t + [e], list', e))
    ensures psize' + qsize' < psize + qsize && i' <= mid <= j' <= hi <= |s|
    ensures i <= mid <= j <= hi && MergeOnto(cmp, s, i', mid, j', hi, t + [e]) == MergeOnto(cmp, s, i, mid, j, hi, t)
  {
    e, p', psize', q', qsize', i', j' := Take(p, psize, q, qsize, cmp, s, i, mid, j, hi, t);
    assert tail != null ==> tail in t && tail in s;
    list' := AppendNext(list, tail, e, s, t);
  }

  /** Between two merges the cursor stands at `s[i]`, and everything in front of it is in the output. */
  ghost predicate Passing<T>(s: seq<Node<T>>, i: nat, p: Node?<T>, t: seq<Node<T>>, list: Node?<T>, tail: Node?<T>)
    reads s`next, t`next
  {
    && i <= |s| && p == At(s, i)
    && Untouched(s, null, i, i, i, t) && Output(s, t, list, tail)
  }

  lemma StartMerge<T>(s: seq<Node<T>>, i: nat, insize: nat, p: Node?<T>, psize: nat, q: Node?<T>, t: seq<Node<T>>,
                      list: Node?<T>, tail: Node?<T>)
    requires Whole(Passing(s, i, p, t, list, tail)) && i <= |s|
    requires psize == Min(insize, |s| - i) && q == At(s, i + psize)
    ensures var mid, hi := i + psize, Min(i + 2 * insize, |s|);
            Whole(Merging(s, i, mid, mid, hi, p, psize, q, insize, t, list, tail))
  {
  }

  lemma EndMerge<T>(s: seq<Node<T>>, i: nat, mid: nat, j: nat, hi: nat, p: Node?<T>, psize: nat, q: Node?<T>,
                    qsize: nat, t: seq<Node<T>>, list: Node?<T>, tail: Node?<T>)
    requires Whole(Merging(s, i, mid, j, hi, p, psize, q, qsize, t, list, tail))
    requires psize == 0 && (qsize == 0 || q == null)
    ensures i == mid && j == hi <= |s| && (q == null <==> hi == |s|)
    ensures Whole(Passing(s, hi, q, t, list, tail))
  {
  }

  /** Merge the left run, which starts at `p0`, with the one behind it. */
  method LLMergeRuns<T>(p0: Node<T>, insize: nat, list0: Node?<T>, tail0: Node?<T>, cmp: Comparator<Node<T>>,
                        ghost s: seq<Node<T>>, ghost i0: nat, ghost t0: seq<Node<T>>)
    returns (list: Node?<T>, tail: Node?<T>, q: Node?<T>, ghost hi: nat, ghost t: seq<Node<T>>)
    requires insize > 0 && i0 < |s| && Whole(Distinct(s)) && Whole(Passing(s, i0, p0, t0, list0, tail0))
    modifies Nodes(s)`next
    ensures hi == Min(i0 + 2 * insize, |s|) && Whole(Passing(s, hi, q, t, list, tail))
    ensures (q == null) == (hi == |s|)
    ensures PassOnto(cmp, s, hi, insize, t) == PassOnto(cmp, s, i0, insize, t0)
  {
    var psize;
    list, tail, t := list0, tail0, t0;
    q, psize := SkipRun(p0, insize, s, i0);
    var p: Node?<T> := p0;
    var qsize := insize;
    hi := Min(i0 + 2 * insize, |s|);
    ghost var mid: nat := i0 + psize;
    ghost var i: nat, j: nat := i0, mid;
    StartMerge(s, i0, insize, p, psize, q, t, list, tail);
    ghost var goal := MergeOnto(cmp, s, i0, mid, mid, hi, t0);
    while psize > 0 || (qsize > 0 && q != null)
      invariant i <= mid <= j <= hi
      invariant Whole(Merging(s, i, mid, j, hi, p, psize, q, qsize, t, list, tail))
      invariant MergeOnto(cmp, s, i, mid, j, hi, t) == goal
      decreases psize + qsize
    {
      var e;
      e, p, psize, q, qsize, list, i, j := LLMergeOne(p, psize, q, qsize, list, tail, cmp, s, i, mid, j, hi, t);
      tail := e;
      t := t + [e];
    }
    EndMerge(s, i, mid, j, hi, p, psize, q, qsize, t, list, tail);
    PassOntoStep(cmp, s, i0, insize, t0, mid, hi);
  }

  /** One pass over the list. The link of the last node is closed by the caller. */
  method LLPass<T>(head: Node<T>, insize: nat, cmp: Comparator<Node<T>>, ghost s: seq<Node<T>>)
    returns (list: Node?<T>, tail: Node?<T>, nmerges: nat)
    requires insize > 0 && IsLL(head, s)
    modifies Nodes(s)`next
    ensures Whole(Output(s, PassOnto(cmp, s, 0, insize, []), list, tail))
    ensures nmerges <= 1 <==> |s| <= 2 * insize
  {
    var p: Node?<T> := head;
    list, tail, nmerges := null, null, 0;
    ghost var i: nat, t: seq<Node<T>> := 0, [];
    while p != null
      invariant i <= |s| && (p == null <==> i == |s|) && Whole(Passing(s, i, p, t, list, tail))
      invariant PassOnto(cmp, s, i, insize, t) == PassOnto(cmp, s, 0, insize, [])
      invariant nmerges == 0 ==> i == 0
      invariant nmerges == 1 ==> i == Min(2 * insize, |s|)
      invariant nmerges > 1 ==> |s| > 2 * insize
      decreases |s| - i
    {
      nmerges := nmerges + 1;
      list, tail, p, i, t := LLMergeRuns(p, insize, list, tail, cmp, s, i, t);
    }
  }

  lemma SameNodes<T>(cmp: Comparator<Node<T>>, s: seq<Node<T>>, k: nat)
    requires k > 0
    ensures Nodes(PassOnto(cmp, s, 0, k, [])) == Nodes(s)
  {
    PassPermutes(cmp, s, k);
    PassOntoEmpty(cmp, s, k);
    var t := Pass(cmp, s, k);
    PermutationFacts(s, t);
    forall e | e in Nodes(t) ensures e in Nodes(s) {
      assert e in t;
    }
    forall e | e in Nodes(s) ensures e in Nodes(t) {
      assert e in s;
    }
  }

  method CloseNext<T>(list: Node?<T>, tail: Node<T>, ghost s: seq<Node<T>>, ghost t: seq<Node<T>>)
    requires Output(s, t, list, tail)
    modifies tail`next
    ensures IsLL(list, t)
  {
    tail.next := null;
  }

  /** One round of the sort: a pass, and the link of its last node. */
  method LLRound<T>(head: Node<T>, insize: nat, cmp: Comparator<Node<T>>, ghost s: seq<Node<T>>)
    returns (list: Node?<T>, nmerges: nat)
    requires insize > 0 && Whole(IsLL(head, s))
    modifies Nodes(s)`next
    ensures Whole(IsLL(list, PassOnto(cmp, s, 0, insize, [])))
    ensures nmerges <= 1 <==> |s| <= 2 * insize
  {
    var tail;
    list, tail, nmerges := LLPass(head, insize, cmp, s);
    ghost var t := PassOnto(cmp, s, 0, insize, []);
    if tail != null {
      assert tail in t;
      CloseNext(list, tail, s, t);
    }
  }

  /** LL_SORT2: the in-place sort rebuilds `next` so that the list is the stable sort of itself. */
  method LLSort<T>(head: Node?<T>, cmp: Comparator<Node<T>>, ghost s: seq<Node<T>>) returns (list: Node?<T>)
    requires IsLL(head, s)
    modifies Nodes(s)`next
    ensures IsLL(list, Sort(cmp, s))
  {
    list := head;
    if list != null {
      var insize, looping := 1, true;
      ghost var t := s;
      while looping
        invariant insize > 0 && Whole(IsLL(list, t)) && |t| == |s| && list != null
        invariant Nodes(t) == Nodes(s)
        invariant if looping then SortFrom(cmp, t, insize) == Sort(cmp, s) else t == Sort(cmp, s)
        decreases looping, |s| - insize
      {
        var nmerges;
        SameNodes(cmp, t, insize);
        list, nmerges := LLRound(list, insize, cmp, t);
        t := PassOnto(cmp, t, 0, insize, []);
        if nmerges <= 1 {
          looping := false;
        }
        insize := insize * 2;
      }
    }
  }
}
