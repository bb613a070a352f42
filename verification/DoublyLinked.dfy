/** utlist: doubly linked lists whose head keeps the last node in `prev`. */
module DoublyLinked {
  import opened Facts
  import opened MergeSort
  import opened Lists

  /** What `s[k].prev` holds: the node before, and for the head the last node. */
  ghost function Back<T>(s: seq<Node<T>>, k: nat): Node<T>
    requires k < |s|
  {
    if k == 0 then s[|s| - 1] else s[k - 1]
  }

  ghost predicate IsDL<T>(head: Node?<T>, s: seq<Node<T>>)
    reads s`next, s`prev
  {
    && IsLL(head, s)
    && forall k {:trigger s[k].prev} :: 0 <= k < |s| ==> s[k].prev == Back(s, k)
  }

  /** The list node by node, in both directions. */
  lemma DLMeans<T>(head: Node?<T>, s: seq<Node<T>>, k: nat)
    requires IsDL(head, s)
    ensures s == [] ==> head == null
    ensures k < |s| ==> head == s[0] && s[k].next == (if k + 1 < |s| then s[k + 1] else null)
                        && s[k].prev == if k > 0 then s[k - 1] else s[|s| - 1]
  {
  }

  // ---------- sorting ----------

  /** The output of a pass, with every `prev` but the head's already in place. */
  ghost predicate OutputBoth<T>(s: seq<Node<T>>, t: seq<Node<T>>, list: Node?<T>, tail: Node?<T>)
    reads t`next, t`prev
  {
    && Output(s, t, list, tail)
    && forall k {:trigger t[k].prev} :: 1 <= k < |t| ==> t[k].prev == t[k - 1]
  }

  /** Hook `e` behind the output, in both directions. */
  method AppendBoth<T>(list: Node?<T>, tail: Node?<T>, e: Node<T>, ghost s: seq<Node<T>>, ghost t: seq<Node<T>>)
    returns (list': Node?<T>)
    requires OutputBoth(s, t, list, tail) && e in s && e !in t
    modifies (if tail == null then {} else {tail})`next, e`prev
    ensures OutputBoth(s, t + [e], list', e)
  {
    list' := list;
    if tail != null {
      tail.next := e;
    } else {
      list' := e;
    }
    e.prev := tail;
  }

  /** Two runs being merged: the cursors `p` and `q` stand at `s[i]` and `s[j]`, the runs end at `mid`
      and `hi`, and the output so far is `t`. */
  ghost predicate DLMerging<T>(s: seq<Node<T>>, i: nat, mid: nat, j: nat, hi: nat, p: Node?<T>, psize: nat,
                               q: Node?<T>, qsize: nat, t: seq<Node<T>>, list: Node?<T>, tail: Node?<T>)
    reads s`next, t`next, t`prev
  {
    && i <= mid <= j <= hi <= |s|
    && psize == mid - i && p == At(s, i)
    && hi - j == Min(qsize, |s| - j) && q == At(s, j)
    && Untouched(s, null, i, mid, j, t) && OutputBoth(s, t, list, tail)
  }

  /** Between two merges the cursor stands at `s[i]`, and everything in front of it is in the output. */
  ghost predicate DLPassing<T>(s: seq<Node<T>>, i: nat, p: Node?<T>, t: seq<Node<T>>, list: Node?<T>, tail: Node?<T>)
    reads s`next, t`next, t`prev
  {
    && i <= |s| && p == At(s, i)
    && Untouched(s, null, i, i, i, t) && OutputBoth(s, t, list, tail)
  }

  /** Move one node from the runs to the output. */
  method DLMergeOne<T>(p: Node?<T>, psize: nat, q: Node?<T>, qsize: nat, list: Node?<T>, tail: Node?<T>,
                       cmp: Comparator<Node<T>>, ghost s: seq<Node<T>>, ghost i: nat, ghost mid: nat, ghost j: nat,
                       ghost hi: nat, ghost t: seq<Node<T>>)
    returns (e: Node<T>, p': Node?<T>, psize': nat, q': Node?<T>, qsize': nat, list': Node?<T>, ghost i': nat,
             ghost j': nat)
    requires Whole(Distinct(s)) && Whole(DLMerging(s, i, mid, j, hi, p, psize, q, qsize, t, list, tail))
    requires psize > 0 || (qsize > 0 && q != null)
    modifies Nodes(s)`next, Nodes(s)`prev
    ensures Whole(DLMerging(s, i', mid, j', hi, p', psize', q', qsize', t + [e], list', e))
    ensures psize' + qsize' < psize + qsize && i' <= mid <= j' <= hi <= |s|
    ensures i <= mid <= j <= hi && MergeOnto(cmp, s, i', mid, j', hi, t + [e]) == MergeOnto(cmp, s, i, mid, j, hi, t)
  {
    e, p', psize', q', qsize', i', j' := Take(p, psize, q, qsize, cmp, s, i, mid, j, hi, t);
    assert tail != null ==> tail in t && tail in s;
    list' := AppendBoth(list, tail, e, s, t);
  }

  lemma DLStartMerge<T>(s: seq<Node<T>>, i: nat, insize: nat, p: Node?<T>, psize: nat, q: Node?<T>, t: seq<Node<T>>,
                        list: Node?<T>, tail: Node?<T>)
    requires Whole(DLPassing(s, i, p, t, list, tail)) && i <= |s|
    requires psize == Min(insize, |s| - i) && q == At(s, i + psize)
    ensures var mid, hi := i + psize, Min(i + 2 * insize, |s|);
            Whole(DLMerging(s, i, mid, mid, hi, p, psize, q, insize, t, list, tail))
  {
  }

  lemma DLEndMerge<T>(s: seq<Node<T>>, i: nat, mid: nat, j: nat, hi: nat, p: Node?<T>, psize: nat, q: Node?<T>,
                      qsize: nat, t: seq<Node<T>>, list: Node?<T>, tail: Node?<T>)
    requires Whole(DLMerging(s, i, mid, j, hi, p, psize, q, qsize, t, list, tail))
    requires psize == 0 && (qsize == 0 || q == null)
    ensures i == mid && j == hi <= |s| && (q == null <==> hi == |s|)
    ensures Whole(DLPassing(s, hi, q, t, list, tail))
  {
  }

  /** Merge the left run, which starts at `p0`, with the one behind it. */
  method DLMergeRuns<T>(p0: Node<T>, insize: nat, list0: Node?<T>, tail0: Node?<T>, cmp: Comparator<Node<T>>,
                        ghost s: seq<Node<T>>, ghost i0: nat, ghost t0: seq<Node<T>>)
    returns (list: Node?<T>, tail: Node?<T>, q: Node?<T>, ghost hi: nat, ghost t: seq<Node<T>>)
    requires insize > 0 && i0 < |s| && Whole(Distinct(s)) && Whole(DLPassing(s, i0, p0, t0, list0, tail0))
    modifies Nodes(s)`next, Nodes(s)`prev
    ensures hi == Min(i0 + 2 * insize, |s|) && Whole(DLPassing(s, hi, q, t, list, tail))
    ensures (q == null) == (hi == |s|)
    ensures PassOnto(cmp, s, hi, insize, t) == PassOnto(cmp, s, i0, insize, t0)
  {
    var psize;
    list, tail, t := list0, tail0, t0;
    q, psize := SkipRun(p0, insize, s, i0);
    var p: Node?<T> := p0;
    var qsize := insize;
    hi := Min(i0 + 2 * insize, |s|);
    ghost var mid: nat := i0 + psize;
    ghost var i: nat, j: nat := i0, mid;
    DLStartMerge(s, i0, insize, p, psize, q, t, list, tail);
    ghost var goal := MergeOnto(cmp, s, i0, mid, mid, hi, t0);
    while psize > 0 || (qsize > 0 && q != null)
      invariant i <= mid <= j <= hi
      invariant Whole(DLMerging(s, i, mid, j, hi, p, psize, q, qsize, t, list, tail))
      invariant MergeOnto(cmp, s, i, mid, j, hi, t) == goal
      decreases psize + qsize
    {
      var e;
      e, p, psize, q, qsize, list, i, j :=
        DLMergeOne(p, psize, q, qsize, list, tail, cmp, s, i, mid, j, hi, t);
      tail := e;
      t := t + [e];
    }
    DLEndMerge(s, i, mid, j, hi, p, psize, q, qsize, t, list, tail);
    PassOntoStep(cmp, s, i0, insize, t0, mid, hi);
  }

  /** One pass over the list. The link of the last node and the head's `prev` are set by the caller. */
  method DLPass<T>(head: Node<T>, insize: nat, cmp: Comparator<Node<T>>, ghost s: seq<Node<T>>)
    returns (list: Node?<T>, tail: Node?<T>, nmerges: nat)
    requires insize > 0 && IsLL(head, s)
    modifies Nodes(s)`next, Nodes(s)`prev
    ensures Whole(OutputBoth(s, PassOnto(cmp, s, 0, insize, []), list, tail))
    ensures nmerges <= 1 <==> |s| <= 2 * insize
  {
    var p: Node?<T> := head;
    list, tail, nmerges := null, null, 0;
    ghost var i: nat, t: seq<Node<T>> := 0, [];
    while p != null
      invariant i <= |s| && (p == null <==> i == |s|) && Whole(DLPassing(s, i, p, t, list, tail))
      invariant PassOnto(cmp, s, i, insize, t) == PassOnto(cmp, s, 0, insize, [])
      invariant nmerges == 0 ==> i == 0
      invariant nmerges == 1 ==> i == Min(2 * insize, |s|)
      invariant nmerges > 1 ==> |s| > 2 * insize
      decreases |s| - i
    {
      nmerges := nmerges + 1;
      list, tail, p, i, t := DLMergeRuns(p, insize, list, tail, cmp, s, i, t);
    }
  }

  method CloseBoth<T>(list: Node<T>, tail: Node<T>, ghost s: seq<Node<T>>, ghost t: seq<Node<T>>)
    requires OutputBoth(s, t, list, tail)
    modifies list`prev, tail`next
    ensures IsDL(list, t)
  {
    list.prev := tail;
    tail.next := null;
  }

  /** One round of the sort: a pass, the link of its last node and the `prev` of its first. */
  method DLRound<T>(head: Node<T>, insize: nat, cmp: Comparator<Node<T>>, ghost s: seq<Node<T>>)
    returns (list: Node<T>, nmerges: nat)
    requires insize > 0 && Whole(IsLL(head, s))
    modifies Nodes(s)`next, Nodes(s)`prev
    ensures Whole(IsDL(list, PassOnto(cmp, s, 0, insize, [])))
    ensures nmerges <= 1 <==> |s| <= 2 * insize
  {
    var first, tail;
    first, tail, nmerges := DLPass(head, insize, cmp, s);
    ghost var t := PassOnto(cmp, s, 0, insize, []);
    assert first in t && tail in t;
    CloseBoth(first, tail, s, t);
    list := first;
  }

  /** DL_SORT2: only `next` need be in order beforehand; afterwards both directions are, and the
      list is the stable sort of itself. */
  method DLSort<T>(head: Node?<T>, cmp: Comparator<Node<T>>, ghost s: seq<Node<T>>) returns (list: Node?<T>)
    requires IsLL(head, s)
    modifies Nodes(s)`next, Nodes(s)`prev
    ensures IsDL(list, Sort(cmp, s))
  {
    list := head;
    if list != null {
      var insize, looping := 1, true;
      ghost var t := s;
      while looping
        invariant insize > 0 && Whole(IsLL(list, t)) && |t| == |s| && list != null
        invariant !looping ==> Whole(IsDL(list, t))
        invariant Nodes(t) == Nodes(s)
        invariant if looping then SortFrom(cmp, t, insize) == Sort(cmp, s) else t == Sort(cmp, s)
        decreases looping, |s| - insize
      {
        var nmerges;
        SameNodes(cmp, t, insize);
        list, nmerges := DLRound(list, insize, cmp, t);
        t := PassOnto(cmp, t, 0, insize, []);
        if nmerges <= 1 {
          looping := false;
        }
        insize := insize * 2;
      }
    }
  }

  // ---------- editing ----------

  method DLAppend<T>(head: Node?<T>, add: Node<T>, ghost s: seq<Node<T>>) returns (head': Node?<T>)
    requires IsDL(head, s) && add !in s
    modifies Nodes(s)`next, Nodes(s)`prev, add
    ensures IsDL(head', s + [add])
  {
    head' := head;
    if head' != null {
      assert head'.prev == s[|s| - 1];
      assert head' in s && head'.prev in s;
      add.prev := head'.prev;
      head'.prev.next := add;
      head'.prev := add;
      add.next := null;
    } else {
      head' := add;
      head'.prev := head';
      head'.next := null;
    }
  }

  method DLPrepend<T>(head: Node?<T>, add: Node<T>, ghost s: seq<Node<T>>) returns (head': Node?<T>)
    requires IsDL(head, s) && add !in s
    modifies Nodes(s)`prev, add
    ensures IsDL(head', [add] + s)
  {
    add.next := head;
    if head != null {
      assert head in s;
      add.prev := head.prev;
      head.prev := add;
    } else {
      add.prev := add;
    }
    head' := add;
  }

  /** DL_APPEND_ELEM2: insert `add` behind `el`, or in front of everything if `el` is null. */
  method DLAppendElem<T>(head: Node?<T>, el: Node?<T>, add: Node<T>, ghost s: seq<Node<T>>, ghost k: nat)
    returns (head': Node?<T>)
    requires IsDL(head, s) && add !in s && k <= |s|
    requires el == if k == 0 then null else s[k - 1]
    modifies Nodes(s)`next, Nodes(s)`prev, add
    ensures IsDL(head', InsertAt(s, k, add))
  {
    if el != null {
      head' := head;
      assert el in s && head in s;
      add.next := el.next;
      add.prev := el;
      el.next := add;
      if add.next != null {
        assert add.next == s[k];
        add.next.prev := add;
      } else {
        assert k == |s|;
        head'.prev := add;
      }
    } else {
      head' := DLPrepend(head, add, s);
      assert InsertAt(s, k, add) == [add] + s;
    }
  }

  /** DL_DELETE2. */
  method DLDelete<T>(head: Node<T>, del: Node<T>, ghost s: seq<Node<T>>, ghost k: nat) returns (head': Node?<T>)
    requires IsDL(head, s) && k < |s| && del == s[k]
    modifies Nodes(s)`next, Nodes(s)`prev
    ensures IsDL(head', s[..k] + s[k + 1..])
    ensures del.next == old(del.next) && del.prev == old(del.prev)
  {
    head' := head;
    if del.prev == del {
      head' := null;
    } else if del == head {
      assert del.next == s[1];
      del.next.prev := del.prev;
      head' := del.next;
    } else {
      assert del.prev == s[k - 1];
      del.prev.next := del.next;
      if del.next != null {
        assert del.next == s[k + 1];
        del.next.prev := del.prev;
      } else {
        head'.prev := del.prev;
      }
    }
  }

  /** `k` is the number of leading nodes that compare below `like`. */
  ghost predicate LowerBoundAt<T>(cmp: Comparator<Node<T>>, s: seq<Node<T>>, like: Node<T>, k: nat) {
    && k <= |s|
    && (forall i :: 0 <= i < k ==> cmp(s[i], like) < 0)
    && (k < |s| ==> cmp(s[k], like) >= 0)
  }

  /** How many leading nodes compare below `like`. */
  function LowerBound<T>(cmp: Comparator<Node<T>>, s: seq<Node<T>>, like: Node<T>): nat {
    if s == [] || cmp(s[0], like) >= 0 then 0 else 1 + LowerBound(cmp, s[1..], like)
  }

  lemma {:induction false} LowerBoundUnique<T>(cmp: Comparator<Node<T>>, s: seq<Node<T>>, like: Node<T>, k: nat)
    requires LowerBoundAt(cmp, s, like, k)
    ensures k == LowerBound(cmp, s, like)
  {
    if k > 0 {
      assert cmp(s[0], like) < 0;
      LowerBoundUnique(cmp, s[1..], like, k - 1);
    }
  }

  /** DL_LOWER_BOUND2: the last node of the leading run that compares below `like`, or null. */
  method DLLowerBound<T>(head: Node?<T>, like: Node<T>, cmp: Comparator<Node<T>>, ghost s: seq<Node<T>>)
    returns (elt: Node?<T>, ghost k: nat)
    requires IsDL(head, s)
    ensures LowerBoundAt(cmp, s, like, k) && k == LowerBound(cmp, s, like)
    ensures elt == if LowerBound(cmp, s, like) == 0 then null else s[LowerBound(cmp, s, like) - 1]
  {
    if head == null || cmp(head, like) >= 0 {
      elt, k := null, 0;
    } else {
      elt, k := head, 1;
      while elt.next != null
        invariant 1 <= k <= |s| && elt == s[k - 1]
        invariant forall i :: 0 <= i < k ==> cmp(s[i], like) < 0
        decreases |s| - k
      {
        if cmp(elt.next, like) >= 0 {
          break;
        }
        elt, k := elt.next, k + 1;
      }
    }
    LowerBoundUnique(cmp, s, like, k);
  }

  method DLInsertInorder<T>(head: Node?<T>, add: Node<T>, cmp: Comparator<Node<T>>, ghost s: seq<Node<T>>)
    returns (head': Node?<T>, ghost k: nat)
    requires IsDL(head, s) && add !in s
    modifies Nodes(s)`next, Nodes(s)`prev, add
    ensures LowerBoundAt(cmp, s, add, k)
    ensures IsDL(head', InsertAt(s, k, add))
  {
    if head != null {
      var tmp;
      tmp, k := DLLowerBound(head, add, cmp, s);
      head' := DLAppendElem(head, tmp, add, s, k);
    } else {
      head', k := add, 0;
      head'.prev := head';
      head'.next := null;
    }
  }

  /** With a comparator whose sign flips with its arguments, inserting at the lower bound keeps a
      sorted list sorted and puts the new node in front of its equals. */
  lemma InsertKeepsSorted<T>(cmp: Comparator<Node<T>>, s: seq<Node<T>>, add: Node<T>, k: nat)
    requires PreorderOn(cmp, s + [add]) && Sorted(cmp, s) && LowerBoundAt(cmp, s, add, k)
    requires forall i :: 0 <= i < |s| ==> (cmp(s[i], add) >= 0 <==> cmp(add, s[i]) <= 0)
    ensures Sorted(cmp, InsertAt(s, k, add))
    ensures forall i :: 0 <= i < |s| && Equivalent(cmp, s[i], add) ==> k <= i
  {
    var dom := s + [add];
    assert dom[|s|] == add;
    forall i | k <= i < |s| ensures cmp(add, s[i]) <= 0 {
      assert dom[i] == s[i] && dom[k] == s[k];
      assert add in dom && s[i] in dom && s[k] in dom;
      assert cmp(add, s[k]) <= 0;
      assert i > k ==> cmp(s[k], s[i]) <= 0;
    }
    InsertSorted(cmp, s, k, add);
  }

  /** DL_CONCAT2: the second list is hooked on whole, with two links in each direction. */
  method DLConcat<T>(head1: Node?<T>, head2: Node?<T>, ghost s1: seq<Node<T>>, ghost s2: seq<Node<T>>)
    returns (head1': Node?<T>)
    requires IsDL(head1, s1) && IsDL(head2, s2) && Nodes(s1) !! Nodes(s2)
    modifies Nodes(s1)`next, Nodes(s1)`prev, Nodes(s2)`prev
    ensures IsDL(head1', s1 + s2)
  {
    head1' := head1;
    if head2 != null {
      assert head2 in Nodes(s2);
      if head1 != null {
        var tmp := head2.prev;
        assert head1 in Nodes(s1) && head1.prev in Nodes(s1);
        head2.prev := head1.prev;
        head1.prev.next := head2;
        head1.prev := tmp;
        Joined(s1, s2);
      } else {
        head1' := head2;
        assert s1 + s2 == s2;
      }
    } else {
      assert s1 + s2 == s1;
    }
  }

  lemma Joined<T>(s1: seq<Node<T>>, s2: seq<Node<T>>)
    requires Distinct(s1) && Distinct(s2) && Nodes(s1) !! Nodes(s2)
    ensures Distinct(s1 + s2)
  {
    var s := s1 + s2;
    forall i, j | 0 <= i < j < |s| ensures s[i] != s[j] {
      if i < |s1| <= j {
        assert s[i] in Nodes(s1) && s[j] in Nodes(s2);
      }
    }
  }
}
