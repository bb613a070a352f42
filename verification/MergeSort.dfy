/** Stable bottom-up merge sort on sequences: the specification that the
    in-place list sorts are proved against, and what it guarantees.  */
module MergeSort {
  import opened Facts

  /** `cmp(a, b) <= 0` is how every sort macro asks whether `a` may stay before `b`. */
  type Comparator<!X> = (X, X) -> int

  function Min(a: int, b: int): int { if a < b then a else b }

  /** Two-way merge that prefers the left run on ties. */
  function Merge<X>(cmp: Comparator<X>, xs: seq<X>, ys: seq<X>): (r: seq<X>)
    ensures |r| == |xs| + |ys|
    decreases |xs| + |ys|
  {
    if |xs| == 0 then ys
    else if |ys| == 0 then xs
    else if cmp(xs[0], ys[0]) <= 0 then [xs[0]] + Merge(cmp, xs[1..], ys)
    else [ys[0]] + Merge(cmp, xs, ys[1..])
  }

  /** One pass: merge neighbouring runs of length `k` (the last ones may be short). */
  function Pass<X>(cmp: Comparator<X>, s: seq<X>, k: nat): (r: seq<X>)
    requires k > 0
    ensures |r| == |s|
    decreases |s|
  {
    if |s| == 0 then []
    else
      var mid, hi := Min(k, |s|), Min(2 * k, |s|);
      Merge(cmp, s[..mid], s[mid..hi]) + Pass(cmp, s[hi..], k)
  }

  /** Merge of the runs `s[i..mid]` and `s[j..hi]`, appended to `t`. */
  function MergeOnto<X>(cmp: Comparator<X>, s: seq<X>, i: nat, mid: nat, j: nat, hi: nat, t: seq<X>): (r: seq<X>)
    requires i <= mid <= j <= hi <= |s|
    ensures |r| == |t| + mid - i + hi - j
    decreases mid - i + hi - j
  {
    if i == mid && j == hi then t
    else if i == mid || (j < hi && cmp(s[i], s[j]) > 0) then MergeOnto(cmp, s, i, mid, j + 1, hi, t + [s[j]])
    else MergeOnto(cmp, s, i + 1, mid, j, hi, t + [s[i]])
  }

  function PassOnto<X>(cmp: Comparator<X>, s: seq<X>, i: nat, k: nat, t: seq<X>): (r: seq<X>)
    requires k > 0 && i <= |s|
    ensures |r| == |t| + |s| - i
    decreases |s| - i
  {
    if i == |s| then t
    else
      var mid, hi := Min(i + k, |s|), Min(i + 2 * k, |s|);
      PassOnto(cmp, s, hi, k, MergeOnto(cmp, s, i, mid, mid, hi, t))
  }

  /** Passes with doubling run length until one merge covers the whole list. */
  function SortFrom<X>(cmp: Comparator<X>, s: seq<X>, k: nat): (r: seq<X>)
    requires k > 0
    ensures |r| == |s|
    decreases |s| - k
  {
    var t := PassOnto(cmp, s, 0, k, []);
    if |s| <= 2 * k then t else SortFrom(cmp, t, 2 * k)
  }

  function Sort<X>(cmp: Comparator<X>, s: seq<X>): (r: seq<X>)
    ensures |r| == |s|
  {
    SortFrom(cmp, s, 1)
  }

  // ---------- what a comparator must satisfy, and what sorting means ----------

  ghost predicate PreorderOn<X>(cmp: Comparator<X>, s: seq<X>) {
    && (forall a, b {:trigger cmp(a, b)} :: a in s && b in s ==> cmp(a, b) <= 0 || cmp(b, a) <= 0)
    && (forall a, b, c {:trigger cmp(a, b), cmp(b, c)} ::
         a in s && b in s && c in s && cmp(a, b) <= 0 && cmp(b, c) <= 0 ==> cmp(a, c) <= 0)
  }

  ghost predicate Sorted<X>(cmp: Comparator<X>, s: seq<X>) {
    forall i, j :: 0 <= i < j < |s| ==> cmp(s[i], s[j]) <= 0
  }

  predicate Equivalent<X>(cmp: Comparator<X>, a: X, b: X) {
    cmp(a, b) <= 0 && cmp(b, a) <= 0
  }

  /** The elements that compare equal to `x`, in the order in which they stand. */
  function Class<X>(cmp: Comparator<X>, x: X, s: seq<X>): seq<X> {
    if |s| == 0 then []
    else (if Equivalent(cmp, s[0], x) then [s[0]] else []) + Class(cmp, x, s[1..])
  }

  /** For example, subtraction compares integers. */
  lemma DifferenceOrders(s: seq<int>)
    ensures PreorderOn((a: int, b: int) => a - b, s)
    ensures Sorted((a: int, b: int) => a - b, s) <==> forall i, j :: 0 <= i < j < |s| ==> s[i] <= s[j]
  {
  }

  // ---------- sequences ----------

  lemma Associative<X>(a: seq<X>, b: seq<X>, c: seq<X>)
    ensures a + b + c == a + (b + c)
  {
  }

  lemma Split<X>(s: seq<X>, mid: nat, hi: nat)
    requires mid <= hi <= |s|
    ensures s == s[..mid] + s[mid..hi] + s[hi..]
  {
  }

  // ---------- permutation ----------

  lemma {:induction false} MergePermutes<X>(cmp: Comparator<X>, xs: seq<X>, ys: seq<X>)
    ensures multiset(Merge(cmp, xs, ys)) == multiset(xs) + multiset(ys)
    decreases |xs| + |ys|
  {
    if |xs| > 0 && |ys| > 0 {
      if cmp(xs[0], ys[0]) <= 0 {
        MergePermutes(cmp, xs[1..], ys);
        assert xs == [xs[0]] + xs[1..];
      } else {
        MergePermutes(cmp, xs, ys[1..]);
        assert ys == [ys[0]] + ys[1..];
      }
    }
  }

  lemma {:induction false} PassPermutes<X>(cmp: Comparator<X>, s: seq<X>, k: nat)
    requires k > 0
    ensures multiset(Pass(cmp, s, k)) == multiset(s)
    decreases |s|
  {
    if |s| > 0 {
      var mid, hi := Min(k, |s|), Min(2 * k, |s|);
      MergePermutes(cmp, s[..mid], s[mid..hi]);
      PassPermutes(cmp, s[hi..], k);
      Split(s, mid, hi);
    }
  }

  lemma {:induction false} SortFromPermutes<X>(cmp: Comparator<X>, s: seq<X>, k: nat)
    requires k > 0
    ensures multiset(SortFrom(cmp, s, k)) == multiset(s)
    decreases |s| - k
  {
    PassPermutes(cmp, s, k);
    PassOntoEmpty(cmp, s, k);
    if |s| > 2 * k {
      SortFromPermutes(cmp, Pass(cmp, s, k), 2 * k);
    }
  }

  /** A rearrangement has the same members and, if the original had none, no repetition. */
  lemma PermutationFacts<X>(s: seq<X>, t: seq<X>)
    requires multiset(s) == multiset(t)
    ensures |s| == |t|
    ensures forall x :: x in s <==> x in t
  {
    assert |s| == |multiset(s)| == |multiset(t)| == |t|;
    forall x ensures x in s <==> x in t {
      assert x in s <==> x in multiset(s);
      assert x in t <==> x in multiset(t);
    }
  }

  // ---------- sortedness ----------

  lemma SortedCons<X>(cmp: Comparator<X>, h: X, s: seq<X>)
    requires Sorted(cmp, s) && forall e :: e in s ==> cmp(h, e) <= 0
    ensures Sorted(cmp, [h] + s)
  {
    var t := [h] + s;
    forall i, j | 0 <= i < j < |t| ensures cmp(t[i], t[j]) <= 0 {
      assert t[j] == s[j - 1];
      if i > 0 {
        assert t[i] == s[i - 1];
      }
    }
  }

  lemma SortedTail<X>(cmp: Comparator<X>, s: seq<X>)
    requires Sorted(cmp, s) && |s| > 0
    ensures Sorted(cmp, s[1..])
  {
    forall i, j | 0 <= i < j < |s[1..]| ensures cmp(s[1..][i], s[1..][j]) <= 0 {
      assert s[1..][i] == s[i + 1] && s[1..][j] == s[j + 1];
    }
  }

  lemma {:induction false} MergeSorted<X>(cmp: Comparator<X>, dom: seq<X>, xs: seq<X>, ys: seq<X>)
    requires PreorderOn(cmp, dom)
    requires (forall e :: e in xs ==> e in dom) && (forall e :: e in ys ==> e in dom)
    requires Sorted(cmp, xs) && Sorted(cmp, ys)
    ensures Sorted(cmp, Merge(cmp, xs, ys))
    decreases |xs| + |ys|
  {
    if |xs| > 0 && |ys| > 0 {
      if cmp(xs[0], ys[0]) <= 0 {
        SortedTail(cmp, xs);
        MergeSorted(cmp, dom, xs[1..], ys);
        LeastOfBoth(cmp, dom, xs, ys, xs[0], xs[1..], ys);
        SortedCons(cmp, xs[0], Merge(cmp, xs[1..], ys));
      } else {
        SortedTail(cmp, ys);
        MergeSorted(cmp, dom, xs, ys[1..]);
        LeastOfBoth(cmp, dom, xs, ys, ys[0], xs, ys[1..]);
        SortedCons(cmp, ys[0], Merge(cmp, xs, ys[1..]));
      }
    }
  }

  /** The head that `Merge` picks is below everything that is left. */
  lemma LeastOfBoth<X>(cmp: Comparator<X>, dom: seq<X>, xs: seq<X>, ys: seq<X>, h: X, xs': seq<X>, ys': seq<X>)
    requires PreorderOn(cmp, dom)
    requires (forall e :: e in xs ==> e in dom) && (forall e :: e in ys ==> e in dom)
    requires Sorted(cmp, xs) && Sorted(cmp, ys) && |xs| > 0 && |ys| > 0
    requires h == if cmp(xs[0], ys[0]) <= 0 then xs[0] else ys[0]
    requires (forall e :: e in xs' ==> e in xs) && (forall e :: e in ys' ==> e in ys)
    ensures forall e :: e in Merge(cmp, xs', ys') ==> cmp(h, e) <= 0
  {
    forall e | e in Merge(cmp, xs', ys') ensures cmp(h, e) <= 0 {
      MergePermutes(cmp, xs', ys');
      assert e in multiset(xs') + multiset(ys');
      assert xs[0] in dom && ys[0] in dom && h in dom && e in dom;
      assert cmp(h, xs[0]) <= 0 && cmp(h, ys[0]) <= 0;
      if e in xs' {
        HeadIsLeast(cmp, dom, xs, e);
      } else {
        HeadIsLeast(cmp, dom, ys, e);
      }
    }
  }

  lemma HeadIsLeast<X>(cmp: Comparator<X>, dom: seq<X>, s: seq<X>, e: X)
    requires PreorderOn(cmp, dom) && (forall d :: d in s ==> d in dom)
    requires Sorted(cmp, s) && e in s
    ensures cmp(s[0], e) <= 0
  {
    var i :| 0 <= i < |s| && s[i] == e;
    assert s[0] in dom && e in dom;
  }

  /** Every aligned block of length `k` is sorted: the state between two passes. */
  ghost predicate RunsSorted<X>(cmp: Comparator<X>, s: seq<X>, k: nat)
    requires k > 0
    decreases |s|
  {
    |s| == 0 || (Sorted(cmp, s[..Min(k, |s|)]) && RunsSorted(cmp, s[Min(k, |s|)..], k))
  }

  lemma {:induction false} SingletonRuns<X>(cmp: Comparator<X>, s: seq<X>)
    ensures RunsSorted(cmp, s, 1)
    decreases |s|
  {
    if |s| > 0 {
      SingletonRuns(cmp, s[1..]);
    }
  }

  lemma {:induction false} PassDoublesRuns<X>(cmp: Comparator<X>, dom: seq<X>, s: seq<X>, k: nat)
    requires k > 0 && PreorderOn(cmp, dom) && (forall e :: e in s ==> e in dom)
    requires RunsSorted(cmp, s, k)
    ensures RunsSorted(cmp, Pass(cmp, s, k), 2 * k)
    decreases |s|
  {
    if |s| > 0 {
      var mid, hi := Min(k, |s|), Min(2 * k, |s|);
      RunsAfterPair(cmp, s, k);
      MergeSorted(cmp, dom, s[..mid], s[mid..hi]);
      PassDoublesRuns(cmp, dom, s[hi..], k);
      var m, t := Merge(cmp, s[..mid], s[mid..hi]), Pass(cmp, s[hi..], k);
      assert Pass(cmp, s, k) == m + t;
      assert (m + t)[..Min(2 * k, |m + t|)] == m && (m + t)[Min(2 * k, |m + t|)..] == t;
    }
  }

  lemma PassMembers<X>(cmp: Comparator<X>, dom: seq<X>, s: seq<X>, k: nat)
    requires k > 0 && forall e :: e in s ==> e in dom
    ensures forall e :: e in Pass(cmp, s, k) ==> e in dom
  {
    PassPermutes(cmp, s, k);
    forall e | e in Pass(cmp, s, k) ensures e in dom {
      assert e in multiset(Pass(cmp, s, k));
      assert e in s;
    }
  }

  lemma SingleRun<X>(cmp: Comparator<X>, s: seq<X>, k: nat)
    requires 0 < k && |s| <= k && RunsSorted(cmp, s, k)
    ensures Sorted(cmp, s)
  {
    if |s| > 0 {
      assert s[..Min(k, |s|)] == s;
    }
  }

  lemma {:induction false} SortFromSorted<X>(cmp: Comparator<X>, dom: seq<X>, s: seq<X>, k: nat)
    requires k > 0 && PreorderOn(cmp, dom) && (forall e :: e in s ==> e in dom)
    requires RunsSorted(cmp, s, k)
    ensures Sorted(cmp, SortFrom(cmp, s, k))
    decreases |s| - k
  {
    var t := Pass(cmp, s, k);
    PassOntoEmpty(cmp, s, k);
    PassDoublesRuns(cmp, dom, s, k);
    if |s| > 2 * k {
      PassMembers(cmp, dom, s, k);
      SortFromSorted(cmp, dom, t, 2 * k);
    } else {
      SingleRun(cmp, t, 2 * k);
    }
  }

  // ---------- stability ----------

  lemma {:induction false} ClassOfConcat<X>(cmp: Comparator<X>, x: X, s: seq<X>, t: seq<X>)
    ensures Class(cmp, x, s + t) == Class(cmp, x, s) + Class(cmp, x, t)
  {
    if |s| == 0 {
      assert s + t == t;
    } else {
      ClassOfConcat(cmp, x, s[1..], t);
      ClassFromLeft(cmp, x, s[0], s[1..], t, s[1..] + t);
      assert s == [s[0]] + s[1..] && s + t == [s[0]] + (s[1..] + t);
    }
  }

  lemma {:induction false} ClassEmpty<X>(cmp: Comparator<X>, x: X, s: seq<X>)
    requires forall e :: e in s ==> !Equivalent(cmp, e, x)
    ensures Class(cmp, x, s) == []
  {
    if |s| > 0 {
      assert s[0] in s;
      ClassEmpty(cmp, x, s[1..]);
    }
  }

  lemma {:induction false} MergeStable<X>(cmp: Comparator<X>, dom: seq<X>, x: X, xs: seq<X>, ys: seq<X>)
    requires PreorderOn(cmp, dom) && x in dom
    requires (forall e :: e in xs ==> e in dom) && (forall e :: e in ys ==> e in dom)
    requires Sorted(cmp, xs)
    ensures Class(cmp, x, Merge(cmp, xs, ys)) == Class(cmp, x, xs) + Class(cmp, x, ys)
    decreases |xs| + |ys|
  {
    if |xs| > 0 && |ys| > 0 {
      if cmp(xs[0], ys[0]) <= 0 {
        MergeStable(cmp, dom, x, xs[1..], ys);
        MergeLeft(cmp, xs, ys);
        ClassFromLeft(cmp, x, xs[0], xs[1..], ys, Merge(cmp, xs[1..], ys));
      } else {
        MergeStable(cmp, dom, x, xs, ys[1..]);
        MergeRight(cmp, xs, ys);
        if Equivalent(cmp, ys[0], x) {
          ClassAbove(cmp, dom, x, xs, ys[0]);
        }
        ClassFromRight(cmp, x, ys[0], xs, ys[1..], Merge(cmp, xs, ys[1..]));
      }
    }
  }

  lemma MergeLeft<X>(cmp: Comparator<X>, xs: seq<X>, ys: seq<X>)
    requires |xs| > 0 && |ys| > 0 && cmp(xs[0], ys[0]) <= 0
    ensures Merge(cmp, xs, ys) == [xs[0]] + Merge(cmp, xs[1..], ys) && xs == [xs[0]] + xs[1..]
  {
  }

  lemma MergeRight<X>(cmp: Comparator<X>, xs: seq<X>, ys: seq<X>)
    requires |xs| > 0 && |ys| > 0 && cmp(xs[0], ys[0]) > 0
    ensures Merge(cmp, xs, ys) == [ys[0]] + Merge(cmp, xs, ys[1..]) && ys == [ys[0]] + ys[1..]
  {
  }

  /** Putting `h` in front keeps the left part first... */
  lemma ClassFromLeft<X>(cmp: Comparator<X>, x: X, h: X, a: seq<X>, b: seq<X>, m: seq<X>)
    requires Class(cmp, x, m) == Class(cmp, x, a) + Class(cmp, x, b)
    ensures Class(cmp, x, [h] + m) == Class(cmp, x, [h] + a) + Class(cmp, x, b)
  {
    ClassCons(cmp, x, h, m);
    ClassCons(cmp, x, h, a);
    Associative(Class(cmp, x, [h]), Class(cmp, x, a), Class(cmp, x, b));
  }

  /** ...and so it does if it comes from the right part, when nothing on the left is in its class. */
  lemma ClassFromRight<X>(cmp: Comparator<X>, x: X, h: X, a: seq<X>, b: seq<X>, m: seq<X>)
    requires Class(cmp, x, m) == Class(cmp, x, a) + Class(cmp, x, b)
    requires Equivalent(cmp, h, x) ==> Class(cmp, x, a) == []
    ensures Class(cmp, x, [h] + m) == Class(cmp, x, a) + Class(cmp, x, [h] + b)
  {
    ClassCons(cmp, x, h, m);
    ClassCons(cmp, x, h, b);
    assert Class(cmp, x, [h]) + Class(cmp, x, a) == Class(cmp, x, a) + Class(cmp, x, [h]);
    Associative(Class(cmp, x, [h]), Class(cmp, x, a), Class(cmp, x, b));
    Associative(Class(cmp, x, a), Class(cmp, x, [h]), Class(cmp, x, b));
  }

  lemma ClassCons<X>(cmp: Comparator<X>, x: X, h: X, t: seq<X>)
    ensures Class(cmp, x, [h] + t) == Class(cmp, x, [h]) + Class(cmp, x, t)
    ensures Class(cmp, x, [h]) == if Equivalent(cmp, h, x) then [h] else []
  {
    assert ([h] + t)[1..] == t;
    assert Class(cmp, x, [h][1..]) == [];
  }

  /** Nothing in a sorted run is equivalent to `x` if its head compares above something that is. */
  lemma ClassAbove<X>(cmp: Comparator<X>, dom: seq<X>, x: X, xs: seq<X>, y: X)
    requires PreorderOn(cmp, dom) && x in dom && y in dom && forall e :: e in xs ==> e in dom
    requires Sorted(cmp, xs) && |xs| > 0 && cmp(xs[0], y) > 0 && Equivalent(cmp, y, x)
    ensures Class(cmp, x, xs) == []
  {
    assert xs[0] in dom;
    forall e | e in xs ensures !Equivalent(cmp, e, x) {
      HeadIsLeast(cmp, dom, xs, e);
    }
    ClassEmpty(cmp, x, xs);
  }

  lemma {:induction false} PassStable<X>(cmp: Comparator<X>, dom: seq<X>, x: X, s: seq<X>, k: nat)
    requires k > 0 && PreorderOn(cmp, dom) && x in dom && (forall e :: e in s ==> e in dom)
    requires RunsSorted(cmp, s, k)
    ensures Class(cmp, x, Pass(cmp, s, k)) == Class(cmp, x, s)
    decreases |s|
  {
    if |s| > 0 {
      var mid, hi := Min(k, |s|), Min(2 * k, |s|);
      RunsAfterPair(cmp, s, k);
      MergeStable(cmp, dom, x, s[..mid], s[mid..hi]);
      PassStable(cmp, dom, x, s[hi..], k);
      ClassOfThree(cmp, x, s, mid, hi);
      ClassOfConcat(cmp, x, Merge(cmp, s[..mid], s[mid..hi]), Pass(cmp, s[hi..], k));
    }
  }

  lemma RunsAfterPair<X>(cmp: Comparator<X>, s: seq<X>, k: nat)
    requires k > 0 && |s| > 0 && Whole(RunsSorted(cmp, s, k))
    ensures var mid, hi := Min(k, |s|), Min(2 * k, |s|);
            Whole(Sorted(cmp, s[..mid])) && Whole(Sorted(cmp, s[mid..hi])) && Whole(RunsSorted(cmp, s[hi..], k))
  {
    var mid, hi := Min(k, |s|), Min(2 * k, |s|);
    RunsAfterRun(cmp, s, k, mid);
    SliceOfTail(s, mid, hi);
    var tail := s[mid..];
    SecondRun(cmp, tail, tail[..hi - mid], tail[hi - mid..], k);
  }

  /** The first run of `tail`, empty if that is, and the rest. */
  lemma SecondRun<X>(cmp: Comparator<X>, tail: seq<X>, run: seq<X>, rest: seq<X>, k: nat)
    requires k > 0 && Whole(RunsSorted(cmp, tail, k))
    requires |run| == Min(k, |tail|) && run == tail[..|run|] && rest == tail[|run|..]
    ensures Whole(Sorted(cmp, run)) && Whole(RunsSorted(cmp, rest, k))
  {
    if tail != [] {
      RunsAfterRun(cmp, tail, k, |run|);
    }
  }

  lemma RunsAfterRun<X>(cmp: Comparator<X>, s: seq<X>, k: nat, m: nat)
    requires k > 0 && |s| > 0 && m == Min(k, |s|) && Whole(RunsSorted(cmp, s, k))
    ensures Whole(Sorted(cmp, s[..m])) && Whole(RunsSorted(cmp, s[m..], k))
  {
  }

  lemma SliceOfTail<X>(s: seq<X>, mid: nat, hi: nat)
    requires mid <= hi <= |s|
    ensures s[mid..][..hi - mid] == s[mid..hi] && s[mid..][hi - mid..] == s[hi..]
  {
  }

  lemma ClassOfThree<X>(cmp: Comparator<X>, x: X, s: seq<X>, mid: nat, hi: nat)
    requires mid <= hi <= |s|
    ensures Class(cmp, x, s) == Class(cmp, x, s[..mid]) + Class(cmp, x, s[mid..hi]) + Class(cmp, x, s[hi..])
  {
    Split(s, mid, hi);
    ClassOfConcat(cmp, x, s[..mid], s[mid..hi]);
    ClassOfConcat(cmp, x, s[..mid] + s[mid..hi], s[hi..]);
  }

  lemma {:induction false} SortFromStable<X>(cmp: Comparator<X>, dom: seq<X>, x: X, s: seq<X>, k: nat)
    requires k > 0 && PreorderOn(cmp, dom) && x in dom && (forall e :: e in s ==> e in dom)
    requires RunsSorted(cmp, s, k)
    ensures Class(cmp, x, SortFrom(cmp, s, k)) == Class(cmp, x, s)
    decreases |s| - k
  {
    var t := Pass(cmp, s, k);
    PassOntoEmpty(cmp, s, k);
    PassStable(cmp, dom, x, s, k);
    if |s| > 2 * k {
      PassDoublesRuns(cmp, dom, s, k);
      PassMembers(cmp, dom, s, k);
      SortFromStable(cmp, dom, x, t, 2 * k);
    }
  }

  // ---------- the theorem every in-place sort inherits ----------

  /** For any comparator the result is a rearrangement; for a total preorder it is sorted, and
      elements that compare equal keep their order. */
  lemma SortIsStableSort<X>(cmp: Comparator<X>, s: seq<X>)
    ensures multiset(Sort(cmp, s)) == multiset(s)
    ensures PreorderOn(cmp, s) ==> Sorted(cmp, Sort(cmp, s))
    ensures PreorderOn(cmp, s) ==> forall x :: x in s ==> Class(cmp, x, Sort(cmp, s)) == Class(cmp, x, s)
  {
    SortFromPermutes(cmp, s, 1);
    SingletonRuns(cmp, s);
    if PreorderOn(cmp, s) {
      SortFromSorted(cmp, s, s, 1);
      forall x | x in s ensures Class(cmp, x, Sort(cmp, s)) == Class(cmp, x, s) {
        SortFromStable(cmp, s, x, s, 1);
      }
    }
  }

  /** Sorted order and the order inside each class leave no freedom: any sorted rearrangement
      that keeps equal elements in order is the one the sort produces. */
  lemma {:induction false} StableSortUnique<X>(cmp: Comparator<X>, dom: seq<X>, s: seq<X>, t: seq<X>)
    requires PreorderOn(cmp, dom) && (forall e :: e in s ==> e in dom) && (forall e :: e in t ==> e in dom)
    requires Sorted(cmp, s) && Sorted(cmp, t)
    requires multiset(s) == multiset(t)
    requires forall x :: x in dom ==> Class(cmp, x, s) == Class(cmp, x, t)
    ensures s == t
    decreases |s|
  {
    PermutationFacts(s, t);
    if |s| > 0 {
      SameHead(cmp, dom, s, t);
      TailsAgree(cmp, dom, s, t);
      SortedTail(cmp, s);
      SortedTail(cmp, t);
      StableSortUnique(cmp, dom, s[1..], t[1..]);
    }
  }

  lemma TailsAgree<X>(cmp: Comparator<X>, dom: seq<X>, s: seq<X>, t: seq<X>)
    requires |s| > 0 && |t| > 0 && s[0] == t[0] && multiset(s) == multiset(t)
    requires forall x :: x in dom ==> Class(cmp, x, s) == Class(cmp, x, t)
    ensures multiset(s[1..]) == multiset(t[1..])
    ensures forall x :: x in dom ==> Class(cmp, x, s[1..]) == Class(cmp, x, t[1..])
  {
    BagOfTail(s);
    BagOfTail(t);
    forall x | x in dom ensures Class(cmp, x, s[1..]) == Class(cmp, x, t[1..]) {
      ClassTail(cmp, x, s, t);
    }
  }

  lemma BagOfTail<X>(s: seq<X>)
    requires |s| > 0
    ensures multiset(s[1..]) == multiset(s) - multiset{s[0]}
  {
    assert s == [s[0]] + s[1..];
  }

  lemma ClassTail<X>(cmp: Comparator<X>, x: X, s: seq<X>, t: seq<X>)
    requires |s| > 0 && |t| > 0 && s[0] == t[0] && Class(cmp, x, s) == Class(cmp, x, t)
    ensures Class(cmp, x, s[1..]) == Class(cmp, x, t[1..])
  {
    var skip := if Equivalent(cmp, s[0], x) then 1 else 0;
    assert Class(cmp, x, s)[skip..] == Class(cmp, x, s[1..]);
    assert Class(cmp, x, t)[skip..] == Class(cmp, x, t[1..]);
  }

  lemma SameHead<X>(cmp: Comparator<X>, dom: seq<X>, s: seq<X>, t: seq<X>)
    requires PreorderOn(cmp, dom) && (forall e :: e in s ==> e in dom) && (forall e :: e in t ==> e in dom)
    requires Sorted(cmp, s) && Sorted(cmp, t) && |s| > 0 && |t| > 0
    requires s[0] in t && t[0] in s
    requires forall x :: x in dom ==> Class(cmp, x, s) == Class(cmp, x, t)
    ensures s[0] == t[0]
  {
    var a, b := s[0], t[0];
    assert a in dom && b in dom;
    HeadIsLeast(cmp, dom, s, b);
    HeadIsLeast(cmp, dom, t, a);
    assert cmp(a, a) <= 0;
    assert Equivalent(cmp, a, a) && Equivalent(cmp, b, a);
    assert Class(cmp, a, s)[0] == a && Class(cmp, a, t)[0] == b;
  }

  // ---------- the loops' view of a pass agrees with the recursive one ----------

  lemma PassOntoStep<X>(cmp: Comparator<X>, s: seq<X>, i: nat, k: nat, t: seq<X>, mid: nat, hi: nat)
    requires k > 0 && i < |s| && mid == Min(i + k, |s|) && hi == Min(i + 2 * k, |s|)
    ensures PassOnto(cmp, s, i, k, t) == PassOnto(cmp, s, hi, k, MergeOnto(cmp, s, i, mid, mid, hi, t))
  {
  }

  lemma {:induction false} MergeOntoMerges<X>(cmp: Comparator<X>, s: seq<X>, i: nat, mid: nat, j: nat, hi: nat,
                                             t: seq<X>)
    requires i <= mid <= j <= hi <= |s|
    ensures MergeOnto(cmp, s, i, mid, j, hi, t) == t + Merge(cmp, s[i..mid], s[j..hi])
    decreases mid - i + hi - j
  {
    var xs, ys := s[i..mid], s[j..hi];
    if i == mid && j == hi {
    } else if i == mid || (j < hi && cmp(s[i], s[j]) > 0) {
      MergeOntoMerges(cmp, s, i, mid, j + 1, hi, t + [s[j]]);
      assert ys[0] == s[j] && ys[1..] == s[j + 1..hi];
      TakeHead(cmp, xs, ys, t);
    } else {
      MergeOntoMerges(cmp, s, i + 1, mid, j, hi, t + [s[i]]);
      assert xs[0] == s[i] && xs[1..] == s[i + 1..mid];
      TakeHead(cmp, xs, ys, t);
    }
  }

  lemma TakeHead<X>(cmp: Comparator<X>, xs: seq<X>, ys: seq<X>, t: seq<X>)
    requires |xs| > 0 || |ys| > 0
    ensures if |xs| == 0 || (|ys| > 0 && cmp(xs[0], ys[0]) > 0)
            then t + Merge(cmp, xs, ys) == t + [ys[0]] + Merge(cmp, xs, ys[1..])
            else t + Merge(cmp, xs, ys) == t + [xs[0]] + Merge(cmp, xs[1..], ys)
  {
    if |xs| == 0 {
      assert ys == [ys[0]] + ys[1..];
      Associative(t, [ys[0]], Merge(cmp, xs, ys[1..]));
    } else if |ys| == 0 {
      assert xs == [xs[0]] + xs[1..];
      Associative(t, [xs[0]], Merge(cmp, xs[1..], ys));
    } else if cmp(xs[0], ys[0]) <= 0 {
      MergeLeft(cmp, xs, ys);
      Associative(t, [xs[0]], Merge(cmp, xs[1..], ys));
    } else {
      MergeRight(cmp, xs, ys);
      Associative(t, [ys[0]], Merge(cmp, xs, ys[1..]));
    }
  }

  lemma PassStep<X>(cmp: Comparator<X>, s: seq<X>, i: nat, k: nat, mid: nat, hi: nat)
    requires k > 0 && i < |s| && mid == Min(i + k, |s|) && hi == Min(i + 2 * k, |s|)
    ensures Pass(cmp, s[i..], k) == Merge(cmp, s[i..mid], s[mid..hi]) + Pass(cmp, s[hi..], k)
  {
    var r := s[i..];
    assert r[..Min(k, |r|)] == s[i..mid];
    assert r[Min(k, |r|)..Min(2 * k, |r|)] == s[mid..hi];
    assert r[Min(2 * k, |r|)..] == s[hi..];
  }

  lemma {:induction false} PassOntoPasses<X>(cmp: Comparator<X>, s: seq<X>, i: nat, k: nat, t: seq<X>)
    requires k > 0 && i <= |s|
    ensures PassOnto(cmp, s, i, k, t) == t + Pass(cmp, s[i..], k)
    decreases |s| - i
  {
    if i < |s| {
      var mid, hi := Min(i + k, |s|), Min(i + 2 * k, |s|);
      var t' := MergeOnto(cmp, s, i, mid, mid, hi, t);
      PassOntoPasses(cmp, s, hi, k, t');
      MergeOntoMerges(cmp, s, i, mid, mid, hi, t);
      PassStep(cmp, s, i, k, mid, hi);
      PassOntoStep(cmp, s, i, k, t, mid, hi);
      Associative(t, Merge(cmp, s[i..mid], s[mid..hi]), Pass(cmp, s[hi..], k));
    }
  }

  lemma PassOntoEmpty<X>(cmp: Comparator<X>, s: seq<X>, k: nat)
    requires k > 0
    ensures PassOnto(cmp, s, 0, k, []) == Pass(cmp, s, k)
  {
    PassOntoPasses(cmp, s, 0, k, []);
    assert s[0..] == s;
  }

  // ---------- inserting into a sorted list ----------

  function InsertAt<X>(s: seq<X>, k: nat, e: X): (r: seq<X>)
    requires k <= |s|
    ensures |r| == |s| + 1
    ensures forall i {:trigger r[i]} :: 0 <= i < |r| ==> r[i] == if i < k then s[i] else if i == k then e else s[i - 1]
  {
    s[..k] + [e] + s[k..]
  }

  lemma InsertSorted<X>(cmp: Comparator<X>, s: seq<X>, k: nat, e: X)
    requires Sorted(cmp, s) && k <= |s|
    requires forall i :: 0 <= i < k ==> cmp(s[i], e) <= 0
    requires forall i :: k <= i < |s| ==> cmp(e, s[i]) <= 0
    ensures Sorted(cmp, InsertAt(s, k, e))
  {
    var r := InsertAt(s, k, e);
    forall i, j | 0 <= i < j < |r| ensures cmp(r[i], r[j]) <= 0 {
      var a, b := r[i], r[j];
    }
  }
}
