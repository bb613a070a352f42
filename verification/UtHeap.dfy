/** utheap: a binary heap in a growable array. */
module UtHeap {
  import opened UtArray

  /** `less(a, b)`: the heap keeps a least element at index 0. */
  type Less<!T> = (T, T) -> bool

  ghost predicate StrictWeakOrder<T(!new)>(less: Less<T>) {
    && (forall a, b {:trigger less(a, b)} :: less(a, b) ==> !less(b, a))
    && (forall a, b, c {:trigger less(a, b), less(b, c)} :: !less(a, b) && !less(b, c) ==> !less(a, c))
  }

  function Parent(k: int): int { (k - 1) / 2 }

  ghost predicate InOrder<T>(less: Less<T>, s: seq<T>, k: int)
    requires 1 <= k < |s|
  {
    !less(s[k], s[Parent(k)])
  }

  ghost predicate HeapOrdered<T>(less: Less<T>, s: seq<T>) {
    forall k :: 1 <= k < |s| ==> InOrder(less, s, k)
  }

  /** The children of `x`, if any, are in order with the parent of `x`. */
  ghost predicate Bridged<T>(less: Less<T>, s: seq<T>, x: int) {
    forall k :: 1 <= k < |s| && Parent(k) == x && 1 <= x < |s| ==> !less(s[k], s[Parent(x)])
  }

  /** Only the element at `x` may be out of order with its parent. */
  ghost predicate UpReady<T>(less: Less<T>, s: seq<T>, x: int) {
    (forall k :: 1 <= k < |s| && k != x ==> InOrder(less, s, k)) && Bridged(less, s, x)
  }

  /** Only the children of `x` may be out of order with it. */
  ghost predicate DownReady<T>(less: Less<T>, s: seq<T>, x: int) {
    (forall k :: 1 <= k < |s| && Parent(k) != x ==> InOrder(less, s, k)) && Bridged(less, s, x)
  }

  /** For example, `<` on integers. */
  lemma LessOrders()
    ensures StrictWeakOrder((a: int, b: int) => a < b)
  {
  }

  lemma SwapPermutes<T>(s: seq<T>, j: nat, k: nat)
    requires j < |s| && k < |s|
    ensures multiset(Swapped(s, j, k)) == multiset(s)
  {
  }

  lemma UpSwap<T(!new)>(less: Less<T>, s: seq<T>, x: int)
    requires StrictWeakOrder(less) && UpReady(less, s, x) && 1 <= x < |s| && !less(s[Parent(x)], s[x])
    ensures UpReady(less, Swapped(s, x, Parent(x)), Parent(x))
  {
    var y := Parent(x);
    var t := Swapped(s, x, y);
    forall k | 1 <= k < |t| && k != y ensures InOrder(less, t, k) {
      if k == x {
      } else if Parent(k) == x {
        assert !less(s[k], s[y]);
      } else if Parent(k) == y {
        assert InOrder(less, s, k);
      } else {
        assert InOrder(less, s, k);
      }
    }
    forall k | 1 <= k < |t| && Parent(k) == y && 1 <= y ensures !less(t[k], t[Parent(y)]) {
      assert InOrder(less, s, y);
      assert k != x ==> InOrder(less, s, k);
    }
  }

  /** `c` is `x`, or a child of `x` that is less than it, and no child of `x` is less than `c`. */
  ghost predicate Chosen<T>(less: Less<T>, s: seq<T>, x: int, c: int) {
    && 0 <= x < |s|
    && (c == x || (x < c < |s| && Parent(c) == x && less(s[c], s[x])))
    && forall k :: 1 <= k < |s| && Parent(k) == x ==> !less(s[k], s[c])
  }

  lemma DownSwap<T(!new)>(less: Less<T>, s: seq<T>, x: int, c: int)
    requires StrictWeakOrder(less) && DownReady(less, s, x) && c != x && Chosen(less, s, x, c)
    ensures DownReady(less, Swapped(s, x, c), c)
  {
    var t := Swapped(s, x, c);
    forall k | 1 <= k < |t| && Parent(k) != c ensures InOrder(less, t, k) {
      if k == c {
      } else if Parent(k) == x {
      } else if k == x {
        assert !less(s[c], s[Parent(x)]);
      } else {
        assert InOrder(less, s, k);
      }
    }
    forall k | 1 <= k < |t| && Parent(k) == c ensures !less(t[k], t[x]) {
      assert InOrder(less, s, k);
    }
  }

  /** The root of a heap is least. */
  lemma {:induction false} RootIsLeast<T(!new)>(less: Less<T>, s: seq<T>, k: int)
    requires StrictWeakOrder(less) && HeapOrdered(less, s) && 0 <= k < |s|
    ensures !less(s[k], s[0])
  {
    if k > 0 {
      RootIsLeast(less, s, Parent(k));
      assert InOrder(less, s, k);
    }
  }

  /** _utheap_heapify_up. */
  method HeapifyUp<T(!new)>(a: Vec<T>, index: nat, less: Less<T>)
    requires a.Valid() && index < a.i && StrictWeakOrder(less) && UpReady(less, a.Contents(), index)
    modifies a.d
    ensures a.Valid() && a.i == old(a.i) && HeapOrdered(less, a.Contents())
    ensures multiset(a.Contents()) == multiset(old(a.Contents()))
  {
    var idx := index;
    while idx > 0
      invariant 0 <= idx < a.i && UpReady(less, a.Contents(), idx)
      invariant multiset(a.Contents()) == multiset(old(a.Contents()))
    {
      var parentIndex := (idx - 1) / 2;
      ghost var s := a.Contents();
      assert s[idx] == a.d[idx] && s[parentIndex] == a.d[parentIndex];
      if less(a.d[parentIndex], a.d[idx]) {
        assert InOrder(less, s, idx);
        break;
      }
      UpSwap(less, s, idx);
      SwapPermutes(s, idx, parentIndex);
      a.Swap(idx, parentIndex);
      idx := parentIndex;
    }
  }

  method Push<T(!new)>(a: Vec<T>, val: T, less: Less<T>)
    requires a.Valid() && StrictWeakOrder(less) && HeapOrdered(less, a.Contents())
    modifies a, a.d
    ensures a.Valid() && (a.d == old(a.d) || fresh(a.d))
    ensures HeapOrdered(less, a.Contents()) && multiset(a.Contents()) == multiset(old(a.Contents())) + multiset{val}
  {
    ghost var s := a.Contents();
    a.PushBack(val);
    forall k | 1 <= k < |s| ensures InOrder(less, s + [val], k) {
      assert InOrder(less, s, k);
    }
    HeapifyUp(a, a.i - 1, less);
  }

  // ---------- sifting down ----------

  /** The choice of one round: the element, its left child if that is less, its right child if that
      is less than the better of the two. */
  function Pick<T>(less: Less<T>, s: seq<T>, x: nat): (c: nat)
    ensures c == x || x < c < |s|
  {
    var l, r := 2 * x + 1, 2 * x + 2;
    var m := if l < |s| && less(s[l], s[x]) then l else x;
    if r < |s| && less(s[r], s[m]) then r else m
  }

  /** The sift as it runs: swap with the pick until the element stays. */
  function SiftDown<T>(less: Less<T>, s: seq<T>, x: nat): (t: seq<T>)
    ensures |t| == |s|
    decreases |s| - x
  {
    var c := Pick(less, s, x);
    if c == x then s else SiftDown(less, Swapped(s, x, c), c)
  }

  lemma PickIsChosen<T(!new)>(less: Less<T>, s: seq<T>, x: nat)
    requires StrictWeakOrder(less) && x < |s|
    ensures Chosen(less, s, x, Pick(less, s, x))
  {
    var c := Pick(less, s, x);
    forall k | 1 <= k < |s| && Parent(k) == x ensures !less(s[k], s[c]) {
      assert k == 2 * x + 1 || k == 2 * x + 2;
      assert !less(s[c], s[c]);
    }
  }

  lemma {:induction false} SiftDownPermutes<T>(less: Less<T>, s: seq<T>, x: nat)
    ensures multiset(SiftDown(less, s, x)) == multiset(s)
    decreases |s| - x
  {
    var c := Pick(less, s, x);
    if c != x {
      SwapPermutes(s, x, c);
      SiftDownPermutes(less, Swapped(s, x, c), c);
    }
  }

  /** If only the children of `x` may be out of order with it, the sift restores the heap. */
  lemma {:induction false} SiftDownOrders<T(!new)>(less: Less<T>, s: seq<T>, x: nat)
    requires StrictWeakOrder(less) && DownReady(less, s, x)
    ensures HeapOrdered(less, SiftDown(less, s, x))
    decreases |s| - x
  {
    if x < |s| {
      PickIsChosen(less, s, x);
      var c := Pick(less, s, x);
      if c != x {
        DownSwap(less, s, x, c);
        SiftDownOrders(less, Swapped(s, x, c), c);
      }
    }
  }

  ghost predicate SiftsTo<T>(less: Less<T>, s: seq<T>, x: nat, goal: seq<T>) {
    SiftDown(less, s, x) == goal
  }

  lemma SiftDownStep<T>(less: Less<T>, s: seq<T>, x: nat, c: nat, goal: seq<T>)
    requires SiftsTo(less, s, x, goal) && c == Pick(less, s, x)
    ensures if c == x then s == goal else SiftsTo(less, Swapped(s, x, c), c, goal)
  {
  }

  /** _utheap_heapify_down, whose own index counts from 1. */
  method HeapifyDown<T(!new)>(a: Vec<T>, index: nat, less: Less<T>)
    requires a.Valid()
    modifies a.d
    ensures a.Valid() && a.i == old(a.i)
    ensures a.Contents() == SiftDown(less, old(a.Contents()), index)
  {
    var idx := index + 1;
    ghost var s, x, goal := a.Contents(), index, SiftDown(less, a.Contents(), index);
    while true
      invariant idx == x + 1 && a.Contents() == s && SiftsTo(less, s, x, goal)
      decreases a.i - idx
    {
      var largest := Choose(a, idx, less);
      ghost var c := largest - 1;
      SiftDownStep(less, s, x, c, goal);
      if largest == idx {
        break;
      }
      a.Swap(idx - 1, largest - 1);
      idx, s, x := largest, Swapped(s, x, c), c;
    }
  }

  /** The comparisons of one round, with indices from 1. */
  method Choose<T(!new)>(a: Vec<T>, idx: nat, less: Less<T>) returns (largest: nat)
    requires a.Valid() && idx > 0
    ensures largest > 0 && largest - 1 == Pick(less, a.Contents(), idx - 1)
  {
    var left, right := 2 * idx, 2 * idx + 1;
    largest := idx;
    if left <= a.i && less(a.d[left - 1], a.d[largest - 1]) {
      largest := left;
    }
    if right <= a.i && less(a.d[right - 1], a.d[largest - 1]) {
      largest := right;
    }
  }

  // ---------- taking out ----------

  /** The array just before the sift of an erase: the last element in the place of the erased one. */
  function Moved<T>(s: seq<T>, idx: nat): (r: seq<T>)
    requires idx < |s|
    ensures |r| == |s| - 1
  {
    Swapped(s, idx, |s| - 1)[..|s| - 1]
  }

  lemma MovedPermutes<T>(s: seq<T>, idx: nat)
    requires idx < |s|
    ensures multiset(Moved(s, idx)) + multiset{s[idx]} == multiset(s)
  {
    var t := Swapped(s, idx, |s| - 1);
    SwapPermutes(s, idx, |s| - 1);
    assert t == Moved(s, idx) + [s[idx]];
  }

  lemma MovedReady<T(!new)>(less: Less<T>, s: seq<T>, idx: nat)
    requires StrictWeakOrder(less) && HeapOrdered(less, s) && idx < |s|
    requires idx == 0 || idx == |s| - 1 || !less(s[|s| - 1], s[Parent(idx)])
    ensures DownReady(less, Moved(s, idx), idx)
  {
    var r := Moved(s, idx);
    forall k | 1 <= k < |r| && Parent(k) != idx ensures InOrder(less, r, k) {
      assert InOrder(less, s, k);
    }
    forall k | 1 <= k < |r| && Parent(k) == idx && 1 <= idx ensures !less(r[k], r[Parent(idx)]) {
      assert InOrder(less, s, k) && InOrder(less, s, idx);
    }
  }

  /** An element that is less than the parent of the hole is less than everything below the hole, so
      the sift leaves it there, out of order. */
  lemma MovedStuck<T(!new)>(less: Less<T>, s: seq<T>, idx: nat)
    requires StrictWeakOrder(less) && HeapOrdered(less, s) && 0 < idx < |s| - 1
    requires less(s[|s| - 1], s[Parent(idx)])
    ensures !HeapOrdered(less, SiftDown(less, Moved(s, idx), idx))
  {
    var r := Moved(s, idx);
    var p := s[Parent(idx)];
    assert InOrder(less, s, idx) && !less(p, r[idx]);
    forall c | 1 <= c < |r| && Parent(c) == idx ensures !less(r[c], r[idx]) {
      assert InOrder(less, s, c) && !less(s[c], p);
    }
    assert !less(r[idx], r[idx]);
    assert Pick(less, r, idx) == idx by {
      assert Parent(2 * idx + 1) == idx && Parent(2 * idx + 2) == idx;
    }
    assert SiftDown(less, r, idx) == r;
    assert !InOrder(less, r, idx);
  }

  /** utheap_erase: the multiset loses exactly the erased element, at any valid index. The heap order
      survives if and only if the element moved into the hole is not less than the hole's parent. */
  method Erase<T(!new)>(a: Vec<T>, idx: nat, less: Less<T>)
    requires a.Valid() && StrictWeakOrder(less) && HeapOrdered(less, a.Contents()) && (a.i > 0 ==> idx < a.i)
    modifies a, a.d
    ensures a.Valid() && (a.d == old(a.d) || fresh(a.d))
    ensures var s := old(a.Contents());
            if |s| == 0 then a.Contents() == s
            else multiset(a.Contents()) + multiset{s[idx]} == multiset(s)
                 && (HeapOrdered(less, a.Contents()) <==>
                       idx == 0 || idx == |s| - 1 || !less(s[|s| - 1], s[Parent(idx)]))
  {
    if a.i > 0 {
      ghost var s := a.Contents();
      a.Swap(idx, a.i - 1);
      a.Resize(a.i - 1);
      assert a.Contents() == Moved(s, idx);
      if a.i > 0 {
        HeapifyDown(a, idx, less);
      }
      ErasedOrder(less, s, idx);
    }
  }

  lemma ErasedOrder<T(!new)>(less: Less<T>, s: seq<T>, idx: nat)
    requires StrictWeakOrder(less) && HeapOrdered(less, s) && idx < |s|
    ensures var t := SiftDown(less, Moved(s, idx), idx);
            multiset(t) + multiset{s[idx]} == multiset(s)
            && (HeapOrdered(less, t) <==> idx == 0 || idx == |s| - 1 || !less(s[|s| - 1], s[Parent(idx)]))
  {
    MovedPermutes(s, idx);
    SiftDownPermutes(less, Moved(s, idx), idx);
    if idx == 0 || idx == |s| - 1 || !less(s[|s| - 1], s[Parent(idx)]) {
      MovedReady(less, s, idx);
      SiftDownOrders(less, Moved(s, idx), idx);
    } else {
      MovedStuck(less, s, idx);
    }
  }

  /** utheap_pop. */
  method Pop<T(!new)>(a: Vec<T>, less: Less<T>)
    requires a.Valid() && StrictWeakOrder(less) && HeapOrdered(less, a.Contents())
    modifies a, a.d
    ensures a.Valid() && (a.d == old(a.d) || fresh(a.d)) && HeapOrdered(less, a.Contents())
    ensures var s := old(a.Contents());
            if |s| == 0 then a.Contents() == s else multiset(a.Contents()) + multiset{s[0]} == multiset(s)
  {
    Erase(a, 0, less);
  }

  // ---------- whole runs ----------

  datatype Op<T> = Put(value: T) | Take

  datatype Option<T> = None | Some(value: T)

  /** `Put` adds to the bag; `Take` gives a least element of the bag and removes it. */
  ghost predicate Served<T(!new)>(less: Less<T>, bag: multiset<T>, op: Op<T>, out: Option<T>, bag': multiset<T>) {
    match op
    case Put(x) => out.None? && bag' == bag + multiset{x}
    case Take =>
      if |bag| == 0 then out.None? && bag' == bag
      else out.Some? && out.value in bag && bag' == bag - multiset{out.value}
           && forall y :: y in bag ==> !less(y, out.value)
  }

  /** Any run of pushes and pops is a run of a priority queue. */
  method Run<T(!new)>(a: Vec<T>, ops: seq<Op<T>>, less: Less<T>)
    returns (outs: seq<Option<T>>, ghost bags: seq<multiset<T>>)
    requires a.Valid() && StrictWeakOrder(less) && HeapOrdered(less, a.Contents())
    modifies a, a.d
    ensures a.Valid() && (a.d == old(a.d) || fresh(a.d)) && HeapOrdered(less, a.Contents())
    ensures |outs| == |ops| && |bags| == |ops| + 1
    ensures bags[0] == multiset(old(a.Contents())) && bags[|ops|] == multiset(a.Contents())
    ensures forall i :: 0 <= i < |ops| ==> Served(less, bags[i], ops[i], outs[i], bags[i + 1])
  {
    outs, bags := [], [multiset(a.Contents())];
    while |outs| < |ops|
      invariant a.Valid() && (a.d == old(a.d) || fresh(a.d)) && HeapOrdered(less, a.Contents())
      invariant |outs| <= |ops| && |bags| == |outs| + 1
      invariant bags[0] == multiset(old(a.Contents())) && bags[|outs|] == multiset(a.Contents())
      invariant forall i :: 0 <= i < |outs| ==> Served(less, bags[i], ops[i], outs[i], bags[i + 1])
    {
      var out := Serve(a, ops[|outs|], less);
      outs := outs + [out];
      bags := bags + [multiset(a.Contents())];
    }
  }

  /** One operation; taking from an empty heap does nothing. */
  method Serve<T(!new)>(a: Vec<T>, op: Op<T>, less: Less<T>) returns (out: Option<T>)
    requires a.Valid() && StrictWeakOrder(less) && HeapOrdered(less, a.Contents())
    modifies a, a.d
    ensures a.Valid() && (a.d == old(a.d) || fresh(a.d)) && HeapOrdered(less, a.Contents())
    ensures Served(less, multiset(old(a.Contents())), op, out, multiset(a.Contents()))
  {
    ghost var s := a.Contents();
    assert |multiset(s)| == |s|;
    match op
    case Put(x) =>
      Push(a, x, less);
      out := None;
    case Take =>
      if a.i == 0 {
        out := None;
      } else {
        LeastFirst(less, s);
        out := Some(a.d[0]);
        Pop(a, less);
      }
  }

  lemma LeastFirst<T(!new)>(less: Less<T>, s: seq<T>)
    requires StrictWeakOrder(less) && HeapOrdered(less, s) && |s| > 0
    ensures s[0] in multiset(s) && forall y :: y in multiset(s) ==> !less(y, s[0])
  {
    forall y | y in multiset(s) ensures !less(y, s[0]) {
      assert y in s;
      var k :| 0 <= k < |s| && s[k] == y;
      RootIsLeast(less, s, k);
    }
  }

  ghost predicate Ascending<T>(less: Less<T>, s: seq<T>) {
    forall j, k :: 0 <= j < k < |s| ==> !less(s[k], s[j])
  }

  /** Reading index 0 and popping until the heap is empty yields what was in it, in order. */
  method Drain<T(!new)>(a: Vec<T>, less: Less<T>) returns (out: seq<T>)
    requires a.Valid() && StrictWeakOrder(less) && HeapOrdered(less, a.Contents())
    modifies a, a.d
    ensures multiset(out) == multiset(old(a.Contents())) && Ascending(less, out)
  {
    out := [];
    while a.i > 0
      invariant a.Valid() && (a.d == old(a.d) || fresh(a.d)) && HeapOrdered(less, a.Contents())
      invariant multiset(out) + multiset(a.Contents()) == multiset(old(a.Contents()))
      invariant Ascending(less, out)
      invariant forall x, y :: x in out && y in a.Contents() ==> !less(y, x)
      decreases a.i
    {
      ghost var s := a.Contents();
      var top := a.d[0];
      forall y | y in s ensures !less(y, top) {
        var k :| 0 <= k < |s| && s[k] == y;
        RootIsLeast(less, s, k);
      }
      Pop(a, less);
      DrainStep(less, s, a.Contents(), out, top);
      out := out + [top];
    }
  }

  lemma DrainStep<T>(less: Less<T>, s: seq<T>, t: seq<T>, out: seq<T>, top: T)
    requires |s| > 0 && s[0] == top && multiset(t) + multiset{top} == multiset(s)
    requires Ascending(less, out) && forall x, y :: x in out && y in s ==> !less(y, x)
    requires forall y :: y in s ==> !less(y, top)
    ensures |t| < |s| && Ascending(less, out + [top])
    ensures forall x, y :: x in out + [top] && y in t ==> !less(y, x)
    ensures multiset(out + [top]) + multiset(t) == multiset(out) + multiset(s)
  {
    assert |multiset(t) + multiset{top}| == |t| + 1 && |multiset(s)| == |s|;
    forall y | y in t ensures y in s {
      assert y in multiset(t) && y in multiset(s);
    }
    assert top in s;
  }
}
