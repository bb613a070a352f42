/** precision_sampler: order statistics from a compressed histogram. */
module Sampler {
  import opened Bits
  import opened Counters
  import opened OrderedMap

  type Bucket = Item<nat>

  datatype Option<T> = None | Some(value: T)

  // ---------- the specification: sorted samples ----------

  /** `x` put before everything that is not below it. */
  function Ins(x: nat, s: seq<nat>): seq<nat> {
    if s == [] || x <= s[0] then [x] + s else [s[0]] + Ins(x, s[1..])
  }

  function Sorted(s: seq<nat>): seq<nat> {
    if s == [] then [] else Ins(s[0], Sorted(s[1..]))
  }

  predicate Ascending(s: seq<nat>) {
    forall j, k :: 0 <= j < k < |s| ==> s[j] <= s[k]
  }

  lemma {:induction false} InsPermutes(x: nat, s: seq<nat>)
    ensures multiset(Ins(x, s)) == multiset(s) + multiset{x}
    ensures |Ins(x, s)| == |s| + 1
  {
    if s == [] || x <= s[0] {
    } else {
      InsPermutes(x, s[1..]);
      assert s == [s[0]] + s[1..];
    }
  }

  lemma {:induction false} InsAscends(x: nat, s: seq<nat>)
    requires Ascending(s)
    ensures Ascending(Ins(x, s))
    ensures Ins(x, s) != [] && (s == [] || x <= s[0] ==> Ins(x, s)[0] == x)
    ensures s != [] && s[0] < x ==> Ins(x, s)[0] == s[0]
  {
    if s == [] || x <= s[0] {
    } else {
      InsAscends(x, s[1..]);
    }
  }

  /** `Sorted` is the samples in ascending order... */
  lemma {:induction false} SortedSorts(s: seq<nat>)
    ensures Ascending(Sorted(s))
    ensures multiset(Sorted(s)) == multiset(s)
    ensures |Sorted(s)| == |s|
  {
    if s != [] {
      SortedSorts(s[1..]);
      InsAscends(s[0], Sorted(s[1..]));
      InsPermutes(s[0], Sorted(s[1..]));
      assert s == [s[0]] + s[1..];
    }
  }

  lemma SameHead(s: seq<nat>, t: seq<nat>)
    requires Ascending(s) && Ascending(t) && multiset(s) == multiset(t) && s != []
    ensures t != [] && s[0] == t[0]
  {
    assert s[0] in multiset(t);
    assert t[0] in multiset(s);
  }

  /** ...and the only such arrangement, so its `k`-th entry is the `k`-th smallest sample. */
  lemma {:induction false} AscendingUnique(s: seq<nat>, t: seq<nat>)
    requires Ascending(s) && Ascending(t) && multiset(s) == multiset(t)
    ensures s == t
  {
    if s == [] {
      assert |multiset(t)| == 0;
    } else {
      SameHead(s, t);
      assert s == [s[0]] + s[1..] && t == [t[0]] + t[1..];
      assert multiset(s[1..]) == multiset(s) - multiset{s[0]};
      AscendingUnique(s[1..], t[1..]);
    }
  }

  lemma {:induction false} InsSplits(b: nat, l: seq<nat>, r: seq<nat>)
    requires forall k :: 0 <= k < |l| ==> l[k] < b
    requires r == [] || b <= r[0]
    ensures Ins(b, l + r) == l + [b] + r
  {
    if l == [] {
      assert l + r == r && l + [b] + r == [b] + r;
    } else {
      assert (l + r)[1..] == l[1..] + r;
      InsSplits(b, l[1..], r);
      assert l + [b] + r == [l[0]] + (l[1..] + [b] + r);
    }
  }

  /** Every sample rounded down to its leading digit. */
  function Rounded(s: seq<nat>): (t: seq<nat>)
    ensures |t| == |s|
  {
    if s == [] then [] else [Trunc(s[0])] + Rounded(s[1..])
  }

  lemma {:induction false} RoundedAt(s: seq<nat>, k: nat)
    requires k < |s|
    ensures Rounded(s)[k] == Trunc(s[k])
  {
    if k > 0 {
      RoundedAt(s[1..], k - 1);
    }
  }

  lemma RoundedAscends(s: seq<nat>)
    requires Ascending(s)
    ensures Ascending(Rounded(s))
  {
    var t := Rounded(s);
    forall j, k | 0 <= j < k < |t| ensures t[j] <= t[k] {
      RoundedAt(s, j);
      RoundedAt(s, k);
      TruncMonotone(s[j], s[k]);
    }
  }

  /** Rounding is monotone, so inserting and rounding commute. */
  lemma InsRounded(x: nat, s: seq<nat>)
    requires Ascending(s)
    ensures Rounded(Ins(x, s)) == Ins(Trunc(x), Rounded(s))
  {
    InsAscends(x, s);
    RoundedAscends(s);
    RoundedAscends(Ins(x, s));
    InsAscends(Trunc(x), Rounded(s));
    InsPermutes(Trunc(x), Rounded(s));
    RoundedIns(x, s);
    AscendingUnique(Rounded(Ins(x, s)), Ins(Trunc(x), Rounded(s)));
  }

  lemma {:induction false} RoundedIns(x: nat, s: seq<nat>)
    ensures multiset(Rounded(Ins(x, s))) == multiset(Rounded(s)) + multiset{Trunc(x)}
  {
    if s == [] || x <= s[0] {
      assert Rounded([x] + s) == [Trunc(x)] + Rounded(s) by {
        assert ([x] + s)[1..] == s;
      }
    } else {
      RoundedIns(x, s[1..]);
      var t := Ins(x, s[1..]);
      assert ([s[0]] + t)[1..] == t;
      assert Rounded([s[0]] + t) == [Trunc(s[0])] + Rounded(t);
    }
  }

  // ---------- what the buckets stand for ----------

  function Copies(b: nat, c: nat): (r: seq<nat>)
    ensures |r| == c
  {
    if c == 0 then [] else [b] + Copies(b, c - 1)
  }

  /** The histogram written out in full. */
  function Expand(items: seq<Bucket>): seq<nat> {
    if items == [] then [] else Copies(items[0].first, items[0].second) + Expand(items[1..])
  }

  lemma {:induction false} CopiesAt(b: nat, c: nat, k: nat)
    requires k < c
    ensures Copies(b, c)[k] == b
  {
    if k > 0 {
      CopiesAt(b, c - 1, k - 1);
    }
  }

  lemma {:induction false} ExpandConcat(l: seq<Bucket>, r: seq<Bucket>)
    ensures Expand(l + r) == Expand(l) + Expand(r)
  {
    if l == [] {
      assert l + r == r;
    } else {
      assert (l + r)[1..] == l[1..] + r;
      ExpandConcat(l[1..], r);
    }
  }

  lemma {:induction false} ExpandBelow(items: seq<Bucket>, b: nat)
    requires forall k :: 0 <= k < |items| ==> items[k].first < b
    ensures forall k :: 0 <= k < |Expand(items)| ==> Expand(items)[k] < b
  {
    if items != [] {
      ExpandBelow(items[1..], b);
      var c := Copies(items[0].first, items[0].second);
      forall k | 0 <= k < |c| ensures c[k] < b {
        CopiesAt(items[0].first, items[0].second, k);
      }
    }
  }

  lemma ExpandHead(items: seq<Bucket>)
    requires items != [] && items[0].second > 0
    ensures Expand(items) != [] && Expand(items)[0] == items[0].first
  {
    CopiesAt(items[0].first, items[0].second, 0);
  }

  ghost predicate Counted(items: seq<Bucket>) {
    forall k :: 0 <= k < |items| ==> items[k].second > 0
  }

  lemma Expand3(l: seq<Bucket>, m: Bucket, r: seq<Bucket>)
    ensures Expand(l + [m] + r) == Expand(l) + (Copies(m.first, m.second) + Expand(r))
  {
    ExpandConcat(l + [m], r);
    ExpandConcat(l, [m]);
    assert Expand([m]) == Copies(m.first, m.second) + Expand([]) == Copies(m.first, m.second);
  }

  /** A new bucket of one sample inserts that sample. */
  lemma NewBucket(items: seq<Bucket>, b: nat, w: nat)
    requires IsLowerBound(items, b, w) && Counted(items)
    ensures Expand(items[..w] + [Item(b, 1)] + items[w..]) == Ins(b, Expand(items))
  {
    var l, r := items[..w], items[w..];
    Expand3(l, Item(b, 1), r);
    assert Copies(b, 1) == [b] + Copies(b, 0) == [b];
    assert items == l + r;
    ExpandConcat(l, r);
    ExpandBelow(l, b);
    if r != [] { ExpandHead(r); }
    InsSplits(b, Expand(l), Expand(r));
  }

  lemma StillDistinct(items: seq<Bucket>, b: nat, w: nat)
    requires IsLowerBound(items, b, w) && KeysDistinct(items) && Counted(items)
    requires forall k :: 0 <= k < |items| ==> items[k].first != b
    ensures var t := items[..w] + [Item(b, 1)] + items[w..]; KeysDistinct(t) && Counted(t)
  {
  }

  /** One more sample in an existing bucket inserts that sample. */
  lemma BumpedBucket(items: seq<Bucket>, b: nat, w: nat)
    requires IsLowerBound(items, b, w) && Counted(items)
    requires w < |items| && items[w].first == b
    ensures Expand(items[w := Item(b, items[w].second + 1)]) == Ins(b, Expand(items))
  {
    var l, m, r := items[..w], items[w], items[w + 1..];
    var more := Item(b, m.second + 1);
    Expand3(l, more, r);
    Expand3(l, m, r);
    assert items == l + [m] + r && items[w := more] == l + [more] + r;
    var rest := Copies(b, m.second) + Expand(r);
    assert Copies(b, more.second) == [b] + Copies(b, m.second);
    assert Copies(b, more.second) + Expand(r) == [b] + rest;
    ExpandBelow(l, b);
    CopiesAt(b, m.second, 0);
    InsSplits(b, Expand(l), rest);
  }

  // ---------- ranks ----------

  /** Samples in the first `i` buckets. */
  function Upto(items: seq<Bucket>, i: nat): (n: nat)
    requires i <= |items|
  {
    if i == 0 then 0 else Upto(items, i - 1) + items[i - 1].second
  }

  lemma {:induction false} UptoIsLength(items: seq<Bucket>, i: nat)
    requires i <= |items|
    ensures |Expand(items[..i])| == Upto(items, i)
    ensures Expand(items[..i]) <= Expand(items)
    decreases i
  {
    if i > 0 {
      UptoIsLength(items, i - 1);
      assert items[..i] == items[..i - 1] + [items[i - 1]] + [];
      Expand3(items[..i - 1], items[i - 1], []);
    }
    assert items == items[..i] + items[i..];
    ExpandConcat(items[..i], items[i..]);
  }

  /** The bucket where the running total passes `k` holds the `k`-th entry. */
  lemma ExpandAt(items: seq<Bucket>, i: nat, k: nat)
    requires i < |items| && Upto(items, i) <= k < Upto(items, i + 1)
    ensures k < |Expand(items)| && Expand(items)[k] == items[i].first
  {
    UptoIsLength(items, i);
    UptoIsLength(items, i + 1);
    assert items[..i + 1] == items[..i] + [items[i]] + [];
    Expand3(items[..i], items[i], []);
    CopiesAt(items[i].first, items[i].second, k - Upto(items, i));
    assert Expand(items)[k] == Expand(items[..i + 1])[k];
  }

  /** Which entry of the sorted samples a percentile asks for: `max(1, ceil(n p / 100))`, from 1. */
  function Rank(n: nat, p: nat): nat {
    if n * p == 0 then 1 else (n * p + 99) / 100
  }

  /** For percentages up to 100 the rank is that of some sample. */
  lemma RankInside(n: nat, p: nat)
    requires 0 < n && p <= 100
    ensures 1 <= Rank(n, p) <= n
    ensures 100 * (Rank(n, p) - 1) <= n * p <= 100 * Rank(n, p)
  {
    Scaled(p, 100, n);
    Scaled(0, p, n);
  }

  /** It is the least positive number that is at least `p` percent of `n`, whatever `p` is. */
  lemma RankIsLeast(n: nat, p: nat, r: nat)
    ensures Rank(n, p) >= 1 && 100 * Rank(n, p) >= n * p
    ensures r >= 1 && 100 * r >= n * p ==> Rank(n, p) <= r
  {
    Scaled(0, p, n);
  }

  /** So at least `p` percent of the samples are not above the sample of that rank, and of the samples
      in front of it there are fewer, unless it is the first. */
  lemma RankSplits(samples: seq<nat>, p: nat)
    requires samples != [] && p <= 100
    ensures |Sorted(samples)| == |samples|
    ensures var s, r := Sorted(samples), Rank(|samples|, p);
      && 1 <= r <= |s| && 100 * r >= |samples| * p && (r > 1 ==> 100 * (r - 1) < |samples| * p)
      && (forall k :: 0 <= k < r ==> s[k] <= s[r - 1])
      && (forall k :: r <= k < |s| ==> s[r - 1] <= s[k])
  {
    SortedSorts(samples);
    RankInside(|samples|, p);
    RankIsLeast(|samples|, p, Rank(|samples|, p) - 1);
  }

  class PrecisionSampler {
    const buckets: OrderedMultimap<nat>
    /** Every sample since the last `Clear`, newest first. */
    ghost var samples: seq<nat>

    /** The histogram is the sorted samples, each rounded down to its leading digit. */
    ghost predicate Valid()
      reads this, buckets
    {
      && KeysDistinct(buckets.items)
      && Counted(buckets.items)
      && Expand(buckets.items) == Rounded(Sorted(samples))
    }

    constructor ()
      ensures Valid() && samples == [] && fresh(buckets)
    {
      buckets := new OrderedMultimap<nat>();
      samples := [];
    }

    method Sample(x: nat)
      requires Valid() && x < TWO_TO_THE_64
      modifies this, buckets
      ensures Valid() && samples == [x] + old(samples)
    {
      var c, _ := FloorLog10(x);
      NonNegative(x, c);
      Record(x / c * c);
      SortedSorts(samples);
      InsRounded(x, Sorted(samples));
      samples := [x] + samples;
      assert samples[1..] == old(samples);
    }

    /** The find-or-insert half of `sample`. */
    method Record(b: nat)
      requires KeysDistinct(buckets.items) && Counted(buckets.items)
      modifies buckets
      ensures KeysDistinct(buckets.items) && Counted(buckets.items)
      ensures Expand(buckets.items) == Ins(b, old(Expand(buckets.items)))
    {
      var items := buckets.items;
      var where := buckets.Find(b);
      if where == |buckets.items| {
        where := buckets.Emplace(b, 1);
        NewBucket(items, b, where);
        StillDistinct(items, b, where);
      } else {
        BumpedBucket(items, b, where);
        buckets.items := items[where := Item(b, items[where].second + 1)];
      }
    }

    /** `sample_index`: the first bucket at which the running total reaches `count`. */
    method SampleIndex(count: nat) returns (i: nat)
      ensures i <= |buckets.items|
      ensures forall j :: 0 < j <= i ==> Upto(buckets.items, j) < count
      ensures i < |buckets.items| ==> count <= Upto(buckets.items, i + 1)
    {
      var current := 0;
      i := 0;
      while i < |buckets.items|
        invariant i <= |buckets.items| && current == Upto(buckets.items, i)
        invariant forall j :: 0 < j <= i ==> Upto(buckets.items, j) < count
      {
        current := current + buckets.items[i].second;
        if current >= count {
          return;
        }
        i := i + 1;
      }
    }

    /** `total`: how many samples there were. */
    method Total() returns (total: nat)
      requires Valid()
      ensures total == |samples|
    {
      total := 0;
      var i := 0;
      while i < |buckets.items|
        invariant i <= |buckets.items| && total == Upto(buckets.items, i)
      {
        total := total + buckets.items[i].second;
        i := i + 1;
      }
      UptoIsLength(buckets.items, i);
      SortedSorts(samples);
      assert buckets.items[..i] == buckets.items;
    }

    /** `percentile`: the rounded sample of that rank; `None`, for NaN, when there is no such sample. */
    method Percentile(p: nat) returns (r: Option<nat>)
      requires Valid()
      ensures |Sorted(samples)| == |samples|
      ensures r == if Rank(|samples|, p) > |samples| then None
                   else Some(Trunc(Sorted(samples)[Rank(|samples|, p) - 1]))
    {
      SortedSorts(samples);
      var total := Total();
      var count := (total * p + 99) / 100;
      ghost var rank := Rank(|samples|, p);
      var i := SampleIndex(count);
      RankPositive(|samples|, p);
      if i < |buckets.items| {
        ExpandAt(buckets.items, i, rank - 1);
        RoundedAt(Sorted(samples), rank - 1);
        r := Some(buckets.items[i].first);
      } else {
        UptoIsLength(buckets.items, i);
        assert buckets.items[..i] == buckets.items;
        r := None;
      }
    }

    method Clear()
      modifies this, buckets
      ensures Valid() && samples == []
    {
      buckets.Clear();
      samples := [];
    }
  }

  lemma RankPositive(n: nat, p: nat)
    ensures Rank(n, p) >= 1
    ensures (n * p + 99) / 100 == if n * p == 0 then 0 else Rank(n, p)
  {
    Scaled(0, p, n);
  }
}
