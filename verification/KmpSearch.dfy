/** utstring: substring search with the strong Knuth-Morris-Pratt table, in both directions. */
module KmpSearch {
  import opened Facts

  // ---------- matches ----------

  ghost predicate MatchAt(h: string, p: string, s: int) {
    0 <= s && s + |p| <= |h| && h[s..s + |p|] == p
  }

  /** A match character by character. */
  lemma MatchMeans(h: string, p: string, s: int)
    ensures MatchAt(h, p, s) <==> 0 <= s && s + |p| <= |h| && forall k :: 0 <= k < |p| ==> h[s + k] == p[k]
  {
    if 0 <= s && s + |p| <= |h| {
      var t := h[s..s + |p|];
      assert forall k :: 0 <= k < |p| ==> t[k] == h[s + k];
    }
  }

  /** `r` is the first match, or -1 exactly when there is none. */
  ghost predicate IsFirstMatch(h: string, p: string, r: int) {
    && (r == -1 || MatchAt(h, p, r))
    && forall s :: (r == -1 || s < r) ==> !MatchAt(h, p, s)
  }

  /** `r` is the last match, or -1 exactly when there is none. */
  ghost predicate IsLastMatch(h: string, p: string, r: int) {
    && (r == -1 || MatchAt(h, p, r))
    && forall s :: s > r ==> !MatchAt(h, p, s)
  }

  // ---------- borders ----------

  /** The first `b` characters of `p` are also the last `b` characters of `p[..i]`. */
  ghost predicate Border(p: string, i: int, b: int) {
    0 <= b < i <= |p| && p[..b] == p[i - b..i]
  }

  ghost predicate LongestBorder(p: string, i: int, j: int) {
    Border(p, i, j) && forall b :: j < b ==> !Border(p, i, b)
  }

  /** The strong failure value: the longest border of `p[..i]` that is followed by a character other
      than `p[i]`, or -1. */
  ghost predicate StrongFail(p: string, i: int, f: int) {
    && 0 <= i < |p| && -1 <= f < i
    && (f >= 0 ==> Border(p, i, f) && p[f] != p[i])
    && forall b :: f < b && Border(p, i, b) ==> p[b] == p[i]
  }

  ghost predicate TableOk(p: string, table: seq<int>) {
    && |table| == |p| + 1
    && (forall k :: 0 <= k < |p| ==> StrongFail(p, k, table[k]))
    && (if |p| == 0 then table[0] == -1 else LongestBorder(p, |p|, table[|p|]))
  }

  lemma BorderChain(p: string, i: int, j: int, b: int)
    requires Border(p, i, j) && Border(p, j, b)
    ensures Border(p, i, b)
  {
    assert p[j - b..j] == p[..j][j - b..] == p[i - j..i][j - b..] == p[i - b..i];
  }

  lemma BorderInside(p: string, i: int, j: int, b: int)
    requires Border(p, i, j) && Border(p, i, b) && b < j
    ensures Border(p, j, b)
  {
    assert p[j - b..j] == p[..j][j - b..] == p[i - j..i][j - b..] == p[i - b..i];
  }

  /** Falling back from `j`, which `p[i]` does not extend, to the strong failure value of `j` skips no
      border that `p[i]` could extend. */
  lemma FallBack(p: string, i: int, j: int, f: int)
    requires 0 <= i < |p| && 0 <= j < i && Retreated(p, i, j) && p[i] != p[j] && StrongFail(p, j, f)
    ensures Retreated(p, i, f)
  {
    if f >= 0 {
      BorderChain(p, i, j, f);
    }
    forall b | f < b && Border(p, i, b) ensures p[b] != p[i] {
      if b < j {
        BorderInside(p, i, j, b);
      }
    }
  }

  /** `j` is a border, or -1, and no longer border can be extended by `p[i]`. */
  ghost predicate Retreated(p: string, i: int, j: int)
    requires 0 <= i < |p|
  {
    (j >= 0 ==> Border(p, i, j)) && forall b :: j < b && Border(p, i, b) ==> p[b] != p[i]
  }

  lemma LongestRetreated(p: string, i: int, j: int)
    requires 0 <= i < |p| && (if i == 0 then j == -1 else LongestBorder(p, i, j))
    ensures Retreated(p, i, j)
  {
  }

  /** When no border longer than `j` can be extended and `j` can, `j + 1` is the next longest border. */
  lemma ExtendBorder(p: string, i: int, j: int)
    requires 0 <= i < |p| && -1 <= j < i && Retreated(p, i, j)
    requires j >= 0 ==> p[i] == p[j]
    ensures LongestBorder(p, i + 1, j + 1)
  {
    var i' := i + 1;
    if j >= 0 {
      assert p[..j + 1] == p[..j] + [p[j]] == p[i - j..i] + [p[i]] == p[i - j..i + 1];
    }
    forall b | j + 1 < b ensures !Border(p, i', b) {
      if Border(p, i', b) {
        ShrinkBorder(p, i, b);
      }
    }
  }

  lemma ShrinkBorder(p: string, i: int, b: int)
    requires Border(p, i + 1, b) && b > 0
    ensures Border(p, i, b - 1) && p[b - 1] == p[i]
  {
    assert p[..b - 1] == p[..b][..b - 1] == p[i + 1 - b..i + 1][..b - 1] == p[i - (b - 1)..i];
    assert p[b - 1] == p[..b][b - 1] == p[i + 1 - b..i + 1][b - 1] == p[i];
  }

  /** The value stored for `i` once its longest border `j` is known. */
  lemma StoreStrong(p: string, i: int, j: int, f: int)
    requires 0 <= i < |p| && LongestBorder(p, i, j) && StrongFail(p, j, f)
    ensures StrongFail(p, i, if p[i] == p[j] then f else j)
  {
    if p[i] == p[j] {
      if f >= 0 {
        BorderChain(p, i, j, f);
      }
      forall b | f < b && Border(p, i, b) ensures p[b] == p[i] {
        if b < j {
          BorderInside(p, i, j, b);
        }
      }
    }
  }

  ghost predicate Built(p: string, table: seq<int>, i: nat) {
    |table| == |p| + 1 && forall k :: 0 <= k <= i && k < |p| ==> StrongFail(p, k, table[k])
  }

  /** The value stored for `i`: the failure value of `j` if the characters agree, else `j` itself. */
  function Stored(p: string, t: seq<int>, i: nat, j: nat): int
    requires j < i <= |p| && |t| == |p| + 1
  {
    if i < |p| && p[i] == p[j] then t[j] else j
  }

  lemma BuiltNext(p: string, t: seq<int>, i: nat, j: nat)
    requires 0 < i <= |p| && Built(p, t, i - 1) && LongestBorder(p, i, j)
    ensures Built(p, t[i := Stored(p, t, i, j)], i)
  {
    if i < |p| {
      assert StrongFail(p, j, t[j]);
      StoreStrong(p, i, j, t[j]);
    }
  }

  /** The inner loop of the table builder: retreat to the longest border that `p[i]` extends. */
  method Retreat(p: string, i: int, j0: int, table: array<int>) returns (j: int, ghost comparisons: nat)
    requires table.Length == |p| + 1 && 0 <= i < |p| && Built(p, table[..], i)
    requires if i == 0 then j0 == -1 else LongestBorder(p, i, j0)
    ensures -1 <= j < i && LongestBorder(p, i + 1, j + 1)
    ensures comparisons <= j0 - j + 1
  {
    j, comparisons := j0, 0;
    LongestRetreated(p, i, j);
    while j > -1 && p[i] != p[j]
      invariant -1 <= j < i && Whole(Retreated(p, i, j))
      invariant comparisons <= j0 - j
    {
      assert StrongFail(p, j, table[..][j]);
      FallBack(p, i, j, table[j]);
      j := table[j];
      comparisons := comparisons + 1;
    }
    comparisons := comparisons + if j > -1 then 1 else 0;
    ExtendBorder(p, i, j);
  }

  /** _utstring_BuildTable. The ghost counter bounds the character comparisons. */
  method BuildTable(p: string, table: array<int>) returns (ghost comparisons: nat)
    requires table.Length == |p| + 1
    modifies table
    ensures TableOk(p, table[..])
    ensures comparisons <= 3 * |p|
  {
    var i := 0;
    var j := i - 1;
    table[i] := j;
    comparisons := 0;
    while i < |p|
      invariant 0 <= i <= |p| && -1 <= j < i
      invariant if i == 0 then j == -1 else LongestBorder(p, i, j)
      invariant Built(p, table[..], i)
      invariant i == |p| ==> table[i] == j
      invariant comparisons <= 3 * i - j - 1
    {
      ghost var c;
      j, c := Retreat(p, i, j, table);
      comparisons := comparisons + c;
      i := i + 1;
      j := j + 1;
      BuiltNext(p, table[..], i, j);
      if i < |p| {
        comparisons := comparisons + 1;
        if p[i] == p[j] {
          table[i] := table[j];
        } else {
          table[i] := j;
        }
      } else {
        table[i] := j;
      }
    }
  }

  // ---------- scanning ----------

  /** The scan has matched `p[..i]` just before `h[j]`, and no match starts earlier. */
  ghost predicate Scanned(h: string, p: string, i: int, j: int) {
    && -1 <= i <= |p| && i <= j <= |h|
    && (i >= 0 ==> p[..i] == h[j - i..j])
    && forall s :: s < j - i ==> !MatchAt(h, p, s)
  }

  /** A mismatch at `h[j]` lets the scan fall back to the strong failure value and miss nothing. */
  lemma ShiftSafe(h: string, p: string, i: int, j: int, f: int)
    requires Scanned(h, p, i, j) && 0 <= i < |p| && j < |h| && p[i] != h[j] && StrongFail(p, i, f)
    ensures Scanned(h, p, f, j)
  {
    if f >= 0 {
      assert p[..f] == p[i - f..i] == p[..i][i - f..] == h[j - i..j][i - f..] == h[j - f..j];
    }
    forall s | s < j - f ensures !MatchAt(h, p, s) {
      if MatchAt(h, p, s) && j - i <= s {
        MatchGivesBorder(h, p, i, j, s);
      }
    }
  }

  /** A match that covers `h[j]` agrees with it, and its overlap with what is matched so far is a border. */
  lemma MatchGivesBorder(h: string, p: string, i: int, j: int, s: int)
    requires 0 <= i < |p| && i <= j < |h| && p[..i] == h[j - i..j]
    requires MatchAt(h, p, s) && j - i <= s <= j
    ensures p[j - s] == h[j]
    ensures j - s < i ==> Border(p, i, j - s)
  {
    var b := j - s;
    assert p[b] == h[s..s + |p|][b] == h[j];
    if b < i {
      assert p[..b] == h[s..s + |p|][..b] == h[s..j];
      assert h[s..j] == h[j - i..j][i - b..] == p[..i][i - b..] == p[i - b..i];
    }
  }

  lemma ScanStep(h: string, p: string, i: int, j: int)
    requires Scanned(h, p, i, j) && i < |p| && j < |h| && (i >= 0 ==> p[i] == h[j])
    ensures Scanned(h, p, i + 1, j + 1)
  {
    if i >= 0 {
      assert p[..i + 1] == p[..i] + [p[i]] == h[j - i..j] + [h[j]] == h[j - i..j + 1];
    } else {
      assert p[..0] == h[j + 1..j + 1];
    }
  }

  lemma ScanFound(h: string, p: string, i: int, j: int)
    requires Scanned(h, p, i, j) && i == |p|
    ensures IsFirstMatch(h, p, j - i)
  {
    assert p[..|p|] == p;
  }

  lemma ScanExhausted(h: string, p: string, i: int, j: int)
    requires Scanned(h, p, i, j) && (|h| - j) + i < |p|
    ensures IsFirstMatch(h, p, -1)
  {
  }

  /** The inner loop of the scan: fall back until the needle agrees with `h[j]` or is used up. */
  method Shift(h: string, p: string, i0: int, j: int, table: array<int>) returns (i: int, ghost comparisons: nat)
    requires 0 <= i0 < |p| && 0 <= j < |h| && TableOk(p, table[..]) && Scanned(h, p, i0, j)
    ensures -1 <= i < |p| && Scanned(h, p, i + 1, j + 1)
    ensures comparisons <= i0 - i + 1
  {
    i, comparisons := i0, 0;
    while i > -1 && p[i] != h[j]
      invariant -1 <= i < |p| && Scanned(h, p, i, j)
      invariant comparisons <= i0 - i
    {
      ShiftSafe(h, p, i, j, table[..][i]);
      i := table[i];
      comparisons := comparisons + 1;
    }
    comparisons := comparisons + if i > -1 then 1 else 0;
    ScanStep(h, p, i, j);
  }

  /** _utstring_find: the first match, with at most two comparisons for each character of `h`. */
  method Find(h: string, p: string, table: array<int>) returns (r: int, ghost comparisons: nat)
    requires |p| > 0 && TableOk(p, table[..])
    ensures IsFirstMatch(h, p, r)
    ensures comparisons <= 2 * |h|
  {
    r, comparisons := -1, 0;
    var i, j := 0, 0;
    while j < |h| && (|h| - j) + i >= |p|
      invariant 0 <= i < |p| && Scanned(h, p, i, j)
      invariant comparisons <= 2 * j - i
      decreases |h| - j
    {
      ghost var c;
      i, c := Shift(h, p, i, j, table);
      comparisons := comparisons + c;
      i := i + 1;
      j := j + 1;
      if i >= |p| {
        r := j - i;
        ScanFound(h, p, i, j);
        return;
      }
    }
    ScanExhausted(h, p, i, j);
  }

  datatype Option<T> = None | Some(value: T)

  /** The index of the text that utstring_find compares first, if it searches at all. */
  function FirstRead(s: string, start: int, p: string): Option<int> {
    var from := if start < 0 then |s| + start else start;
    if |s| - from >= |p| && |p| > 0 then Some(from) else None
  }

  /** The search begins outside the text if and only if the start lies so far in front of it that the
      needle still fits. */
  lemma FirstReadOutside(s: string, start: int, p: string)
    ensures FirstRead(s, start, p).Some? && !(0 <= FirstRead(s, start, p).value < |s|)
       <==> start < -|s| && 0 < |p| <= -start
    ensures start < -|s| && 0 < |p| <= -start ==> FirstRead(s, start, p).value < 0
  {
  }

  /** utstring_find on the text `s`, for every start at which it does not leave the text: the first
      match at or after the start, which counts from the end if it is negative. */
  method FindFrom(s: string, start: int, p: string) returns (r: int)
    requires !(start < -|s| && 0 < |p| <= -start)
    ensures start >= 0 ==> r == -1 || (start <= r && |p| > 0 && MatchAt(s, p, r))
    ensures start >= 0 ==> forall k :: start <= k && |p| > 0 && (r == -1 || k < r) ==> !MatchAt(s, p, k)
    ensures start < 0 ==> r == -1 || (|s| + start <= r && |p| > 0 && MatchAt(s, p, r))
    ensures start < 0 ==> forall k :: |s| + start <= k && |p| > 0 && (r == -1 || k < r) ==> !MatchAt(s, p, k)
  {
    var from := start;
    if start < 0 {
      from := |s| + start;
    }
    var hlen := |s| - from;
    r := -1;
    if hlen >= |p| && |p| > 0 {
      var table := new int[|p| + 1];
      ghost var c := BuildTable(p, table);
      var h := s[from..];
      r, c := Find(h, p, table);
      forall k | from <= k ensures MatchAt(s, p, k) <==> MatchAt(h, p, k - from) {
        MatchInSuffix(s, p, from, k);
      }
      if r >= 0 {
        r := r + from;
      }
    }
  }

  /** A start inside the text may as well be counted from the end. */
  method FromEitherEnd(s: string, start: int, p: string) returns (r: int, r': int)
    requires 0 <= start < |s|
    ensures r == r'
    ensures r == -1 || (start <= r && |p| > 0 && MatchAt(s, p, r))
  {
    r := FindFrom(s, start, p);
    r' := FindFrom(s, start - |s|, p);
    assert r != -1 && r' != -1 ==> !(r < r') && !(r' < r);
  }

  lemma MatchInSuffix(s: string, p: string, from: nat, k: int)
    requires from <= k && from <= |s|
    ensures MatchAt(s, p, k) <==> MatchAt(s[from..], p, k - from)
  {
    if from <= k && k + |p| <= |s| {
      assert s[from..][k - from..k - from + |p|] == s[k..k + |p|];
    }
  }

  // ---------- right to left ----------

  /** The text read backwards. */
  function Rev(s: string): (r: string)
    ensures |r| == |s|
  {
    seq(|s|, k requires 0 <= k < |s| => s[|s| - 1 - k])
  }

  lemma RevAt(s: string, k: nat)
    requires k < |s|
    ensures Rev(s)[k] == s[|s| - 1 - k]
  {
  }

  /** A slice of the reversed text is the reversed mirror slice. */
  lemma RevSlice(h: string, lo: nat, hi: nat)
    requires lo <= hi <= |h|
    ensures Rev(h)[|h| - hi..|h| - lo] == Rev(h[lo..hi])
  {
    var a, b := Rev(h)[|h| - hi..|h| - lo], Rev(h[lo..hi]);
    forall k | 0 <= k < |a| ensures a[k] == b[k] {
      RevAt(h, |h| - hi + k);
      RevAt(h[lo..hi], k);
    }
  }

  lemma RevInjective(a: string, b: string)
    requires Rev(a) == Rev(b)
    ensures a == b
  {
    assert |a| == |b|;
    forall k | 0 <= k < |a| ensures a[k] == b[k] {
      RevAt(a, |a| - 1 - k);
      RevAt(b, |b| - 1 - k);
    }
  }

  lemma MatchReversed(h: string, p: string, s: int)
    requires MatchAt(h, p, s)
    ensures MatchAt(Rev(h), Rev(p), |h| - |p| - s)
  {
    RevSlice(h, s, s + |p|);
  }

  lemma MatchRestored(h: string, p: string, s: int)
    requires MatchAt(Rev(h), Rev(p), |h| - |p| - s)
    ensures MatchAt(h, p, s)
  {
    RevSlice(h, s, s + |p|);
    RevInjective(h[s..s + |p|], p);
  }

  lemma LastMatchMirror(h: string, p: string, r: int)
    requires IsFirstMatch(Rev(h), Rev(p), r)
    ensures IsLastMatch(h, p, if r == -1 then -1 else |h| - |p| - r)
  {
    var last := if r == -1 then -1 else |h| - |p| - r;
    forall s | s > last ensures !MatchAt(h, p, s) {
      NoLaterMatch(h, p, r, s);
    }
    if r != -1 {
      MirroredMatch(h, p, r, last);
    }
  }

  lemma MirroredMatch(h: string, p: string, r: int, r': int)
    requires MatchAt(Rev(h), Rev(p), r) && r' == |h| - |p| - r
    ensures MatchAt(h, p, r')
  {
    MatchRestored(h, p, r');
  }

  lemma NoLaterMatch(h: string, p: string, r: int, s: int)
    requires IsFirstMatch(Rev(h), Rev(p), r) && s > if r == -1 then -1 else |h| - |p| - r
    ensures !MatchAt(h, p, s)
  {
    if MatchAt(h, p, s) {
      MatchReversed(h, p, s);
    }
  }

  /** `t` is the table of the reversed needle that the right-to-left table `a` stands for: position
      `m - k` of `a` holds the mirror image of the failure value of `k`. */
  ghost predicate Mirrors(a: seq<int>, t: seq<int>) {
    |a| == |t| && forall k {:trigger t[k]} :: 0 <= k < |t| ==> t[k] == |t| - 2 - a[|t| - 1 - k]
  }

  lemma MirrorsNext(a: seq<int>, t: seq<int>, k: nat, x: int)
    requires Mirrors(a, t) && k < |a|
    ensures Mirrors(a[k := x], t[|t| - 1 - k := |t| - 2 - x])
  {
  }

  ghost function InitialMirror(a: seq<int>): (t: seq<int>)
    ensures Mirrors(a, t)
  {
    seq(|a|, k requires 0 <= k < |a| => |a| - 2 - a[|a| - 1 - k])
  }

  /** The inner loop of the right-to-left table builder; `u` and `v` mirror `i` and `j`. */
  method RetreatR(p: string, i: int, j0: int, table: array<int>, ghost t: seq<int>, ghost u: nat, ghost v0: int)
    returns (j: int, ghost v: int, ghost comparisons: nat)
    requires table.Length == |p| + 1 && 0 <= i < |p| && u == |p| - 1 - i && v0 == |p| - 1 - j0
    requires Mirrors(table[..], t) && Built(Rev(p), t, u)
    requires if u == 0 then v0 == -1 else LongestBorder(Rev(p), u, v0)
    ensures i < j <= |p| && v == |p| - 1 - j
    ensures LongestBorder(Rev(p), u + 1, v + 1)
    ensures comparisons <= v0 - v + 1
  {
    ghost var pr := Rev(p);
    j, v, comparisons := j0, v0, 0;
    RevAt(p, u);
    LongestRetreated(pr, u, v);
    while j < |p| && p[i] != p[j]
      invariant i < j <= |p| && v == |p| - 1 - j && Whole(Retreated(pr, u, v))
      invariant comparisons <= v0 - v
    {
      RevAt(p, v);
      assert StrongFail(pr, v, t[v]);
      FallBack(pr, u, v, t[v]);
      j, v := table[j + 1], t[v];
      comparisons := comparisons + 1;
    }
    comparisons := comparisons + if j < |p| then 1 else 0;
    if v >= 0 {
      RevAt(p, v);
    }
    ExtendBorder(pr, u, v);
  }

  /** _utstring_BuildTableR. */
  method BuildTableR(p: string, table: array<int>) returns (ghost t: seq<int>, ghost comparisons: nat)
    requires table.Length == |p| + 1
    modifies table
    ensures Mirrors(table[..], t) && TableOk(Rev(p), t)
    ensures comparisons <= 3 * |p|
  {
    var i := |p| - 1;
    var j := i + 1;
    table[i + 1] := j;
    comparisons := 0;
    ghost var pr, u, v := Rev(p), 0, -1;
    t := InitialMirror(table[..]);
    while i >= 0
      invariant -1 <= i < |p| && i < j <= |p| && u == |p| - 1 - i && v == |p| - 1 - j
      invariant if u == 0 then v == -1 else LongestBorder(pr, u, v)
      invariant Mirrors(table[..], t) && Built(pr, t, u)
      invariant i == -1 ==> t[u] == v
      invariant comparisons <= 3 * u - v - 1
    {
      ghost var c;
      j, v, c := RetreatR(p, i, j, table, t, u, v);
      comparisons := comparisons + c;
      i, u := i - 1, u + 1;
      j, v := j - 1, v + 1;
      t, c := StoreR(p, i, j, table, t, u, v);
      comparisons := comparisons + c;
    }
  }

  /** The entry for `i`, stored one place to its right. */
  method StoreR(p: string, i: int, j: int, table: array<int>, ghost t0: seq<int>, ghost u: nat, ghost v: nat)
    returns (ghost t: seq<int>, ghost comparisons: nat)
    requires table.Length == |p| + 1 && -1 <= i < j < |p| && u == |p| - 1 - i && v == |p| - 1 - j
    requires Mirrors(table[..], t0) && Built(Rev(p), t0, u - 1) && LongestBorder(Rev(p), u, v)
    modifies table
    ensures Mirrors(table[..], t) && Built(Rev(p), t, u) && (i == -1 ==> t[u] == v)
    ensures comparisons <= 1
  {
    ghost var pr, a := Rev(p), table[..];
    comparisons := 0;
    BuiltNext(pr, t0, u, v);
    RevAt(p, v);
    if i >= 0 {
      comparisons := 1;
      RevAt(p, u);
      if p[i] == p[j] {
        table[i + 1] := table[j + 1];
      } else {
        table[i + 1] := j;
      }
    } else {
      table[i + 1] := j;
    }
    assert table[..] == a[i + 1 := table[i + 1]];
    MirrorsNext(a, t0, i + 1, table[i + 1]);
    assert |t0| - 1 - (i + 1) == u;
    assert |t0| - 2 - table[i + 1] == Stored(pr, t0, u, v);
    t := t0[u := Stored(pr, t0, u, v)];
    assert Mirrors(table[..], t) && Built(pr, t, u);
  }

  /** The inner loop of the scan: fall back until the needle agrees with `h[j]` or is used up. */
  method ShiftR(h: string, p: string, i0: int, j: int, table: array<int>,
                ghost t: seq<int>, ghost u0: int, ghost w: nat)
    returns (i: int, ghost u: int, ghost comparisons: nat)
    requires 0 <= i0 < |p| && 0 <= j < |h| && u0 == |p| - 1 - i0 && w == |h| - 1 - j
    requires Mirrors(table[..], t) && Whole(TableOk(Rev(p), t)) && Whole(Scanned(Rev(h), Rev(p), u0, w))
    ensures 0 <= i <= |p| && u == |p| - 1 - i
    ensures Whole(Scanned(Rev(h), Rev(p), u + 1, w + 1))
    ensures comparisons <= u0 - u + 1
  {
    ghost var hr, pr := Rev(h), Rev(p);
    i, u, comparisons := i0, u0, 0;
    RevAt(h, w);
    while i < |p| && p[i] != h[j]
      invariant 0 <= i <= |p| && u == |p| - 1 - i && Whole(Scanned(hr, pr, u, w))
      invariant comparisons <= u0 - u
      decreases u
    {
      RevAt(p, u);
      assert StrongFail(pr, u, t[u]);
      ShiftSafe(hr, pr, u, w, t[u]);
      i, u := table[i + 1], t[u];
      comparisons := comparisons + 1;
    }
    comparisons := comparisons + if i < |p| then 1 else 0;
    if i < |p| {
      RevAt(p, u);
    }
    ScanStep(hr, pr, u, w);
  }

  /** _utstring_findR: the last match, found by scanning from the right end. */
  method FindR(h: string, p: string, table: array<int>, ghost t: seq<int>) returns (r: int, ghost comparisons: nat)
    requires |p| > 0 && Mirrors(table[..], t) && TableOk(Rev(p), t)
    ensures IsLastMatch(h, p, r)
    ensures IsFirstMatch(Rev(h), Rev(p), if r == -1 then -1 else |h| - |p| - r)
    ensures comparisons <= 2 * |h|
  {
    r, comparisons := -1, 0;
    var j := |h| - 1;
    var i := |p| - 1;
    ghost var hr, pr, u, w, first := Rev(h), Rev(p), 0, 0, -1;
    assert Whole(Scanned(hr, pr, 0, 0));
    while j >= 0 && j >= i
      invariant -1 <= j < |h| && 0 <= i < |p| && u == |p| - 1 - i && w == |h| - 1 - j
      invariant Whole(Scanned(hr, pr, u, w))
      invariant comparisons <= 2 * w - u && r == first == -1
      decreases j + 1
    {
      ghost var c;
      i, u, c := ShiftR(h, p, i, j, table, t, u, w);
      comparisons := comparisons + c;
      i, u := i - 1, u + 1;
      j, w := j - 1, w + 1;
      if i < 0 {
        r, first := j + 1, w - u;
        ScanFound(hr, pr, u, w);
        break;
      }
    }
    if r == -1 {
      ScanExhausted(hr, pr, u, w);
    }
    LastMatchMirror(h, p, first);
  }

  /** The index of the text that utstring_findR compares first, if it searches at all. */
  function FirstReadR(s: string, start: int, p: string): Option<int> {
    var from := if start < 0 then |s| + start else start;
    if from + 1 >= |p| && |p| > 0 then Some(from) else None
  }

  /** The backward search begins outside the text if and only if the start lies behind it and the
      needle fits in front of the start. */
  lemma FirstReadOutsideR(s: string, start: int, p: string)
    ensures FirstReadR(s, start, p).Some? && !(0 <= FirstReadR(s, start, p).value < |s|)
       <==> start >= |s| && 0 < |p| <= start + 1
    ensures start >= |s| && 0 < |p| <= start + 1 ==> FirstReadR(s, start, p).value >= |s|
  {
  }

  /** utstring_findR on the text `s`, for every start at which it does not leave the text: the last match
      that ends at or before the start, which counts from the end if it is negative. */
  method FindFromR(s: string, start: int, p: string) returns (r: int)
    requires !(start >= |s| && 0 < |p| <= start + 1)
    ensures start >= 0 ==> r == -1 || (r + |p| - 1 <= start && |p| > 0 && MatchAt(s, p, r))
    ensures start >= 0 ==> forall k :: r < k && k + |p| - 1 <= start && |p| > 0 ==> !MatchAt(s, p, k)
    ensures start < 0 ==> r == -1 || (r + |p| - 1 <= |s| + start && |p| > 0 && MatchAt(s, p, r))
    ensures start < 0 ==> forall k :: r < k && k + |p| - 1 <= |s| + start && |p| > 0 ==> !MatchAt(s, p, k)
  {
    var from := start;
    if start < 0 {
      from := |s| + start;
    }
    var hlen := from + 1;
    r := -1;
    if hlen >= |p| && |p| > 0 {
      var table := new int[|p| + 1];
      ghost var t, c := BuildTableR(p, table);
      var h := s[..hlen];
      r, c := FindR(h, p, table, t);
      forall k | k + |p| <= hlen ensures MatchAt(s, p, k) <==> MatchAt(h, p, k) {
        if 0 <= k {
          assert h[k..k + |p|] == s[k..k + |p|];
        }
      }
    }
  }

  /** Here too a start inside the text may as well be counted from the end. */
  method FromEitherEndR(s: string, start: int, p: string) returns (r: int, r': int)
    requires 0 <= start < |s|
    ensures r == r'
    ensures r == -1 || (r + |p| - 1 <= start && |p| > 0 && MatchAt(s, p, r))
  {
    r := FindFromR(s, start, p);
    r' := FindFromR(s, start - |s|, p);
    assert r != -1 && r' != -1 ==> !(r < r') && !(r' < r);
  }
}
