/** counters: the integer logarithm, the compressed histogram and the moving average. */
module Counters {
  import opened Bits

  const TWO_TO_THE_64: nat := 0x1_0000_0000_0000_0000

  // ---------- floor_log10 ----------

  function Pow10(k: nat): (r: nat)
    ensures r > 0
  {
    if k == 0 then 1 else 10 * Pow10(k - 1)
  }

  lemma {:induction false} Pow10Sum(j: nat, k: nat)
    ensures Pow10(j + k) == Pow10(j) * Pow10(k)
    decreases k
  {
    if k > 0 {
      Pow10Sum(j, k - 1);
      assert Pow10(j + k) == 10 * Pow10(j + k - 1);
    }
  }

  /** FMC_FLOORLOG2. */
  function FloorLog2(v: nat): nat
    requires v > 0
  {
    if v == 1 then 0 else 1 + FloorLog2(v / 2)
  }

  lemma {:induction false} FloorLog2Bounds(v: nat)
    requires v > 0
    ensures Pow2(FloorLog2(v)) <= v < Pow2(FloorLog2(v) + 1)
  {
    if v > 1 {
      FloorLog2Bounds(v / 2);
      assert Pow2(FloorLog2(v) + 1) == 2 * Pow2(FloorLog2(v));
    } else {
      assert Pow2(1) == 2;
    }
  }

  /** The `switch` of `floor_log10`. */
  function SwitchPow10(idx: nat): nat {
    match idx
    case 0 => 1
    case 1 => 1
    case 2 => 10
    case 3 => 100
    case 4 => 1000
    case 5 => 10000
    case 6 => 100000
    case 7 => 1000000
    case 8 => 10000000
    case 9 => 100000000
    case 10 => 1000000000
    case 11 => 10000000000
    case 12 => 100000000000
    case 13 => 1000000000000
    case 14 => 10000000000000
    case 15 => 100000000000000
    case 16 => 1000000000000000
    case 17 => 10000000000000000
    case 18 => 100000000000000000
    case 19 => 1000000000000000000
    case 20 => 10000000000000000000
    case _ => 10000000000000000000
  }

  lemma SwitchIsPower(idx: nat)
    requires 1 <= idx <= 20
    ensures SwitchPow10(idx) == Pow10(idx - 1)
  {
    assert Pow10(4) == 10000;
    assert Pow10(8) == 100000000 by { Pow10Sum(4, 4); }
    assert Pow10(12) == 1000000000000 by { Pow10Sum(4, 8); }
    assert Pow10(16) == 10000000000000000 by { Pow10Sum(8, 8); }
    assert Pow10(19) == 10000000000000000000 by { Pow10Sum(16, 3); }
  }

  /** Ten binary orders of magnitude are a little more than three decimal ones... */
  lemma {:induction false} ThousandBelow1024(m: nat)
    ensures Pow10(3 * m) <= Pow2(10 * m)
  {
    if m > 0 {
      ThousandBelow1024(m - 1);
      Pow10Sum(3 * (m - 1), 3);
      Pow2Sum(10 * (m - 1), 10);
      assert Pow10(3) == 1000 && Pow2(10) == 1024;
    }
  }

  /** ...but, up to 60 bits, by less than a fifth. */
  lemma OneFifthMore(m: nat)
    requires m <= 6
    ensures 5 * Pow2(10 * m) <= 6 * Pow10(3 * m)
  {
    GrowsSlowly(m);
    Scaled(1000 + 33 * m, 1200, Pow10(3 * m));
  }

  lemma {:induction false} GrowsSlowly(m: nat)
    requires m <= 7
    ensures 1000 * Pow2(10 * m) <= (1000 + 33 * m) * Pow10(3 * m)
  {
    if m > 0 {
      GrowsSlowly(m - 1);
      NextTen(m - 1);
      SlowStep(967 + 33 * m, Pow2(10 * (m - 1)), Pow10(3 * (m - 1)));
    }
  }

  lemma SlowStep(k: nat, a: nat, p: nat)
    requires 1000 * a <= k * p && 1024 * k <= 1000 * (k + 33)
    ensures 1000 * (1024 * a) <= (k + 33) * (1000 * p)
  {
    Scaled(1024 * k, 1000 * (k + 33), p);
    assert 1024 * k * p == 1024 * (k * p);
    assert 1000 * (k + 33) * p == (k + 33) * (1000 * p);
  }

  lemma NextTen(m: nat)
    ensures Pow2(10 * (m + 1)) == 1024 * Pow2(10 * m) && Pow10(3 * (m + 1)) == 1000 * Pow10(3 * m)
  {
    assert Pow2(10) == 1024 && Pow10(3) == 1000;
    Pow2Sum(10 * m, 10);
    Pow10Sum(3 * m, 3);
  }

  lemma WithinTen(r: nat)
    requires r < 10
    ensures Pow10(3 * r / 10) <= Pow2(r)
    ensures 6 * Pow2(r + 1) <= 5 * Pow10(3 * r / 10 + 2)
  {
    assert Pow2(0) == 1 && Pow2(1) == 2 && Pow2(2) == 4 && Pow2(3) == 8 && Pow2(4) == 16 && Pow2(5) == 32;
    assert Pow2(6) == 64 && Pow2(7) == 128 && Pow2(8) == 256 && Pow2(9) == 512 && Pow2(10) == 1024;
    assert Pow10(0) == 1 && Pow10(1) == 10 && Pow10(2) == 100 && Pow10(3) == 1000 && Pow10(4) == 10000;
  }

  /** For every 64-bit magnitude, `3 f / 10` decimal digits is exact or one short. */
  lemma Estimate(f: nat)
    requires f < 64
    ensures Pow10(3 * f / 10) <= Pow2(f)
    ensures Pow2(f + 1) <= Pow10(3 * f / 10 + 2)
  {
    var m, r := f / 10, f % 10;
    assert 3 * f / 10 == 3 * m + 3 * r / 10;
    ThousandBelow1024(m);
    OneFifthMore(m);
    WithinTen(r);
    Pow10Sum(3 * m, 3 * r / 10);
    Pow10Sum(3 * m, 3 * r / 10 + 2);
    Pow2Sum(10 * m, r);
    Pow2Sum(10 * m, r + 1);
    Products(Pow10(3 * m), Pow10(3 * r / 10), Pow2(10 * m), Pow2(r));
    Quotients(Pow2(10 * m), Pow2(r + 1), Pow10(3 * m), Pow10(3 * r / 10 + 2));
  }

  lemma Quotients(a: nat, b: nat, c: nat, d: nat)
    requires 5 * a <= 6 * c && 6 * b <= 5 * d
    ensures a * b <= c * d
  {
    Products(5 * a, 6 * b, 6 * c, 5 * d);
    assert (5 * a) * (6 * b) == 30 * (a * b);
    assert (6 * c) * (5 * d) == 30 * (c * d);
  }

  /** The largest power of ten not above `x`; 1 for zero. */
  function Decade(x: nat): (r: nat)
    ensures r > 0
  {
    if x < 10 then 1 else 10 * Decade(x / 10)
  }

  lemma {:induction false} DecadeIsPower(x: nat, k: nat)
    requires Pow10(k) <= x < Pow10(k + 1)
    ensures Decade(x) == Pow10(k)
    decreases k
  {
    if k > 0 {
      assert Pow10(k) == 10 * Pow10(k - 1) && Pow10(k + 1) == 10 * Pow10(k);
      assert Pow10(k - 1) <= x / 10 < Pow10(k);
      DecadeIsPower(x / 10, k - 1);
    } else {
      assert Pow10(1) == 10;
    }
  }

  /** The estimate and the table: the right power of ten or the one below it. */
  method Guess(val: nat) returns (pow10: nat, idx: nat)
    requires val < TWO_TO_THE_64
    ensures val == 0 ==> idx == 0 && pow10 == 1
    ensures val > 0 ==> idx > 0 && pow10 == Pow10(idx - 1) <= val < Pow10(idx + 1)
  {
    idx := if val != 0 then 1 + FloorLog2(val) * 3 / 10 else 0;
    pow10 := SwitchPow10(idx);
    if val != 0 {
      FirstGuess(val);
      SwitchIsPower(idx);
    }
  }

  /** `floor_log10`: the power of ten and the number of digits. All products are taken modulo 2^64. */
  method FloorLog10(val: nat) returns (pow10: nat, idx: nat)
    requires val < TWO_TO_THE_64
    ensures pow10 == Decade(val)
    ensures val == 0 ==> idx == 0 && pow10 == 1
    ensures val > 0 ==> idx > 0 && pow10 == Pow10(idx - 1) <= val < Pow10(idx)
  {
    pow10, idx := Guess(val);
    var bump := if val / 10 >= pow10 then 1 else 0;
    if val != 0 {
      OneBump(val, idx - 1, pow10);
    }
    idx := idx + bump;
    pow10 := (if bump == 1 then pow10 * 10 else pow10) % TWO_TO_THE_64;
  }

  lemma OneBump(val: nat, k: nat, p: nat)
    requires p == Pow10(k) <= val < Pow10(k + 2)
    ensures val / 10 >= p ==> 10 * p == Pow10(k + 1) == Decade(val) <= val < Pow10(k + 2)
    ensures val / 10 < p ==> p == Pow10(k) == Decade(val) && val < Pow10(k + 1)
  {
    assert Pow10(k + 1) == 10 * Pow10(k) && Pow10(k + 2) == 10 * Pow10(k + 1);
    DecadeIsPower(val, if val / 10 >= p then k + 1 else k);
  }

  lemma FirstGuess(val: nat)
    requires 0 < val < TWO_TO_THE_64
    ensures var k := FloorLog2(val) * 3 / 10;
            k < 20 && Pow10(k) <= val < Pow10(k + 2)
  {
    FloorLog2Bounds(val);
    BelowSixtyFour(val);
    Estimate(FloorLog2(val));
  }

  lemma BelowSixtyFour(val: nat)
    requires 0 < val < TWO_TO_THE_64
    ensures FloorLog2(val) < 64
  {
    FloorLog2Bounds(val);
    if FloorLog2(val) >= 64 {
      Pow2Of64();
      Pow2Grows(64, FloorLog2(val));
    }
  }

  lemma Pow2Of64()
    ensures Pow2(64) == TWO_TO_THE_64
  {
    assert Pow2(8) == 256;
    Pow2Sum(8, 8);
    Pow2Sum(16, 16);
    Pow2Sum(32, 32);
  }

  lemma {:induction false} Pow2Grows(j: nat, k: nat)
    requires j <= k
    ensures Pow2(j) <= Pow2(k)
    decreases k
  {
    if j < k {
      Pow2Grows(j, k - 1);
    }
  }

  /** The value a sample is stored under: its leading digit followed by zeros. */
  function Trunc(x: nat): nat {
    NonNegative(x, Decade(x));
    x / Decade(x) * Decade(x)
  }

  lemma TruncStep(x: nat)
    requires x >= 10
    ensures Trunc(x) == 10 * Trunc(x / 10)
  {
    var d := Decade(x / 10);
    var q, r := x / 10 / d, x / 10 % d;
    assert x / 10 == q * d + r;
    assert x == q * (10 * d) + (10 * r + x % 10);
    DivMod(x, q, 10 * r + x % 10, 10 * d);
  }

  /** The leading digit. */
  function Lead(x: nat): nat {
    if x < 10 then x else Lead(x / 10)
  }

  /** Truncation never goes up, and loses less than one unit of the leading digit; nothing of 0. */
  lemma TruncIsBelow(x: nat)
    ensures Trunc(x) <= x < Trunc(x) + Decade(x)
    ensures Trunc(0) == 0
  {
    Division(x, Decade(x));
  }

  /** Truncation keeps the leading digit, which is not zero, and loses less than one unit of it. */
  lemma {:induction false} TruncKeepsLeadingDigit(x: nat)
    requires x > 0
    ensures 1 <= Lead(x) <= 9 && Trunc(x) == Lead(x) * Decade(x)
    ensures Trunc(x) <= x < Trunc(x) + Decade(x)
    ensures x < 2 * Trunc(x)
  {
    if x >= 10 {
      TruncKeepsLeadingDigit(x / 10);
      TruncStep(x);
      Tenfold(Lead(x), Decade(x / 10));
    }
    Scaled(1, Lead(x), Decade(x));
  }

  lemma Tenfold(a: nat, d: nat)
    ensures 10 * (a * d) == a * (10 * d)
  {
  }

  lemma {:induction false} TruncMonotone(x: nat, y: nat)
    requires x <= y
    ensures Trunc(x) <= Trunc(y)
  {
    if x >= 10 {
      TruncMonotone(x / 10, y / 10);
      TruncStep(x);
      TruncStep(y);
    } else if y >= 10 {
      TruncStep(y);
      TruncKeepsLeadingDigit(y / 10);
      assert Trunc(y / 10) >= 1 by {
        assert x <= 9 && Decade(y / 10) >= 1;
        TruncPositive(y / 10);
      }
    }
  }

  lemma TruncPositive(x: nat)
    requires x > 0
    ensures Trunc(x) >= 1
  {
    TruncKeepsLeadingDigit(x);
  }

  // ---------- ewma ----------

  /** One sample of the moving average, as mathematical integers. */
  function Smooth(s: nat, w: nat, v: nat): nat
    requires w > 0
  {
    DivBelow(s, w);
    s - s / w + v
  }

  /** One sample, exactly: `w` times the new state is `w - 1` times the old one and `w` times the sample,
      and the remainder that the division lost. */
  lemma SmoothIs(s: nat, w: nat, v: nat)
    requires w > 0
    ensures w * Smooth(s, w, v) == (w - 1) * s + s % w + w * v
  {
    var q, r := s / w, s % w;
    Division(s, w);
    assert w * (s - q + v) == w * s - w * q + w * v;
    assert (w - 1) * s == w * s - s && w * q == q * w;
  }

  lemma DivBelow(s: nat, w: nat)
    requires w > 0
    ensures s / w <= s
  {
    Division(s, w);
    Scaled(1, w, s / w);
  }

  /** `n` samples of the same value. */
  function SmoothMany(s: nat, w: nat, v: nat, n: nat): nat
    requires w > 0
    decreases n
  {
    if n == 0 then s else SmoothMany(Smooth(s, w, v), w, v, n - 1)
  }

  /** While every sample lies in `[lo, hi]`, so does the average, once it is there. */
  lemma AverageStaysInside(s: nat, w: nat, v: nat, lo: nat, hi: nat)
    requires w > 0 && lo <= v <= hi && lo <= s / w <= hi
    ensures lo <= Smooth(s, w, v) / w <= hi
    ensures Smooth(s, w, v) < hi * w + w
  {
    Division(s, w);
    StepStaysInside(s / w, s % w, w, v, lo, hi);
    Between(Smooth(s, w, v), w, lo, hi);
  }

  lemma StepStaysInside(q: nat, r: nat, w: nat, v: nat, lo: nat, hi: nat)
    requires r < w && lo <= v <= hi && lo <= q <= hi
    ensures lo * w <= q * w + r - q + v < hi * w + w
  {
    Scaled(lo, q, w - 1);
    Scaled(q, hi, w - 1);
    assert q * (w - 1) == q * w - q && lo * (w - 1) == lo * w - lo && hi * (w - 1) == hi * w - hi;
  }

  lemma Between(t: nat, w: nat, lo: nat, hi: nat)
    requires w > 0 && lo * w <= t < hi * w + w
    ensures lo <= t / w <= hi
  {
    var q := t / w;
    Division(t, w);
    if q < lo {
      Scaled(q + 1, lo, w);
    } else if q > hi {
      Scaled(hi + 1, q, w);
    }
  }

  /** How far the state is from the first one whose average is `v`. */
  function Distance(s: nat, w: nat, v: nat): nat {
    if s >= v * w then s - v * w else v * w - s
  }

  lemma SmoothApproaches(s: nat, w: nat, v: nat)
    requires w > 0
    ensures s / w == v ==> Smooth(s, w, v) == s
    ensures s / w != v ==> Distance(Smooth(s, w, v), w, v) < Distance(s, w, v) || Smooth(s, w, v) / w == v
  {
    if s / w > v {
      SmoothFromAbove(s, w, v);
    } else if s / w < v {
      SmoothFromBelow(s, w, v);
    }
  }

  lemma SmoothFromAbove(s: nat, w: nat, v: nat)
    requires w > 0 && s / w > v
    ensures v * w <= Smooth(s, w, v) < s
  {
    AverageStaysInside(s, w, v, v, s / w);
    AtLeast(Smooth(s, w, v), w, v);
  }

  lemma SmoothFromBelow(s: nat, w: nat, v: nat)
    requires w > 0 && s / w < v
    ensures s < v * w && s < Smooth(s, w, v)
    ensures Smooth(s, w, v) >= v * w ==> Smooth(s, w, v) / w == v
  {
    Division(s, w);
    Scaled(s / w + 1, v, w);
    AverageStaysInside(s, w, v, s / w, v);
    if Smooth(s, w, v) >= v * w {
      Between(Smooth(s, w, v), w, v, v);
    }
  }

  lemma AtLeast(t: nat, w: nat, v: nat)
    requires w > 0 && t / w >= v
    ensures t >= v * w
  {
    Division(t, w);
    Scaled(v, t / w, w);
  }

  /** Fed one value, the average reaches it in finitely many steps and never leaves it. */
  lemma {:induction false} AverageConverges(s: nat, w: nat, v: nat, n: nat)
    requires w > 0 && (n >= Distance(s, w, v) || s / w == v)
    ensures SmoothMany(s, w, v, n) / w == v
    decreases n
  {
    SmoothApproaches(s, w, v);
    if n > 0 {
      AverageConverges(Smooth(s, w, v), w, v, n - 1);
    } else if s / w != v {
      assert s == v * w;
      Between(s, w, v, v);
    }
  }

  /** The state is less than `x` away from `v w`, or already averages to `v`. */
  predicate Near(s: nat, w: nat, v: nat, x: nat)
    requires w > 0
  {
    Distance(s, w, v) < x || s / w == v
  }

  /** A state at least `w m` away gets at least `m` closer, or arrives. */
  lemma Decreases(s: nat, w: nat, v: nat, m: nat)
    requires w > 0 && m > 0 && s / w != v && Distance(s, w, v) >= w * m
    ensures Distance(Smooth(s, w, v), w, v) + m <= Distance(s, w, v) || Smooth(s, w, v) / w == v
  {
    var t, q := Smooth(s, w, v), s / w;
    Division(s, w);
    if q > v {
      AtLeast(s, w, v);
      assert s >= (v + m) * w;
      QuotientAtLeast(s, w, v + m);
      AverageStaysInside(s, w, v, v, q);
      AtLeast(t, w, v);
    } else {
      Scaled(q + 1, v, w);
      assert q * w + m * w <= v * w;
      FewerMultiples(q, m, v, w);
      AverageStaysInside(s, w, v, q, v);
      if t >= v * w { Between(t, w, v, v); }
    }
  }

  lemma QuotientAtLeast(s: nat, w: nat, x: nat)
    requires w > 0 && s >= x * w
    ensures s / w >= x
  {
    Division(s, w);
    if s / w < x {
      Scaled(s / w + 1, x, w);
    }
  }

  lemma FewerMultiples(a: nat, b: nat, c: nat, w: nat)
    requires w > 0 && a * w + b * w <= c * w
    ensures a + b <= c
  {
    assert (a + b) * w == a * w + b * w;
    if a + b > c {
      Scaled(c + 1, a + b, w);
    }
  }

  lemma NearStep(s: nat, w: nat, v: nat, m: nat, x: nat)
    requires w > 0 && m > 0 && x >= m && Near(s, w, v, w * m + x)
    ensures Near(Smooth(s, w, v), w, v, w * m + (x - m))
  {
    SmoothApproaches(s, w, v);
    if s / w != v && Distance(s, w, v) >= w * m {
      Decreases(s, w, v, m);
    }
  }

  /** `j` samples bring a state within `w m + j m` to within `w m`. */
  lemma {:induction false} NearMany(s: nat, w: nat, v: nat, m: nat, j: nat)
    requires w > 0 && m > 0 && Near(s, w, v, w * m + j * m)
    ensures Near(SmoothMany(s, w, v, j), w, v, w * m)
    decreases j
  {
    if j > 0 {
      assert j * m == (j - 1) * m + m;
      Scaled(1, j, m);
      NearStep(s, w, v, m, j * m);
      NearMany(Smooth(s, w, v), w, v, m, j - 1);
    }
  }

  lemma {:induction false} SmoothManySum(s: nat, w: nat, v: nat, a: nat, b: nat)
    requires w > 0
    ensures SmoothMany(s, w, v, a + b) == SmoothMany(SmoothMany(s, w, v, a), w, v, b)
    decreases a
  {
    if a > 0 {
      SmoothManySum(Smooth(s, w, v), w, v, a - 1, b);
    }
  }

  /** Every `w` samples of the same value halve the distance, so the average arrives after about
      `w` times the binary logarithm of its first distance, and stays. */
  lemma {:induction false} AverageConvergesFast(s: nat, w: nat, v: nat, k: nat, n: nat)
    requires w > 0 && Distance(s, w, v) < w * Pow2(k) && n >= w * (k + 1)
    ensures SmoothMany(s, w, v, n) / w == v
    decreases k
  {
    HalvesIn(s, w, v, k);
    assert w * (k + 1) == w * k + w;
    var t := SmoothMany(s, w, v, w * k);
    SmoothManySum(s, w, v, w * k, n - w * k);
    AverageConverges(t, w, v, n - w * k);
  }

  lemma {:induction false} HalvesIn(s: nat, w: nat, v: nat, k: nat)
    requires w > 0 && Near(s, w, v, w * Pow2(k))
    ensures w * k >= 0 && Near(SmoothMany(s, w, v, w * k), w, v, w)
    decreases k
  {
    Scaled(0, k, w);
    if k > 0 {
      var m, t, n := Pow2(k - 1), SmoothMany(s, w, v, w), w * (k - 1);
      TwiceNear(s, w, v, m);
      Scaled(0, k - 1, w);
      HalvesIn(t, w, v, k - 1);
      SmoothManySum(s, w, v, w, n);
      OneMoreRound(w, k);
    }
  }

  lemma TwiceNear(s: nat, w: nat, v: nat, m: nat)
    requires w > 0 && m > 0 && Near(s, w, v, w * (2 * m))
    ensures Near(SmoothMany(s, w, v, w), w, v, w * m)
  {
    assert w * (2 * m) == w * m + w * m;
    NearMany(s, w, v, m, w);
  }

  lemma OneMoreRound(w: nat, k: nat)
    requires k > 0
    ensures w * k == w + w * (k - 1)
  {
  }

  /** `ewma<L2W>`: `avg_shl_` is 2^L2W times the average, kept modulo 2^64. */
  class Ewma {
    const l2w: nat
    var avgShl: nat

    constructor (l2w: nat)
      requires l2w < 64
      ensures this.l2w == l2w && avgShl == 0
    {
      this.l2w := l2w;
      avgShl := 0;
    }

    /** Exact unless the true sum needs more than 64 bits, when it wraps around. */
    method Sample(val: nat)
      requires avgShl < TWO_TO_THE_64 && val < TWO_TO_THE_64
      modifies this
      ensures avgShl == (old(avgShl) - old(avgShl) / Pow2(l2w) + val) % TWO_TO_THE_64
      ensures avgShl == Smooth(old(avgShl), Pow2(l2w), val) % TWO_TO_THE_64
    {
      ShrDivides(avgShl, l2w);
      DivBelow(avgShl, Pow2(l2w));
      avgShl := (avgShl - Shr(avgShl, l2w) + val) % TWO_TO_THE_64;
    }

    /** Many samples: within the bound below which nothing wraps, the state is the weighted sum. */
    method SampleAll(vals: seq<nat>, ghost hi: nat)
      requires (forall i :: 0 <= i < |vals| ==> vals[i] <= hi) && avgShl / Pow2(l2w) <= hi
      requires avgShl < TWO_TO_THE_64 && (hi + 1) * Pow2(l2w) <= TWO_TO_THE_64
      modifies this
      ensures avgShl == SmoothAll(old(avgShl), Pow2(l2w), vals) < TWO_TO_THE_64 && avgShl / Pow2(l2w) <= hi
      ensures var w, p := Pow2(l2w), Power(Pow2(l2w), |vals|);
        Weighted(old(avgShl), w, vals) <= p * avgShl <= Weighted(old(avgShl), w, vals) + p * (w - 1)
    {
      ghost var s, w := avgShl, Pow2(l2w);
      Scaled(1, w, hi + 1);
      var i := 0;
      while i < |vals|
        invariant i <= |vals| && avgShl == SmoothAll(s, w, vals[..i]) < TWO_TO_THE_64 && avgShl / w <= hi
      {
        NoWrapAround(avgShl, w, vals[i], hi);
        assert vals[..i + 1][..i] == vals[..i];
        Sample(vals[i]);
        i := i + 1;
      }
      assert vals[..i] == vals;
      AverageIsWeighted(s, w, vals);
    }
  }

  // ---------- what the average is an average of ----------

  function Power(b: nat, n: nat): nat {
    if n == 0 then 1 else b * Power(b, n - 1)
  }

  lemma {:induction false} PowerOfTwo(n: nat)
    ensures Power(2, n) == Pow2(n)
  {
    if n > 0 {
      PowerOfTwo(n - 1);
    }
  }

  /** The state after some samples. */
  function SmoothAll(s: nat, w: nat, vs: seq<nat>): nat
    requires w > 0
  {
    if vs == [] then s else Smooth(SmoothAll(s, w, vs[..|vs| - 1]), w, vs[|vs| - 1])
  }

  lemma {:induction false} SameSamples(s: nat, w: nat, v: nat, n: nat)
    requires w > 0
    ensures SmoothMany(s, w, v, n) == SmoothAll(s, w, seq(n, _ => v))
    decreases n
  {
    if n > 0 {
      SmoothManySum(s, w, v, n - 1, 1);
      assert SmoothMany(SmoothMany(s, w, v, n - 1), w, v, 1)
          == SmoothMany(Smooth(SmoothMany(s, w, v, n - 1), w, v), w, v, 0);
      SameSamples(s, w, v, n - 1);
      var vs := seq(n, _ => v);
      assert vs[..n - 1] == seq(n - 1, _ => v);
    }
  }

  /** The first `k` of `n` samples with their weights: each sample after one divides its weight by
      `w / (w - 1)`. All weights are multiplied by `w^n`, so that they are whole numbers. */
  function Weights(w: nat, vs: seq<nat>, n: nat, k: nat): nat
    requires w > 0 && k <= |vs| && k <= n
  {
    if k == 0 then 0 else Weights(w, vs, n, k - 1) + Times(Power(w - 1, n - k), Times(Power(w, k), vs[k - 1]))
  }

  function Times(a: nat, b: nat): nat {
    Scaled(0, a, b);
    a * b
  }

  /** The exponentially weighted sum of the first state and the samples, times `w^n`. */
  function Weighted(s: nat, w: nat, vs: seq<nat>): nat
    requires w > 0
  {
    Times(Power(w - 1, |vs|), s) + Weights(w, vs, |vs|, |vs|)
  }

  lemma {:induction false} WeightsLater(w: nat, vs: seq<nat>, n: nat, k: nat)
    requires w > 0 && k <= |vs| && k <= n
    ensures Weights(w, vs, n + 1, k) == (w - 1) * Weights(w, vs, n, k)
  {
    if k > 0 {
      WeightsLater(w, vs, n, k - 1);
      OneMore(w - 1, Power(w - 1, n - k), Times(Power(w, k), vs[k - 1]), Weights(w, vs, n, k - 1));
    }
  }

  lemma OneMore(b: nat, p: nat, x: nat, sum: nat)
    ensures b * sum + Times(b * p, x) == b * (sum + Times(p, x))
  {
    assert (b * p) * x == b * (p * x);
  }

  lemma {:induction false} WeightsPrefix(w: nat, vs: seq<nat>, us: seq<nat>, n: nat, k: nat)
    requires w > 0 && k <= |vs| <= |us| && k <= n && us[..|vs|] == vs
    ensures Weights(w, us, n, k) == Weights(w, vs, n, k)
  {
    if k > 0 {
      WeightsPrefix(w, vs, us, n, k - 1);
      assert us[k - 1] == us[..|vs|][k - 1];
    }
  }

  lemma WeightedNext(s: nat, w: nat, vs: seq<nat>)
    requires w > 0 && vs != []
    ensures var n := |vs| - 1;
      Weighted(s, w, vs) == (w - 1) * Weighted(s, w, vs[..n]) + Times(Power(w, n + 1), vs[n])
  {
    var n := |vs| - 1;
    WeightsPrefix(w, vs[..n], vs, n + 1, n);
    WeightsLater(w, vs[..n], n, n);
    OneMore(w - 1, Power(w - 1, n), s, Weights(w, vs[..n], n, n));
  }

  /** After any samples the state is the exponentially weighted sum of them, with an error below `w`, so
      the average is right to within one. */
  lemma {:induction false} AverageIsWeighted(s: nat, w: nat, vs: seq<nat>)
    requires w > 0
    ensures var p := Power(w, |vs|);
      Weighted(s, w, vs) <= p * SmoothAll(s, w, vs) <= Weighted(s, w, vs) + p * (w - 1)
  {
    if vs != [] {
      var n := |vs| - 1;
      AverageIsWeighted(s, w, vs[..n]);
      WeightedNext(s, w, vs);
      var t := SmoothAll(s, w, vs[..n]);
      SmoothIs(t, w, vs[n]);
      Division(t, w);
      WeightedStep(Power(w, n), w, t, Smooth(t, w, vs[n]), t % w, vs[n], Weighted(s, w, vs[..n]));
    } else {
      assert Weighted(s, w, vs) == s;
    }
  }

  lemma WeightedStep(p: nat, w: nat, t: nat, t': nat, r: nat, v: nat, sum: nat)
    requires w > 0 && r <= w - 1 && sum <= p * t <= sum + p * (w - 1)
    requires w * t' == (w - 1) * t + r + w * v
    ensures (w - 1) * sum + w * p * v <= w * p * t' <= (w - 1) * sum + w * p * v + w * p * (w - 1)
  {
    var b := w - 1;
    StepTimes(p, w, t, t', r, v);
    Scaled(sum, p * t, b);
    Scaled(p * t, sum + p * b, b);
    Scaled(r, b, p);
    Scaled(0, r, p);
    WeightBound(b, p, sum);
    Enclosed(w * p * t', (p * t) * b, r * p, w * p * v, sum * b, (sum + p * b) * b, b * p, (b + 1) * p * b);
  }

  lemma Enclosed(e: int, x: int, r: int, y: int, s: int, u: int, bp: int, g: int)
    requires e == x + r + y && s <= x <= u && 0 <= r <= bp && u + bp == s + g
    ensures s + y <= e <= s + y + g
  {
  }

  lemma StepTimes(p: nat, w: nat, t: nat, t': nat, r: nat, v: nat)
    requires w > 0 && w * t' == (w - 1) * t + r + w * v
    ensures w * p * t' == (p * t) * (w - 1) + r * p + w * p * v
  {
    assert w * p * t' == p * (w * t');
    assert p * ((w - 1) * t + r + w * v) == p * ((w - 1) * t) + p * r + p * (w * v);
    assert p * ((w - 1) * t) == (p * t) * (w - 1);
  }

  lemma WeightBound(b: nat, p: nat, sum: nat)
    ensures (sum + p * b) * b + b * p == sum * b + (b + 1) * p * b
  {
    assert (sum + p * b) * b == sum * b + p * b * b;
    assert (b + 1) * p * b == p * b * b + p * b;
  }

  /** No sample wraps around while the average and the samples stay below `2^64 / 2^L2W`. */
  lemma NoWrapAround(s: nat, w: nat, v: nat, hi: nat)
    requires w > 0 && v <= hi && s / w <= hi && (hi + 1) * w <= TWO_TO_THE_64
    ensures Smooth(s, w, v) % TWO_TO_THE_64 == Smooth(s, w, v)
    ensures Smooth(s, w, v) / w <= hi
  {
    AverageStaysInside(s, w, v, 0, hi);
  }
}
