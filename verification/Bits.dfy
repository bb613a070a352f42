/** Unsigned bit arithmetic on natural numbers, and what masks and shifts mean. */
module Bits {

  function Pow2(k: nat): (r: nat)
    ensures r > 0
  {
    if k == 0 then 1 else 2 * Pow2(k - 1)
  }

  /** Bitwise and. */
  function And(a: nat, b: nat): (r: nat)
    ensures r <= a && r <= b
  {
    if a == 0 || b == 0 then 0
    else 2 * And(a / 2, b / 2) + (if a % 2 == 1 && b % 2 == 1 then 1 else 0)
  }

  /** Bitwise or. */
  function Or(a: nat, b: nat): (r: nat)
    decreases a + b
  {
    if a == 0 then b else if b == 0 then a
    else 2 * Or(a / 2, b / 2) + (if a % 2 == 1 || b % 2 == 1 then 1 else 0)
  }

  function Shr(a: nat, k: nat): nat
    decreases k
  {
    if k == 0 then a else Shr(a / 2, k - 1)
  }

  lemma {:induction false} Pow2Sum(j: nat, k: nat)
    ensures Pow2(j + k) == Pow2(j) * Pow2(k)
    decreases k
  {
    if k > 0 {
      Pow2Sum(j, k - 1);
      assert Pow2(j + k) == 2 * Pow2(j + k - 1);
    }
  }

  lemma Scaled(a: int, b: int, c: nat)
    requires a <= b
    ensures a * c <= b * c
  {
  }

  lemma Products(a: nat, b: nat, c: nat, d: nat)
    requires a <= c && b <= d
    ensures a * b <= c * d
  {
    Scaled(a, c, b);
    Scaled(b, d, c);
  }

  lemma Division(s: nat, w: nat)
    requires w > 0
    ensures s == s / w * w + s % w && 0 <= s % w < w
  {
  }

  lemma NonNegative(x: nat, d: nat)
    requires d > 0
    ensures x / d >= 0 && x / d * d >= 0
  {
    Scaled(0, x / d, d);
  }

  lemma DivMod(a: nat, q: nat, r: nat, d: nat)
    requires d > 0 && a == q * d + r && r < d
    ensures a / d == q && a % d == r
  {
    var e := a / d - q;
    assert e * d == r - a % d by {
      assert a == (a / d) * d + a % d;
      assert e * d == (a / d) * d - q * d;
    }
    assert e > 0 ==> e * d >= d;
    assert e < 0 ==> e * d + d <= 0;
  }

  lemma DivideTwice(n: nat, a: nat, b: nat)
    requires a > 0 && b > 0
    ensures b * a > 0 && n / a / b == n / (b * a)
  {
    Scaled(1, b, a);
    NonNegative(n, a);
    NonNegative(n / a, b);
    Division(n, a);
    Division(n / a, b);
    Nested(n, a, b, n / a, n % a, n / a / b, n / a % b);
  }

  lemma Nested(n: nat, a: nat, b: nat, m: nat, r: nat, q: nat, k: nat)
    requires b * a > 0 && n == m * a + r && r < a && m == q * b + k && k < b
    ensures n / (b * a) == q
  {
    assert m * a == q * (b * a) + k * a;
    Scaled(k + 1, b, a);
    Scaled(0, k, a);
    DivMod(n, q, k * a + r, b * a);
  }

  lemma Halve(a: nat, d: nat)
    requires d > 0
    ensures a / (2 * d) == a / 2 / d && a % (2 * d) == 2 * (a / 2 % d) + a % 2
  {
    var q, r := a / 2 / d, a / 2 % d;
    assert a / 2 == q * d + r;
    assert a == q * (2 * d) + (2 * r + a % 2);
    DivMod(a, q, 2 * r + a % 2, 2 * d);
  }

  /** Shifting right divides by a power of two. */
  lemma {:induction false} ShrDivides(a: nat, k: nat)
    ensures Shr(a, k) == a / Pow2(k)
    decreases k
  {
    if k > 0 {
      ShrDivides(a / 2, k - 1);
      Halve(a, Pow2(k - 1));
    }
  }

  /** Masking with `2^k - 1` keeps the remainder modulo `2^k`. */
  lemma {:induction false} AndMask(a: nat, k: nat)
    ensures And(a, Pow2(k) - 1) == a % Pow2(k)
    decreases k
  {
    if k > 0 {
      AndMask(a / 2, k - 1);
      MaskTwice(a, Pow2(k - 1), Pow2(k));
    }
  }

  lemma MaskTwice(a: nat, d: nat, e: nat)
    requires d > 0 && e == 2 * d && And(a / 2, d - 1) == a / 2 % d
    ensures And(a, e - 1) == a % e
  {
    MaskStep(a, d);
    Halve(a, d);
  }

  lemma MaskStep(a: nat, d: nat)
    requires d > 0
    ensures And(a, 2 * d - 1) == 2 * And(a / 2, d - 1) + a % 2
  {
    AndOdd(a, d - 1);
  }

  lemma AndOdd(a: nat, m: nat)
    ensures And(a, 2 * m + 1) == 2 * And(a / 2, m) + a % 2
  {
    assert (2 * m + 1) / 2 == m && (2 * m + 1) % 2 == 1;
  }

  /** Or-ing a multiple of `2^k` with something below `2^k` adds them. */
  lemma {:induction false} OrDisjoint(q: nat, b: nat, k: nat)
    requires b < Pow2(k)
    ensures Or(q * Pow2(k), b) == q * Pow2(k) + b
    decreases k
  {
    if k > 0 && q > 0 && b > 0 {
      var d := Pow2(k - 1);
      assert q * Pow2(k) == 2 * (q * d);
      assert q * Pow2(k) > 0;
      OrDisjoint(q, b / 2, k - 1);
    }
  }
}
