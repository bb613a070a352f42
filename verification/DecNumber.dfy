/** decNumberLocal: word arithmetic and the decoding of a 34-digit coefficient. */
module DecNumber {
  import opened Bits
  import opened Counters
  import opened Facts

  const TWO_TO_THE_32: nat := 0x1_0000_0000

  /** An unsigned 32-bit result. */
  function Wrapped(x: nat): (r: nat)
    ensures r < TWO_TO_THE_32 && (x < TWO_TO_THE_32 ==> r == x)
  {
    x % TWO_TO_THE_32
  }

  // ---------- LONGMUL32HI ----------

  /** What `& 0xffff` and `>> 16` leave of a word. */
  lemma Halves(x: nat)
    ensures And(x, 0xffff) == x % 0x1_0000 && Shr(x, 16) == x / 0x1_0000
  {
    assert Pow2(16) == 0x1_0000 by { assert Pow2(8) == 256; Pow2Sum(8, 8); }
    AndMask(x, 16);
    ShrDivides(x, 16);
  }

  /** `LONGMUL32HI`: the high word of a 64-bit product; every step is taken modulo 2^32. */
  method LongMul32Hi(u: nat, v: nat) returns (w: nat)
    requires u < TWO_TO_THE_32 && v < TWO_TO_THE_32
    ensures w == u * v / TWO_TO_THE_32
  {
    Halves(u);
    Halves(v);
    var u0, u1 := And(u, 0xffff), Shr(u, 16);
    var v0, v1 := And(v, 0xffff), Shr(v, 16);
    w := MulHalves(u0, u1, v0, v1);
    assert u == u1 * 0x1_0000 + u0 && v == v1 * 0x1_0000 + v0;
  }

  method MulHalves(u0: nat, u1: nat, v0: nat, v1: nat) returns (w: nat)
    requires u0 < 0x1_0000 && u1 < 0x1_0000 && v0 < 0x1_0000 && v1 < 0x1_0000
    ensures w == (u1 * 0x1_0000 + u0) * (v1 * 0x1_0000 + v0) / TWO_TO_THE_32
  {
    ProductBound(u0, v0); ProductBound(u1, v0); ProductBound(u0, v1); ProductBound(u1, v1);
    ghost var a, b, c, d := u1 * v1, u1 * v0, u0 * v1, u0 * v0;
    var w0 := Wrapped(u0 * v0);
    Halves(w0);
    var t := Wrapped(u1 * v0 + Shr(w0, 16));
    Halves(t);
    var w1 := And(t, 0xffff);
    var w2 := Shr(t, 16);
    w1 := Wrapped(u0 * v1 + w1);
    Halves(w1);
    HighWord(a, b, c, d);
    w := Wrapped(u1 * v1 + w2 + Shr(w1, 16));
    Expanded(u0, u1, v0, v1);
  }

  lemma ProductBound(x: nat, y: nat)
    requires x < 0x1_0000 && y < 0x1_0000
    ensures 0 <= x * y <= 0xffff * 0xffff
  {
    Scaled(0, x, y);
    Products(x, y, 0xffff, 0xffff);
  }

  lemma Expanded(u0: nat, u1: nat, v0: nat, v1: nat)
    ensures (u1 * 0x1_0000 + u0) * (v1 * 0x1_0000 + v0)
         == (u1 * v1) * TWO_TO_THE_32 + (u1 * v0 + u0 * v1) * 0x1_0000 + u0 * v0
  {
  }

  /** Adding the cross products one at a time loses no carry and overflows no word. */
  lemma HighWord(a: nat, b: nat, c: nat, d: nat)
    requires a <= 0xffff * 0xffff && b <= 0xffff * 0xffff && c <= 0xffff * 0xffff && d <= 0xffff * 0xffff
    ensures var t := b + d / 0x1_0000;
      var w1 := c + t % 0x1_0000;
      var w := a + t / 0x1_0000 + w1 / 0x1_0000;
      && t < TWO_TO_THE_32 && w1 < TWO_TO_THE_32 && w < TWO_TO_THE_32
      && w == (a * TWO_TO_THE_32 + (b + c) * 0x1_0000 + d) / TWO_TO_THE_32
  {
  }

  // ---------- TODIGIT ----------

  /** `DECPOWERS[cut]`. */
  const DECPOWERS: seq<nat> := [1, 10, 100, 1000, 10000, 100000, 1000000, 10000000, 100000000, 1000000000]

  lemma DecPowersArePowers(cut: nat)
    requires cut <= 9
    ensures DECPOWERS[cut] == Pow10(cut)
    ensures Pow10(cut + 1) == 10 * Pow10(cut)
  {
    assert Pow10(0) == 1 && Pow10(1) == 10 && Pow10(2) == 100 && Pow10(3) == 1000 && Pow10(4) == 10000;
    assert Pow10(5) == 100000 && Pow10(6) == 1000000 && Pow10(7) == 10000000 && Pow10(8) == 100000000;
    assert Pow10(9) == 1000000000;
  }

  /**
   * `TODIGIT`: takes the leading digit off `u`, by binary subtraction.
   * Every value of the temporary is kept to 32 bits.
   */
  method ToDigit(u: nat, cut: nat) returns (c: nat, rest: nat)
    requires cut <= 9 && u <= 2_000_000_000 && u < Pow10(cut + 1)
    ensures c == 48 + u / Pow10(cut) && 48 <= c <= 57
    ensures rest == u % Pow10(cut)
  {
    ghost var p := Pow10(cut);
    assert u < 10 * p;
    NothingTaken(u, p);
    c := 48;
    rest := u;
    var pow := DecPower(cut);
    pow := Wrapped(pow * 2);
    assert pow == 2 * p;
    if rest > pow {
      assert cut < 9;
      pow := Wrapped(pow * 4);
      c, rest, pow := Subtract(c, rest, pow, 8, p, u);
      c, rest, pow := Subtract(c, rest, pow, 4, p, u);
    }
    c, rest, pow := Subtract(c, rest, pow, 2, p, u);
    c, rest, pow := Subtract(c, rest, pow, 1, p, u);
    BelowTen(c - 48, rest, p, u);
  }

  /** `d` units of `p` have been taken off `n`, and `rest` is left. */
  ghost predicate Taken(n: nat, d: nat, p: nat, rest: nat) {
    n == d * p + rest
  }

  lemma NothingTaken(n: nat, p: nat)
    ensures Whole(Taken(n, 0, p, n))
  {
  }

  lemma BelowTen(d: nat, rest: nat, p: nat, n: nat)
    requires Whole(Taken(n, d, p, rest)) && rest < p && n < 10 * p
    ensures d < 10 && d == n / p && rest == n % p
  {
    if d >= 10 {
      Scaled(10, d, p);
    }
    DivMod(n, d, rest, p);
  }

  method DecPower(cut: nat) returns (p: nat)
    requires cut <= 9
    ensures p == Pow10(cut) <= (if cut == 9 then 1_000_000_000 else 100_000_000)
    ensures cut == 9 ==> p == 1_000_000_000
  {
    DecPowersArePowers(cut);
    p := DECPOWERS[cut];
  }

  /** One compare and subtract, then halve: takes `bit` units of `p` off the rest of `n`, if they are there.
      The last halving is of no consequence. */
  method Subtract(c: nat, u: nat, pow: nat, bit: nat, ghost p: nat, ghost n: nat)
    returns (c': nat, u': nat, pow': nat)
    requires bit in {1, 2, 4, 8} && pow == Units(bit, p) && u < 2 * pow
    requires c >= 48 && Whole(Taken(n, c - 48, p, u))
    ensures c' >= 48 && Whole(Taken(n, c' - 48, p, u')) && u' < pow
    ensures bit > 1 ==> pow' == Units(bit / 2, p)
  {
    c', u', pow' := c, u, pow;
    if u >= pow {
      MoreTaken(n, c - 48, p, u, bit);
      u' := u' - pow;
      c' := c' + bit;
    }
    pow' := pow / 2;
  }

  /** `bit * p`, for one of the four bits. */
  function Units(bit: nat, p: nat): nat {
    if bit == 8 then 8 * p else if bit == 4 then 4 * p else if bit == 2 then 2 * p else p
  }

  lemma MoreTaken(n: nat, d: nat, p: nat, rest: nat, bit: nat)
    requires Whole(Taken(n, d, p, rest)) && bit in {1, 2, 4, 8} && rest >= Units(bit, p)
    ensures Whole(Taken(n, d + bit, p, rest - Units(bit, p)))
  {
    Together(d, bit, p);
  }

  lemma Together(d: nat, bit: nat, p: nat)
    ensures (d + bit) * p == d * p + bit * p
  {
  }

  // ---------- decoding a coefficient ----------

  /** The four words of a 128-bit decFloat, most significant first, as `DFWORD` 0 to 3 give them. */
  datatype Quad = Quad(hi: nat, mh: nat, ml: nat, lo: nat)

  predicate IsQuad(df: Quad) {
    df.hi < TWO_TO_THE_32 && df.mh < TWO_TO_THE_32 && df.ml < TWO_TO_THE_32 && df.lo < TWO_TO_THE_32
  }

  /** The tables: declet to 0..999, the same times 1000 and 1000000, and combination field to digit. */
  datatype Tables = Tables(bin: seq<nat>, bink: seq<nat>, binm: seq<nat>, msd: seq<nat>)

  predicate AreTables(t: Tables) {
    && |t.bin| == 1024 && |t.bink| == 1024 && |t.binm| == 1024 && |t.msd| == 64
    && (forall d :: 0 <= d < 1024 ==> t.bin[d] <= 999)
    && (forall d :: 0 <= d < 1024 ==> t.bink[d] == 1000 * t.bin[d])
    && (forall d :: 0 <= d < 1024 ==> t.binm[d] == 1000000 * t.bin[d])
    && (forall d :: 0 <= d <= 9 ==> t.bin[d] == d)
    && (forall m :: 0 <= m < 64 ==> t.msd[m] <= 9)
  }

  /** The decFloat as one 128-bit number. */
  function Number(df: Quad): nat {
    ((df.hi * TWO_TO_THE_32 + df.mh) * TWO_TO_THE_32 + df.ml) * TWO_TO_THE_32 + df.lo
  }

  /** Ten bits of `n`, `10 k` bits from the right. */
  function Declet(n: nat, k: nat): (d: nat)
    ensures d < 1024
    decreases k
  {
    if k == 0 then n % 1024 else Declet(n / 1024, k - 1)
  }

  /** Each declet is ten bits of the number. */
  lemma {:induction false} DecletIsBits(n: nat, k: nat)
    ensures Declet(n, k) == n / Pow2(10 * k) % 1024
    decreases k
  {
    if k > 0 {
      DecletIsBits(n / 1024, k - 1);
      Pow2Sum(10 * (k - 1), 10);
      assert Pow2(10) == 1024;
      DivideTwice(n, 1024, Pow2(10 * (k - 1)));
    }
  }

  /** The words are where a 128-bit number has them. */
  lemma WordsOfNumber(df: Quad)
    requires IsQuad(df)
    ensures Number(df) % TWO_TO_THE_32 == df.lo
    ensures Number(df) / TWO_TO_THE_32 % TWO_TO_THE_32 == df.ml
    ensures Number(df) / TWO_TO_THE_32 / TWO_TO_THE_32 % TWO_TO_THE_32 == df.mh
    ensures Number(df) / TWO_TO_THE_32 / TWO_TO_THE_32 / TWO_TO_THE_32 == df.hi
  {
    var a := df.hi * TWO_TO_THE_32 + df.mh;
    var b := a * TWO_TO_THE_32 + df.ml;
    LastWord(Number(df), b, df.lo);
    LastWord(b, a, df.ml);
    LastWord(a, df.hi, df.mh);
  }

  lemma LastWord(n: nat, q: nat, r: nat)
    requires n == q * TWO_TO_THE_32 + r && r < TWO_TO_THE_32
    ensures n / TWO_TO_THE_32 == q && n % TWO_TO_THE_32 == r
  {
  }

  /** The coefficient in base 1000, least significant limb first. */
  function Limbs(df: Quad, t: Tables): (s: seq<nat>)
    requires IsQuad(df) && AreTables(t)
    ensures |s| == 12
  {
    seq(11, k requires 0 <= k < 11 => t.bin[Declet(Number(df), k)]) + [t.msd[df.hi / 0x400_0000]]
  }

  function Thousands(s: seq<nat>): nat {
    if s == [] then 0 else s[0] + 1000 * Thousands(s[1..])
  }

  function Billions(s: seq<nat>): nat {
    if s == [] then 0 else s[0] + 1_000_000_000 * Billions(s[1..])
  }

  /** The 34-digit coefficient. */
  function Coefficient(df: Quad, t: Tables): nat
    requires IsQuad(df) && AreTables(t)
  {
    Thousands(Limbs(df, t))
  }

  /** `(w >> s) & 0x3ff`. */
  function Field(w: nat, s: nat): (r: nat)
    ensures r < 1024
  {
    And(Shr(w, s), 0x3ff)
  }

  /** `w << s` in a 32-bit word. */
  function HighPart(w: nat, s: nat): nat {
    Wrapped(w * Pow2(s))
  }

  /** `((w << s) | (x >> (32 - s))) & 0x3ff`: ten bits that lie across two words. */
  function Straddle(w: nat, s: nat, x: nat): (r: nat)
    requires s <= 32
    ensures r < 1024
  {
    And(Or(HighPart(w, s), Shr(x, 32 - s)), 0x3ff)
  }

  lemma FieldValue(w: nat, s: nat)
    ensures Field(w, s) == w / Pow2(s) % 1024
  {
    ShrDivides(w, s);
    TenBits(Shr(w, s));
  }

  lemma StraddleValue(w: nat, s: nat, x: nat)
    requires s <= 22 && x < TWO_TO_THE_32
    ensures Straddle(w, s, x) == (w * Pow2(s) + x / Pow2(32 - s)) % 1024
  {
    LowBits(x, s);
    StraddleSum(w, s, x, Shr(x, 32 - s), w * Pow2(s));
  }

  lemma StraddleSum(w: nat, s: nat, x: nat, low: nat, n: nat)
    requires s <= 22 && low == Shr(x, 32 - s) < Pow2(s) && n == w * Pow2(s)
    ensures Straddle(w, s, x) == (n + low) % 1024
  {
    HighBits(w, s, low);
    JoinedTenBits(Or(HighPart(w, s), low), n, low);
  }

  lemma BothShifts(s: nat)
    requires s <= 32
    ensures Pow2(s) * Pow2(32 - s) == TWO_TO_THE_32
  {
    TwoTo32();
    Pow2Sum(s, 32 - s);
  }

  lemma LowBits(x: nat, s: nat)
    requires s <= 32 && x < TWO_TO_THE_32
    ensures Shr(x, 32 - s) == x / Pow2(32 - s) < Pow2(s)
  {
    BothShifts(s);
    ShrDivides(x, 32 - s);
    Quotients32(x, Pow2(32 - s), Pow2(s));
  }

  lemma HighBits(w: nat, s: nat, low: nat)
    requires s <= 32 && low < Pow2(s)
    ensures Or(HighPart(w, s), low) == HighPart(w, s) + low
  {
    BothShifts(s);
    ShiftedOut(w, Pow2(s), Pow2(32 - s));
    OrDisjoint(w % Pow2(32 - s), low, s);
  }

  lemma JoinedTenBits(joined: nat, n: nat, low: nat)
    requires joined == Wrapped(n) + low
    ensures And(joined, 0x3ff) == (n + low) % 1024
  {
    TenBits(joined);
    WrappedTenBits(joined, n, low);
  }

  /** The bits that a word drops are above the lowest ten. */
  lemma WrappedTenBits(joined: nat, n: nat, low: nat)
    requires joined == Wrapped(n) + low
    ensures joined % 1024 == (n + low) % 1024
  {
    var k := n / TWO_TO_THE_32;
    assert n == k * TWO_TO_THE_32 + Wrapped(n);
    DropTen(n + low, k * 0x40_0000, joined);
  }

  lemma TenBits(x: nat)
    ensures And(x, 0x3ff) == x % 1024
  {
    assert Pow2(10) == 1024;
    AndMask(x, 10);
  }

  lemma TwoTo32()
    ensures Pow2(32) == TWO_TO_THE_32
  {
    assert Pow2(8) == 256;
    Pow2Sum(8, 8);
    Pow2Sum(16, 16);
  }

  lemma Quotients32(x: nat, q: nat, p: nat)
    requires q > 0 && p * q == TWO_TO_THE_32 && x < TWO_TO_THE_32
    ensures 0 <= x / q < p
  {
    Division(x, q);
    if x / q >= p {
      Scaled(p, x / q, q);
    }
    NonNegative(x, q);
  }

  /** Shifting a 32-bit word left drops its high bits. */
  lemma ShiftedOut(w: nat, p: nat, q: nat)
    requires p > 0 && q > 0 && p * q == TWO_TO_THE_32
    ensures w * p % TWO_TO_THE_32 == w % q * p
  {
    var m := w % q;
    Division(w, q);
    assert w * p == w / q * (p * q) + m * p by {
      assert w * p == (w / q * q + m) * p;
    }
    Scaled(m + 1, q, p);
    DivMod(w * p, w / q, m * p, TWO_TO_THE_32);
  }

  /** What is left of `n` without its three lowest declets. */
  function Drop3(n: nat): nat {
    n / 1024 / 1024 / 1024
  }

  lemma FirstDeclets(n: nat)
    ensures Declet(n, 0) == n % 1024 && Declet(n, 1) == n / 1024 % 1024 && Declet(n, 2) == n / 1024 / 1024 % 1024
  {
    assert Declet(n, 2) == Declet(n / 1024, 1);
  }

  lemma NextDeclets(n: nat)
    ensures Declet(n, 3) == Drop3(n) % 1024
    ensures Declet(n, 4) == Drop3(n) / 1024 % 1024
    ensures Declet(n, 5) == Drop3(n) / 1024 / 1024 % 1024
  {
    LaterDeclet(n, 0); LaterDeclet(n, 1); LaterDeclet(n, 2);
    FirstDeclets(Drop3(n));
  }

  lemma ThirdDeclets(n: nat)
    ensures Declet(n, 6) == Drop3(Drop3(n)) % 1024
    ensures Declet(n, 7) == Drop3(Drop3(n)) / 1024 % 1024
    ensures Declet(n, 8) == Drop3(Drop3(n)) / 1024 / 1024 % 1024
  {
    LaterDeclet(n, 3); LaterDeclet(n, 4); LaterDeclet(n, 5);
    NextDeclets(Drop3(n));
  }

  lemma LaterDeclet(n: nat, k: nat)
    ensures Declet(n, k + 3) == Declet(Drop3(n), k)
  {
    assert Declet(n, k + 3) == Declet(n / 1024, k + 2);
    assert Declet(n / 1024, k + 2) == Declet(n / 1024 / 1024, k + 1);
  }

  lemma LowDeclets(df: Quad)
    requires IsQuad(df)
    ensures df.lo % 1024 == Declet(Number(df), 0)
    ensures df.lo / 1024 % 1024 == Declet(Number(df), 1)
    ensures df.lo / 0x10_0000 % 1024 == Declet(Number(df), 2)
  {
    FirstDeclets(Number(df));
    LowWord(Number(df), (df.hi * TWO_TO_THE_32 + df.mh) * TWO_TO_THE_32 + df.ml, df.lo);
  }

  /** What is left of the number above its three, six and nine lowest declets. */
  lemma UpperParts(df: Quad)
    requires IsQuad(df)
    ensures Drop3(Number(df)) == Above3(df)
    ensures Drop3(Drop3(Number(df))) == Above6(df)
    ensures Drop3(Drop3(Drop3(Number(df)))) == Above9(df)
  {
    var y := df.hi * TWO_TO_THE_32 + df.mh;
    LowWord(Number(df), y * TWO_TO_THE_32 + df.ml, df.lo);
    MiddleWord(Above3(df), y, df.ml, df.lo);
    HighWords(Above6(df), df.hi, df.mh, df.ml);
  }

  function Above3(df: Quad): nat {
    4 * ((df.hi * TWO_TO_THE_32 + df.mh) * TWO_TO_THE_32 + df.ml) + df.lo / 0x4000_0000
  }

  function Above6(df: Quad): nat {
    16 * (df.hi * TWO_TO_THE_32 + df.mh) + df.ml / 0x1000_0000
  }

  function Above9(df: Quad): nat {
    64 * df.hi + df.mh / 0x400_0000
  }

  lemma MiddleDeclets(df: Quad)
    requires IsQuad(df)
    ensures (df.ml * 4 + df.lo / 0x4000_0000) % 1024 == Declet(Number(df), 3)
    ensures df.ml / 0x100 % 1024 == Declet(Number(df), 4)
    ensures df.ml / 0x4_0000 % 1024 == Declet(Number(df), 5)
  {
    UpperParts(df);
    NextDeclets(Number(df));
    MiddleWord(Above3(df), df.hi * TWO_TO_THE_32 + df.mh, df.ml, df.lo);
  }

  lemma HighDeclets(df: Quad)
    requires IsQuad(df)
    ensures (df.mh * 16 + df.ml / 0x1000_0000) % 1024 == Declet(Number(df), 6)
    ensures df.mh / 0x40 % 1024 == Declet(Number(df), 7)
    ensures df.mh / 0x1_0000 % 1024 == Declet(Number(df), 8)
  {
    UpperParts(df);
    ThirdDeclets(Number(df));
    HighWords(Above6(df), df.hi, df.mh, df.ml);
  }

  lemma TopDeclets(df: Quad)
    requires IsQuad(df)
    ensures (df.hi * 64 + df.mh / 0x400_0000) % 1024 == Declet(Number(df), 9)
    ensures df.hi / 0x10 % 1024 == Declet(Number(df), 10)
  {
    UpperParts(df);
    LastDeclets(Number(df), 0); LastDeclets(Number(df), 1);
    TopWord(Above9(df), df.hi, df.mh);
  }

  lemma LastDeclets(n: nat, k: nat)
    requires k < 2
    ensures Declet(n, k + 9) == Drop3(Drop3(Drop3(n))) / (if k == 0 then 1 else 1024) % 1024
  {
    LaterDeclet(n, k + 6);
    LaterDeclet(Drop3(n), k + 3);
    LaterDeclet(Drop3(Drop3(n)), k);
    FirstDeclets(Drop3(Drop3(Drop3(n))));
  }

  /** Ten bits of one word; `p` is what the shift divides by. */
  method PickField(w: nat, s: nat, ghost p: nat) returns (d: nat)
    requires p == Pow2(s)
    ensures d == w / p % 1024
  {
    FieldValue(w, s);
    d := Field(w, s);
  }

  /** Ten bits across two words. */
  method PickStraddle(w: nat, s: nat, x: nat, ghost p: nat, ghost q: nat) returns (d: nat)
    requires s <= 22 && x < TWO_TO_THE_32 && p == Pow2(s) && q == Pow2(32 - s)
    ensures d == (w * p + x / q) % 1024
  {
    StraddleValue(w, s, x);
    d := Straddle(w, s, x);
  }

  /** The expressions of the macros: each picks the declet it is meant to pick. */
  method ReadDeclet(df: Quad, k: nat) returns (d: nat)
    requires IsQuad(df) && k < 11
    ensures d == Declet(Number(df), k)
  {
    if k < 3 {
      d := ReadLow(df, k);
    } else if k < 6 {
      d := ReadMiddle(df, k);
    } else if k < 9 {
      d := ReadHigh(df, k);
    } else {
      d := ReadTop(df, k);
    }
  }

  method ReadLow(df: Quad, k: nat) returns (d: nat)
    requires IsQuad(df) && k < 3
    ensures d == Declet(Number(df), k)
  {
    Powers();
    LowDeclets(df);
    if k == 0 {
      d := PickField(df.lo, 0, 1);
    } else if k == 1 {
      d := PickField(df.lo, 10, 1024);
    } else {
      d := PickField(df.lo, 20, 0x10_0000);
    }
  }

  method ReadMiddle(df: Quad, k: nat) returns (d: nat)
    requires IsQuad(df) && 3 <= k < 6
    ensures d == Declet(Number(df), k)
  {
    Powers();
    MiddleDeclets(df);
    if k == 3 {
      d := PickStraddle(df.ml, 2, df.lo, 4, 0x4000_0000);
    } else if k == 4 {
      d := PickField(df.ml, 8, 0x100);
    } else {
      d := PickField(df.ml, 18, 0x4_0000);
    }
  }

  method ReadHigh(df: Quad, k: nat) returns (d: nat)
    requires IsQuad(df) && 6 <= k < 9
    ensures d == Declet(Number(df), k)
  {
    Powers();
    HighDeclets(df);
    if k == 6 {
      d := PickStraddle(df.mh, 4, df.ml, 16, 0x1000_0000);
    } else if k == 7 {
      d := PickField(df.mh, 6, 0x40);
    } else {
      d := PickField(df.mh, 16, 0x1_0000);
    }
  }

  method ReadTop(df: Quad, k: nat) returns (d: nat)
    requires IsQuad(df) && 9 <= k < 11
    ensures d == Declet(Number(df), k)
  {
    Powers();
    TopDeclets(df);
    if k == 9 {
      d := PickStraddle(df.hi, 6, df.mh, 64, 0x400_0000);
    } else {
      d := PickField(df.hi, 4, 0x10);
    }
  }

  /** The combination field. */
  method ReadComb(df: Quad) returns (m: nat)
    requires IsQuad(df)
    ensures m == df.hi / 0x400_0000 < 64
  {
    Powers();
    ShrDivides(df.hi, 26);
    m := Shr(df.hi, 26);
  }

  /** One limb of the coefficient in base 1000. */
  method ReadLimb(df: Quad, t: Tables, k: nat) returns (x: nat)
    requires IsQuad(df) && AreTables(t) && k < 12
    ensures x == Limbs(df, t)[k] && x <= if k < 11 then 999 else 9
  {
    if k < 11 {
      var d := ReadDeclet(df, k);
      x := t.bin[d];
    } else {
      var m := ReadComb(df);
      x := t.msd[m];
    }
  }

  lemma Powers()
    ensures Pow2(0) == 1 && Pow2(2) == 4 && Pow2(4) == 0x10 && Pow2(6) == 0x40 && Pow2(8) == 0x100
    ensures Pow2(10) == 0x400 && Pow2(16) == 0x1_0000 && Pow2(18) == 0x4_0000 && Pow2(20) == 0x10_0000
    ensures Pow2(26) == 0x400_0000 && Pow2(28) == 0x1000_0000 && Pow2(30) == 0x4000_0000
  {
    assert Pow2(0) == 1 && Pow2(2) == 4 && Pow2(4) == 16 && Pow2(6) == 64 && Pow2(8) == 256 && Pow2(10) == 1024;
    Pow2Sum(8, 8); Pow2Sum(10, 8); Pow2Sum(10, 10); Pow2Sum(20, 6); Pow2Sum(20, 8); Pow2Sum(20, 10);
  }

  lemma DropTen(n: nat, k: nat, w: nat)
    requires n == 1024 * k + w
    ensures n % 1024 == w % 1024 && n / 1024 == k + w / 1024
  {
  }

  lemma LowWord(n: nat, x: nat, lo: nat)
    requires n == x * TWO_TO_THE_32 + lo && lo < TWO_TO_THE_32
    ensures n % 1024 == lo % 1024
    ensures n / 1024 % 1024 == lo / 1024 % 1024
    ensures n / 1024 / 1024 % 1024 == lo / 0x10_0000 % 1024
    ensures n / 1024 / 1024 / 1024 == 4 * x + lo / 0x4000_0000
  {
    DropTen(n, x * 0x40_0000, lo);
    DropTen(n / 1024, x * 0x1000, lo / 1024);
    DropTen(n / 1024 / 1024, x * 4, lo / 1024 / 1024);
  }

  lemma MiddleWord(n: nat, y: nat, ml: nat, lo: nat)
    requires n == 4 * (y * TWO_TO_THE_32 + ml) + lo / 0x4000_0000
    requires ml < TWO_TO_THE_32 && lo < TWO_TO_THE_32
    ensures n % 1024 == (ml * 4 + lo / 0x4000_0000) % 1024
    ensures n / 1024 % 1024 == ml / 0x100 % 1024
    ensures n / 1024 / 1024 % 1024 == ml / 0x4_0000 % 1024
    ensures n / 1024 / 1024 / 1024 == 16 * y + ml / 0x1000_0000
  {
    var c := lo / 0x4000_0000;
    DropTen(n, y * 0x100_0000, ml * 4 + c);
    assert (ml * 4 + c) / 1024 == ml / 0x100;
    DropTen(n / 1024, y * 0x4000, ml / 0x100);
    DropTen(n / 1024 / 1024, y * 0x10, ml / 0x100 / 1024);
  }

  lemma HighWords(n: nat, hi: nat, mh: nat, ml: nat)
    requires n == 16 * (hi * TWO_TO_THE_32 + mh) + ml / 0x1000_0000
    requires mh < TWO_TO_THE_32 && ml < TWO_TO_THE_32
    ensures n % 1024 == (mh * 16 + ml / 0x1000_0000) % 1024
    ensures n / 1024 % 1024 == mh / 0x40 % 1024
    ensures n / 1024 / 1024 % 1024 == mh / 0x1_0000 % 1024
    ensures n / 1024 / 1024 / 1024 == 64 * hi + mh / 0x400_0000
  {
    var c := ml / 0x1000_0000;
    DropTen(n, hi * 0x400_0000, mh * 16 + c);
    assert (mh * 16 + c) / 1024 == mh / 0x40;
    DropTen(n / 1024, hi * 0x1_0000, mh / 0x40);
    DropTen(n / 1024 / 1024, hi * 0x40, mh / 0x40 / 1024);
  }

  lemma TopWord(n: nat, hi: nat, mh: nat)
    requires n == 64 * hi + mh / 0x400_0000 && mh < TWO_TO_THE_32
    ensures n / 1024 % 1024 == hi / 0x10 % 1024
  {
  }

  // ---------- base 1000 ----------

  function Pow1000(k: nat): (r: nat)
    ensures r > 0
  {
    if k == 0 then 1 else 1000 * Pow1000(k - 1)
  }

  lemma {:induction false} ThousandsSnoc(s: seq<nat>, x: nat)
    ensures Thousands(s + [x]) == Thousands(s) + x * Pow1000(|s|)
  {
    if s == [] {
      assert Thousands([x]) == x + 1000 * Thousands([]);
    } else {
      assert (s + [x])[1..] == s[1..] + [x];
      ThousandsSnoc(s[1..], x);
      assert x * Pow1000(|s|) == 1000 * (x * Pow1000(|s| - 1));
    }
  }

  lemma {:induction false} ThousandsUpdate(s: seq<nat>, i: nat, x: nat)
    requires i < |s|
    ensures Thousands(s[i := x]) == Thousands(s) + (x - s[i]) * Pow1000(i)
  {
    if i > 0 {
      assert s[i := x][1..] == s[1..][i - 1 := x];
      ThousandsUpdate(s[1..], i - 1, x);
      var d := x - s[i];
      assert d * Pow1000(i) == 1000 * (d * Pow1000(i - 1));
    } else {
      assert s[i := x][1..] == s[1..];
    }
  }

  /** Limbs below `k` are in range, the one at `k` may hold a carry, the others are as they were. */
  ghost predicate InProgress(s: seq<nat>, was: seq<nat>, limbs: seq<nat>, k: nat) {
    && |s| == |was| == |limbs| == 12 && k <= 11
    && (forall i :: 0 <= i < k ==> s[i] <= 999)
    && (k < 12 ==> s[k] == was[k] || (k > 0 && s[k] == was[k] + 1))
    && (forall i :: k < i < 12 ==> s[i] == was[i])
    && Thousands(s) == Thousands(was) + Thousands(limbs[..k])
  }

  /** `buf[k] +=` limb `k`, then the carry; `limbs` is what is being added to `was`. */
  method AddLimb(df: Quad, t: Tables, buf: array<nat>, k: nat, ghost was: seq<nat>, ghost limbs: seq<nat>)
    requires IsQuad(df) && AreTables(t) && limbs == Limbs(df, t)
    requires k < 11 && buf.Length == 12 && Whole(InProgress(buf[..], was, limbs, k)) && was[k] <= 999
    modifies buf
    ensures Whole(InProgress(buf[..], was, limbs, k + 1))
  {
    var x := ReadLimb(df, t, k);
    AddCarry(buf, k, x, was, limbs);
  }

  method AddCarry(buf: array<nat>, k: nat, x: nat, ghost was: seq<nat>, ghost limbs: seq<nat>)
    requires k < 11 && buf.Length == 12 && Whole(InProgress(buf[..], was, limbs, k))
    requires was[k] <= 999 && limbs[k] <= 999 && x == limbs[k]
    modifies buf
    ensures Whole(InProgress(buf[..], was, limbs, k + 1))
  {
    ghost var s := buf[..];
    buf[k] := buf[k] + x;
    if buf[k] > 999 {
      buf[k] := buf[k] - 1000;
      buf[k + 1] := buf[k + 1] + 1;
      assert buf[..] == s[k := s[k] + x - 1000][k + 1 := s[k + 1] + 1];
    } else {
      assert buf[..] == s[k := s[k] + x];
    }
    Carried(s, buf[..], was, limbs, k);
  }

  lemma Carried(s: seq<nat>, s': seq<nat>, was: seq<nat>, limbs: seq<nat>, k: nat)
    requires k < 11 && InProgress(s, was, limbs, k) && was[k] <= 999 && limbs[k] <= 999
    requires s' == if s[k] + limbs[k] > 999 then s[k := s[k] + limbs[k] - 1000][k + 1 := s[k + 1] + 1]
                   else s[k := s[k] + limbs[k]]
    ensures InProgress(s', was, limbs, k + 1)
  {
    var x := limbs[k];
    assert limbs[..k + 1] == limbs[..k] + [x];
    ThousandsSnoc(limbs[..k], x);
    CarryKeepsSum(s, x, k);
  }

  /** A carry moves 1000 units of one limb into one unit of the next. */
  lemma CarryKeepsSum(s: seq<nat>, x: nat, k: nat)
    requires k + 1 < |s|
    ensures Thousands(s[k := s[k] + x]) == Thousands(s) + x * Pow1000(k)
    ensures s[k] + x > 999 ==>
      Thousands(s[k := s[k] + x - 1000][k + 1 := s[k + 1] + 1]) == Thousands(s) + x * Pow1000(k)
  {
    ThousandsUpdate(s, k, s[k] + x);
    if s[k] + x > 999 {
      var t := s[k := s[k] + x - 1000];
      ThousandsUpdate(s, k, s[k] + x - 1000);
      ThousandsUpdate(t, k + 1, s[k + 1] + 1);
      Cancels(x, Pow1000(k));
    }
  }

  lemma Cancels(x: nat, p: nat)
    ensures (x - 1000) * p + 1 * (1000 * p) == x * p
  {
  }

  /** `buf[k] =` limb `k`. */
  method PutLimb(df: Quad, t: Tables, buf: array<nat>, k: nat, ghost s: seq<nat>)
    requires IsQuad(df) && AreTables(t) && s == Limbs(df, t)
    requires k < buf.Length == 12 && Whole(StoredTo(buf[..], s, k))
    modifies buf
    ensures Whole(StoredTo(buf[..], s, k + 1))
  {
    var x := ReadLimb(df, t, k);
    buf[k] := x;
  }

  predicate StoredTo(b: seq<nat>, s: seq<nat>, k: nat) {
    |b| == |s| >= k && b[..k] == s[..k]
  }

  lemma AllStored(b: seq<nat>, s: seq<nat>)
    requires Whole(StoredTo(b, s, |s|))
    ensures b == s
  {
    assert b == b[..|s|] && s == s[..|s|];
  }

  /** `GETCOEFFTHOU`. */
  method GetCoeffThou(df: Quad, t: Tables, buf: array<nat>)
    requires IsQuad(df) && AreTables(t) && buf.Length == 12
    modifies buf
    ensures buf[..] == Limbs(df, t)
    ensures forall k :: 0 <= k < 11 ==> buf[k] == t.bin[Number(df) / Pow2(10 * k) % 1024]
    ensures buf[11] == t.msd[df.hi / 0x400_0000]
    ensures Thousands(buf[..]) == Coefficient(df, t)
    ensures (forall i :: 0 <= i < 11 ==> buf[i] <= 999) && buf[11] <= 9
  {
    StoreThou(df, t, buf);
    LimbsInRange(df, t);
    forall k | 0 <= k < 11 ensures buf[k] == t.bin[Number(df) / Pow2(10 * k) % 1024] {
      DecletIsBits(Number(df), k);
    }
  }

  method StoreThou(df: Quad, t: Tables, buf: array<nat>)
    requires IsQuad(df) && AreTables(t) && buf.Length == 12
    modifies buf
    ensures buf[..] == Limbs(df, t)
  {
    ghost var s := Limbs(df, t);
    PutLimb(df, t, buf, 0, s);
    PutLimb(df, t, buf, 1, s);
    PutLimb(df, t, buf, 2, s);
    PutLimb(df, t, buf, 3, s);
    PutLimb(df, t, buf, 4, s);
    PutLimb(df, t, buf, 5, s);
    PutLimb(df, t, buf, 6, s);
    PutLimb(df, t, buf, 7, s);
    PutLimb(df, t, buf, 8, s);
    PutLimb(df, t, buf, 9, s);
    PutLimb(df, t, buf, 10, s);
    PutLimb(df, t, buf, 11, s);
    AllStored(buf[..], s);
  }

  lemma LimbsInRange(df: Quad, t: Tables)
    requires IsQuad(df) && AreTables(t)
    ensures forall i :: 0 <= i < 11 ==> Limbs(df, t)[i] <= 999
    ensures Limbs(df, t)[11] <= 9
  {
  }

  lemma {:induction false} ThousandsBound(s: seq<nat>)
    requires forall i :: 0 <= i < |s| ==> s[i] <= 999
    ensures Thousands(s) < Pow1000(|s|)
  {
    if s != [] {
      ThousandsBound(s[1..]);
    }
  }

  /** A coefficient has at most 34 digits. */
  lemma ThirtyFourDigits(df: Quad, t: Tables)
    requires IsQuad(df) && AreTables(t)
    ensures Coefficient(df, t) < Pow10(34)
  {
    var s := Limbs(df, t);
    LimbsInRange(df, t);
    assert s == s[..11] + [s[11]];
    ThousandsSnoc(s[..11], s[11]);
    ThousandsBound(s[..11]);
    Scaled(s[11], 9, Pow1000(11));
    ThousandIsThree(11);
    assert Pow10(34) == 10 * Pow10(33);
  }

  lemma {:induction false} ThousandIsThree(k: nat)
    ensures Pow1000(k) == Pow10(3 * k)
  {
    if k > 0 {
      ThousandIsThree(k - 1);
      Pow10Sum(3 * (k - 1), 3);
      assert Pow10(3) == 1000;
    }
  }

  /** `ADDCOEFFTHOU`: adds exactly, and leaves every limb but the top one in range. */
  method AddCoeffThou(df: Quad, t: Tables, buf: array<nat>)
    requires IsQuad(df) && AreTables(t) && buf.Length == 12
    requires (forall i :: 0 <= i < 11 ==> buf[i] <= 999) && buf[11] <= 9
    modifies buf
    ensures Thousands(buf[..]) == old(Thousands(buf[..])) + Coefficient(df, t)
    ensures (forall i :: 0 <= i < 11 ==> buf[i] <= 999) && buf[11] <= 19
  {
    ghost var was, s := buf[..], Limbs(df, t);
    assert s[..0] == [];
    AddLimb(df, t, buf, 0, was, s);
    AddLimb(df, t, buf, 1, was, s);
    AddLimb(df, t, buf, 2, was, s);
    AddLimb(df, t, buf, 3, was, s);
    AddLimb(df, t, buf, 4, was, s);
    AddLimb(df, t, buf, 5, was, s);
    AddLimb(df, t, buf, 6, was, s);
    AddLimb(df, t, buf, 7, was, s);
    AddLimb(df, t, buf, 8, was, s);
    AddLimb(df, t, buf, 9, was, s);
    AddLimb(df, t, buf, 10, was, s);
    AddTop(df, t, buf, was, s);
  }

  method AddTop(df: Quad, t: Tables, buf: array<nat>, ghost was: seq<nat>, ghost limbs: seq<nat>)
    requires IsQuad(df) && AreTables(t) && limbs == Limbs(df, t)
    requires buf.Length == 12 && Whole(InProgress(buf[..], was, limbs, 11)) && was[11] <= 9
    modifies buf
    ensures Thousands(buf[..]) == Thousands(was) + Thousands(limbs)
    ensures (forall i :: 0 <= i < 11 ==> buf[i] <= 999) && buf[11] <= 19
  {
    var x := ReadLimb(df, t, 11);
    ghost var s := buf[..];
    TopAdded(s, was, limbs, 11);
    buf[11] := buf[11] + x;
    assert buf[..] == s[11 := s[11] + x];
  }

  lemma TopAdded(s: seq<nat>, was: seq<nat>, limbs: seq<nat>, k: nat)
    requires k + 1 == |limbs| == |s| && Thousands(s) == Thousands(was) + Thousands(limbs[..k])
    ensures Thousands(s[k := s[k] + limbs[k]]) == Thousands(was) + Thousands(limbs)
  {
    ThousandsUpdate(s, k, s[k] + limbs[k]);
    assert limbs == limbs[..k] + [limbs[k]];
    ThousandsSnoc(limbs[..k], limbs[k]);
  }

  // ---------- base 10^9 ----------

  function Triple(a: nat, b: nat, c: nat): nat {
    a + 1000 * b + 1_000_000 * c
  }

  /** One limb of `GETCOEFFBILL`: three limbs of base 1000, by the pre-multiplied tables. The leading
      digit is looked up like a declet, which is right since the declets of 0 to 9 are the digits. */
  method ThreeLimbs(df: Quad, t: Tables, k: nat, ghost s: seq<nat>) returns (x: nat)
    requires IsQuad(df) && AreTables(t) && s == Limbs(df, t) && (k == 0 || k == 3 || k == 6 || k == 9)
    ensures x == Triple(s[k], s[k + 1], s[k + 2]) <= 999_999_999
  {
    var a := ReadDeclet(df, k);
    var b := ReadDeclet(df, k + 1);
    var c;
    if k < 9 {
      c := ReadDeclet(df, k + 2);
    } else {
      c := ReadComb(df);
      c := t.msd[c];
    }
    x := t.bin[a] + t.bink[b] + t.binm[c];
  }

  /** `GETCOEFFBILL`: the same coefficient, three limbs at a time. */
  method GetCoeffBill(df: Quad, t: Tables, buf: array<nat>)
    requires IsQuad(df) && AreTables(t) && buf.Length == 4
    modifies buf
    ensures Billions(buf[..]) == Coefficient(df, t)
    ensures forall i :: 0 <= i < 4 ==> buf[i] <= 999_999_999
  {
    ghost var s := Limbs(df, t);
    var a := ThreeLimbs(df, t, 0, s);
    var b := ThreeLimbs(df, t, 3, s);
    var c := ThreeLimbs(df, t, 6, s);
    var d := ThreeLimbs(df, t, 9, s);
    buf[0], buf[1], buf[2], buf[3] := a, b, c, d;
    assert buf[..] == [a, b, c, d];
    ThreeAtATime(s);
  }

  lemma ThousandsTriple(s: seq<nat>)
    requires |s| >= 3
    ensures Thousands(s) == Triple(s[0], s[1], s[2]) + 1_000_000_000 * Thousands(s[3..])
  {
    assert s[1..][1..] == s[2..] && s[2..][1..] == s[3..];
    assert Thousands(s[1..]) == s[1] + 1000 * Thousands(s[2..]);
    assert Thousands(s[2..]) == s[2] + 1000 * Thousands(s[3..]);
  }

  lemma ThreeAtATime(s: seq<nat>)
    requires |s| == 12
    ensures Billions([Triple(s[0], s[1], s[2]), Triple(s[3], s[4], s[5]),
                      Triple(s[6], s[7], s[8]), Triple(s[9], s[10], s[11])]) == Thousands(s)
  {
    var b := [Triple(s[0], s[1], s[2]), Triple(s[3], s[4], s[5]), Triple(s[6], s[7], s[8]), Triple(s[9], s[10], s[11])];
    ThousandsTriple(s);
    ThousandsTriple(s[3..]);
    ThousandsTriple(s[6..]);
    ThousandsTriple(s[9..]);
    assert s[3..][3..] == s[6..] && s[6..][3..] == s[9..] && s[9..][3..] == [];
    assert Billions(b) == b[0] + 1_000_000_000 * Billions(b[1..]);
    assert Billions(b[1..]) == b[1] + 1_000_000_000 * Billions(b[1..][1..]);
    assert b[1..][1..] == [b[2], b[3]];
    assert Billions([b[2], b[3]]) == b[2] + 1_000_000_000 * Billions([b[3]]);
    assert Billions([b[3]]) == b[3];
  }

  // ---------- what the decoders read ----------

  /** The sum of twelve limbs with their weights, written out. */
  lemma ThousandsAreWeighted(x: seq<nat>)
    requires |x| == 12
    ensures Thousands(x) == x[0] + x[1] * 1_000 + x[2] * 1_000_000 + x[3] * 1_000_000_000
      + x[4] * 1_000_000_000_000 + x[5] * 1_000_000_000_000_000 + x[6] * 1_000_000_000_000_000_000
      + x[7] * 1_000_000_000_000_000_000_000 + x[8] * 1_000_000_000_000_000_000_000_000
      + x[9] * 1_000_000_000_000_000_000_000_000_000 + x[10] * 1_000_000_000_000_000_000_000_000_000_000
      + x[11] * 1_000_000_000_000_000_000_000_000_000_000_000
  {
    ThousandsTriple(x);
    ThousandsTriple(x[3..]);
    ThousandsTriple(x[6..]);
    ThousandsTriple(x[9..]);
    assert x[3..][3..] == x[6..] && x[6..][3..] == x[9..] && x[9..][3..] == [];
  }

  lemma BillionsAreWeighted(b: seq<nat>)
    requires |b| == 4
    ensures Billions(b) == b[0] + b[1] * 1_000_000_000 + b[2] * 1_000_000_000_000_000_000
      + b[3] * 1_000_000_000_000_000_000_000_000_000
  {
    assert b[1..][1..] == b[2..] && b[2..][1..] == b[3..] && b[3..][1..] == [];
    assert Billions(b[2..]) == b[2] + 1_000_000_000 * Billions(b[3..]);
    assert Billions(b[3..]) == b[3] + 1_000_000_000 * Billions([]);
  }

  /** A quad whose ten-bit groups stand for the limbs `x[0]` to `x[10]`, lowest first, and whose
      combination field stands for the leading digit `x[11]`, has those limbs. */
  lemma LimbsAreRead(df: Quad, t: Tables, x: seq<nat>)
    requires IsQuad(df) && AreTables(t) && |x| == 12
    requires forall k :: 0 <= k < 11 ==> t.bin[Number(df) / Pow2(10 * k) % 1024] == x[k]
    requires t.msd[df.hi / 0x400_0000] == x[11]
    ensures Limbs(df, t) == x && Coefficient(df, t) == Thousands(x)
  {
    forall k | 0 <= k < 11 ensures Limbs(df, t)[k] == x[k] {
      DecletIsBits(Number(df), k);
    }
  }

  /** Encoding and decoding: from such a quad the three macros get, or add, the number with those limbs. */
  method DecodesBack(df: Quad, t: Tables, ghost x: seq<nat>, thou: array<nat>, bill: array<nat>, acc: array<nat>)
    requires IsQuad(df) && AreTables(t) && |x| == 12
    requires forall k :: 0 <= k < 11 ==> t.bin[Number(df) / Pow2(10 * k) % 1024] == x[k]
    requires t.msd[df.hi / 0x400_0000] == x[11]
    requires thou.Length == acc.Length == 12 && bill.Length == 4 && thou != acc && thou != bill && bill != acc
    requires (forall i :: 0 <= i < 11 ==> acc[i] <= 999) && acc[11] <= 9
    modifies thou, bill, acc
    ensures thou[..] == x
    ensures Billions(bill[..]) == Thousands(x)
    ensures Thousands(acc[..]) == old(Thousands(acc[..])) + Thousands(x)
  {
    LimbsAreRead(df, t, x);
    GetCoeffThou(df, t, thou);
    GetCoeffBill(df, t, bill);
    AddCoeffThou(df, t, acc);
  }
}
