/** strings: reading and writing decimal integers of a fixed width. */
module NumberText {
  import opened Bits
  import opened Counters
  import opened Facts

  /** `char`, taken as signed. */
  type Char = c: int | -128 <= c <= 127

  const ZERO: Char := 48
  const MINUS: Char := 45

  /** An integer type, by its largest value. */
  datatype IntType = IntType(signed: bool, max: nat)

  const INT8 := IntType(true, 0x7f)
  const INT16 := IntType(true, 0x7fff)
  const INT32 := IntType(true, 0x7fff_ffff)
  const INT64 := IntType(true, 0x7fff_ffff_ffff_ffff)
  const UINT8 := IntType(false, 0xff)
  const UINT16 := IntType(false, 0xffff)
  const UINT32 := IntType(false, 0xffff_ffff)
  const UINT64 := IntType(false, 0xffff_ffff_ffff_ffff)

  predicate SignedType(t: IntType) {
    t == INT8 || t == INT16 || t == INT32 || t == INT64
  }

  predicate UnsignedType(t: IntType) {
    t == UINT8 || t == UINT16 || t == UINT32 || t == UINT64
  }

  function Min(t: IntType): int {
    if t.signed then -(t.max as int) - 1 else 0
  }

  predicate Holds(t: IntType, x: int) {
    Min(t) <= x <= t.max
  }

  /** The ranges of the types. */
  lemma TypeRanges(x: int)
    ensures (Holds(INT8, x) <==> -128 <= x < 128) && (Holds(UINT8, x) <==> 0 <= x < 256)
    ensures (Holds(INT16, x) <==> -32768 <= x < 32768) && (Holds(UINT16, x) <==> 0 <= x < 65536)
    ensures Holds(INT32, x) <==> -2147483648 <= x < 2147483648
    ensures Holds(UINT32, x) <==> 0 <= x < 4294967296
    ensures Holds(INT64, x) <==> -9223372036854775808 <= x < 9223372036854775808
    ensures Holds(UINT64, x) <==> 0 <= x < 18446744073709551616
  {
  }

  /** A result in type `t`: unsigned types wrap around, and signed overflow must not happen. */
  function In(t: IntType, x: int): (r: int)
    requires t.signed ==> Holds(t, x)
    ensures Holds(t, r) && (Holds(t, x) ==> r == x)
  {
    if t.signed then x else x % (t.max + 1)
  }

  /** Conversion to type `t`, which keeps the low bits. */
  function Convert(t: IntType, x: int): (r: int)
    ensures Holds(t, x) ==> r == x
  {
    var m: nat := t.max + 1;
    if Holds(t, x) then x else if t.signed then (x + m) % (2 * m) - m else x % m
  }

  /** Division of C++, which truncates towards zero. */
  function Quotient(x: int, d: nat): int
    requires d > 0
  {
    if x >= 0 then x / d else -(-x / d)
  }

  datatype Option<T> = None | Some(value: T)

  // ---------- decimal text ----------

  predicate IsDigit(c: Char) {
    ZERO <= c <= ZERO + 9
  }

  predicate AllDigits(s: seq<Char>) {
    forall k :: 0 <= k < |s| ==> IsDigit(s[k])
  }

  /** The number that a string of digits denotes; 0 for the empty one. */
  function Value(s: seq<Char>): nat
    requires AllDigits(s)
  {
    if s == [] then 0 else 10 * Value(s[..|s| - 1]) + (s[|s| - 1] - ZERO)
  }

  lemma ValueSnoc(s: seq<Char>, c: Char)
    requires AllDigits(s) && IsDigit(c)
    ensures AllDigits(s + [c]) && Value(s + [c]) == 10 * Value(s) + (c - ZERO)
  {
    assert (s + [c])[..|s|] == s;
  }

  lemma {:induction false} PrefixValue(s: seq<Char>, k: nat)
    requires AllDigits(s) && k <= |s|
    ensures Value(s[..k]) <= Value(s)
    decreases |s|
  {
    if k < |s| {
      PrefixValue(s[..|s| - 1], k);
      assert s[..|s| - 1][..k] == s[..k];
    } else {
      assert s[..k] == s;
    }
  }

  /** The digit `k` places from the right is the one with weight 10^k. */
  lemma {:induction false} DigitAt(s: seq<Char>, k: nat)
    requires AllDigits(s) && k < |s|
    ensures Value(s) / Pow10(k) % 10 == s[|s| - 1 - k] - 48
    decreases k
  {
    var n := |s| - 1;
    if k > 0 {
      DigitAt(s[..n], k - 1);
      assert Value(s) / 10 == Value(s[..n]);
      DivideTwice(Value(s), 10, Pow10(k - 1));
    } else {
      assert Pow10(0) == 1;
    }
  }

  /** The text from `from` up to `n` is a number that is at most `limit`. */
  ghost predicate Fits(view: seq<Char>, from: nat, n: nat, limit: nat) {
    from <= n <= |view| && AllDigits(view[from..n]) && Value(view[from..n]) <= limit
  }

  /** `n` ends the longest such text. */
  ghost predicate Longest(view: seq<Char>, from: nat, n: nat, limit: nat) {
    Fits(view, from, n, limit) && forall m: nat :: Fits(view, from, m, limit) ==> m <= n
  }

  /** A text that cannot be extended by one character is the longest. */
  lemma CannotExtend(view: seq<Char>, from: nat, n: nat, limit: nat)
    requires Fits(view, from, n, limit)
    requires n < |view| && IsDigit(view[n]) ==> 10 * Value(view[from..n]) + (view[n] - ZERO) > limit
    ensures Longest(view, from, n, limit)
  {
    forall m: nat | Fits(view, from, m, limit) ensures m <= n {
      if m > n {
        var s := view[from..m];
        assert s[n - from] == view[n];
        assert s[..n + 1 - from] == view[from..n] + [view[n]];
        ValueSnoc(view[from..n], view[n]);
        PrefixValue(s, n + 1 - from);
      }
    }
  }

  lemma Extend(view: seq<Char>, from: nat, n: nat)
    requires from <= n < |view| && AllDigits(view[from..n]) && IsDigit(view[n])
    ensures AllDigits(view[from..n + 1])
    ensures Value(view[from..n + 1]) == 10 * Value(view[from..n]) + (view[n] - ZERO)
  {
    assert view[from..n + 1] == view[from..n] + [view[n]];
    ValueSnoc(view[from..n], view[n]);
  }

  /** `_from_string_view_unsigned`: the longest text that fits, and its value. */
  method ParseUnsigned(t: IntType, view: seq<Char>) returns (result: int, size: nat)
    requires SignedType(t) || UnsignedType(t)
    ensures Longest(view, 0, size, t.max) && result == Value(view[..size])
  {
    size := 0;
    result := 0;
    var bound := t.max;
    assert view[0..size] == [];
    assert bound >= 127;
    while size < |view|
      invariant Fits(view, 0, size, bound) && result == Value(view[0..size])
      invariant bound >= 127
    {
      var digit := Convert(t, view[size] - ZERO);
      if view[size] < ZERO || digit > 9 || bound / 10 < result {
        break;
      }
      var next := In(t, result * 10);
      if In(t, bound - next) < digit {
        break;
      }
      Extend(view, 0, size);
      result := In(t, next + digit);
      size := size + 1;
    }
    CannotExtend(view, 0, size, bound);
    assert view[..size] == view[0..size];
  }

  // ---------- the signed parser ----------

  /** The types the signed parser is instantiated for, `uint64_t` among them. */
  predicate ParsedAsSigned(t: IntType) {
    SignedType(t) || t == UINT64
  }

  /** After '-', with value `-v` so far: the digit `d` is refused. */
  predicate Refused(t: IntType, v: nat, d: nat) {
    if t.signed then 10 * v + d > -Min(t)
    else 10 * v % (t.max + 1) > -(d as int) % (t.max + 1)
  }

  /** So `uint64_t` refuses a zero behind a number other than 0, and a digit that would wrap around. */
  lemma RefusedUnsigned(v: nat, d: nat)
    requires d <= 9
    ensures Refused(UINT64, v, d) <==>
      if d == 0 then 10 * v % 18446744073709551616 != 0 else 10 * v % 18446744073709551616 > 18446744073709551616 - d
  {
  }

  /** `-v` in type `t`. */
  function Negated(t: IntType, v: nat): int {
    if t.signed then -(v as int) else -(v as int) % (t.max + 1)
  }

  lemma NegatedMeans(v: nat)
    ensures 0 <= Negated(UINT64, v) < TWO_TO_THE_64 && (Negated(UINT64, v) + v) % TWO_TO_THE_64 == 0
  {
    var m := TWO_TO_THE_64;
    WordParts(-(v as int));
    SameWord(Negated(UINT64, v) + v, 0, -(-(v as int) / m));
  }

  /** The digits from 1 up to `n` are taken one by one, and none of them is refused. */
  ghost predicate Taken(t: IntType, view: seq<Char>, n: nat) {
    && 1 <= n <= |view| && AllDigits(view[1..n])
    && forall k :: 1 <= k < n ==> !RefusedAt(t, view, k)
  }

  ghost predicate RefusedAt(t: IntType, view: seq<Char>, k: nat) {
    1 <= k < |view| && AllDigits(view[1..k]) && IsDigit(view[k])
    && Refused(t, Value(view[1..k]), view[k] - ZERO)
  }

  ghost predicate TakenUntilRefused(t: IntType, view: seq<Char>, n: nat) {
    Taken(t, view, n) && (n < |view| && IsDigit(view[n]) ==> RefusedAt(t, view, n))
  }

  /** The longest text that fits, and its value. */
  ghost predicate ReadsNatural(t: IntType, view: seq<Char>, result: int, size: nat) {
    Longest(view, 0, size, t.max) && result == Value(view[..size])
  }

  /** After '-': for a signed type the longest text whose negated value fits, and that value; for
      `uint64_t` what is not refused, and its negated value modulo 2^64. */
  ghost predicate ReadsNegative(t: IntType, view: seq<Char>, result: int, size: nat) {
    && TakenUntilRefused(t, view, size) && result == Negated(t, Value(view[1..size]))
    && (t.signed ==> Longest(view, 1, size, -Min(t)))
  }

  /** A lone '-' is not read at all. */
  ghost predicate ReadsSigned(t: IntType, view: seq<Char>, result: int, size: nat) {
    if view == [MINUS] then size == 0 && result == 0
    else if view != [] && view[0] == MINUS then ReadsNegative(t, view, result, size)
    else ReadsNatural(t, view, result, size)
  }

  /**
   * `_from_string_view_signed`: for the signed types, the longest text that fits, and its value.
   * For `uint64_t` a '-' is not refused and the value wraps around.
   */
  method ParseSigned(t: IntType, view: seq<Char>) returns (result: int, size: nat)
    requires ParsedAsSigned(t)
    ensures ReadsSigned(t, view, result, size)
    ensures view == [45] ==> result == 0 && size == 0
    ensures view == [] || view[0] != 45 ==> Longest(view, 0, size, t.max) && result == Value(view[..size])
    ensures |view| > 1 && view[0] == 45 && t.signed ==>
      Longest(view, 1, size, t.max + 1) && result == -(Value(view[1..size]) as int)
    ensures |view| > 1 && view[0] == 45 && t == UINT64 ==>
      1 <= size <= |view| && AllDigits(view[1..size]) && 0 <= result < TWO_TO_THE_64
      && (result + Value(view[1..size])) % TWO_TO_THE_64 == 0
  {
    if |view| > 0 && view[0] == MINUS {
      if |view| == 1 {
        return 0, 0;
      }
      result, size := ParseNegative(t, view);
      NegatedMeans(Value(view[1..size]));
    } else {
      result, size := ParseUnsigned(t, view);
    }
  }

  /** The branch of the signed parser for a text that starts with '-'. */
  method ParseNegative(t: IntType, view: seq<Char>) returns (result: int, size: nat)
    requires ParsedAsSigned(t) && |view| > 1
    ensures TakenUntilRefused(t, view, size) && result == Negated(t, Value(view[1..size]))
    ensures t.signed ==> Longest(view, 1, size, -Min(t))
  {
    size := 1;
    result := 0;
    ghost var v: nat := 0;
    assert view[1..size] == [];
    while size < |view|
      invariant Whole(TakenAs(t, view, size, v)) && 1 <= size <= |view|
      invariant result == Negated(t, v) && (t.signed ==> v <= -Min(t))
    {
      var next := NextNegative(t, view[size], result, v);
      if next.None? {
        break;
      }
      TakeOne(t, view, size, v);
      v := 10 * v + (view[size] - ZERO);
      result := next.value;
      size := size + 1;
    }
    StopsRefused(t, view, size, v);
  }

  /** The digits up to `n` are taken and denote `v`. */
  ghost predicate TakenAs(t: IntType, view: seq<Char>, n: nat, v: nat) {
    Taken(t, view, n) && v == Value(view[1..n])
  }

  lemma TakeOne(t: IntType, view: seq<Char>, n: nat, v: nat)
    requires TakenAs(t, view, n, v) && n < |view| && IsDigit(view[n]) && !Refused(t, v, view[n] - ZERO)
    ensures TakenAs(t, view, n + 1, 10 * v + (view[n] - ZERO))
  {
    Extend(view, 1, n);
  }

  lemma StopsRefused(t: IntType, view: seq<Char>, n: nat, v: nat)
    requires TakenAs(t, view, n, v) && (t.signed ==> v <= -Min(t))
    requires n < |view| && IsDigit(view[n]) ==> Refused(t, v, view[n] - ZERO)
    ensures TakenUntilRefused(t, view, n) && v == Value(view[1..n])
    ensures t.signed ==> Longest(view, 1, n, -Min(t))
  {
    if t.signed {
      CannotExtend(view, 1, n, -Min(t));
    }
  }

  /** One character of the loop: the next value, or `None` where the loop breaks off. */
  method NextNegative(t: IntType, c: Char, result: int, ghost v: nat) returns (r: Option<int>)
    requires ParsedAsSigned(t) && result == Negated(t, v)
    requires t.signed ==> v <= -Min(t)
    ensures r.None? <==> !IsDigit(c) || Refused(t, v, c - ZERO)
    ensures r.Some? ==> r.value == Negated(t, 10 * v + (c - ZERO))
  {
    var bound := Min(t);
    var digit := Convert(t, c - ZERO);
    if c < ZERO || digit > 9 || Quotient(bound, 10) > result {
      return None;
    }
    NegatedStep(t, v, digit);
    var next := In(t, result * 10);
    if In(t, bound - next) > In(t, -digit) {
      return None;
    }
    r := Some(In(t, next - digit));
  }

  lemma NegatedStep(t: IntType, v: nat, d: nat)
    requires ParsedAsSigned(t) && d <= 9
    requires t.signed ==> v <= -Min(t)
    requires Quotient(Min(t), 10) <= Negated(t, v)
    ensures t.signed ==> Holds(t, Negated(t, v) * 10) && Holds(t, Min(t) - Negated(t, v) * 10)
    ensures In(t, Min(t) - In(t, Negated(t, v) * 10)) > In(t, -(d as int)) <==> Refused(t, v, d)
    ensures !Refused(t, v, d) ==>
      In(t, In(t, Negated(t, v) * 10) - d) == Negated(t, 10 * v + d)
  {
    if !t.signed {
      Wraps(v, d);
    }
  }

  lemma Wraps(v: nat, d: nat)
    requires d <= 9
    ensures var m := TWO_TO_THE_64;
      var next := -(v as int) % m * 10 % m;
      && -next % m == 10 * v % m
      && (next - d) % m == -(10 * v + d) % m
  {
    var m := TWO_TO_THE_64;
    var r := -(v as int) % m;
    var k := -(v as int) / m;
    WordParts(-(v as int));
    var next, j := r * 10 % m, r * 10 / m;
    WordParts(r * 10);
    SameWord(-next, 10 * v, 10 * k + j);
    SameWord(next - d, -(10 * v + d), -10 * k - j);
  }

  lemma WordParts(a: int)
    ensures a == a / TWO_TO_THE_64 * TWO_TO_THE_64 + a % TWO_TO_THE_64
  {
  }

  lemma SameWord(a: int, b: int, k: int)
    requires a == b + k * TWO_TO_THE_64
    ensures a % TWO_TO_THE_64 == b % TWO_TO_THE_64
  {
  }

  /** A '-' that nothing numeric follows is consumed, unless it is the whole text. */
  lemma BareMinus(t: IntType, view: seq<Char>, n: nat)
    requires ParsedAsSigned(t)
    requires |view| > 1 && view[0] == MINUS && TakenUntilRefused(t, view, n)
    ensures n == 1 <==> !IsDigit(view[1])
    ensures n == 1 ==> Negated(t, Value(view[1..n])) == 0
  {
    assert view[1..1] == [];
    if n > 1 {
      assert view[1..n][0] == view[1];
      assert !RefusedAt(t, view, 1);
    }
  }

  /** The text after '-' has a digit other than '0' with only zeros before it. */
  ghost predicate NonZeroNumber(view: seq<Char>) {
    exists k: nat :: NonZeroAt(view, k)
  }

  predicate NonZeroAt(view: seq<Char>, k: nat) {
    1 <= k < |view| && IsDigit(view[k]) && view[k] != ZERO && forall j :: 1 <= j < k ==> view[j] == ZERO
  }

  lemma {:induction false} ZerosAreZero(view: seq<Char>, n: nat)
    requires 1 <= n <= |view| && forall j :: 1 <= j < n ==> view[j] == ZERO
    ensures AllDigits(view[1..n]) && Value(view[1..n]) == 0
    decreases n
  {
    if n > 1 {
      ZerosAreZero(view, n - 1);
      Extend(view, 1, n - 1);
    } else {
      assert view[1..n] == [];
    }
  }

  /** `uint64_t` reads a negative number correctly exactly when that number is zero. */
  lemma MinusIntoUnsigned(view: seq<Char>, n: nat)
    requires |view| > 1 && view[0] == MINUS && TakenUntilRefused(UINT64, view, n)
    ensures Longest(view, 1, n, 0) <==> !NonZeroNumber(view)
    ensures NonZeroNumber(view) ==> n > 1 && Value(view[1..n]) > 0
  {
    if NonZeroNumber(view) {
      var k: nat :| NonZeroAt(view, k);
      TakesNonZero(view, n, k);
      assert n > k;
      ZerosAreZero(view, k);
      Extend(view, 1, k);
      PrefixValue(view[1..n], k);
      assert view[1..n][..k] == view[1..k + 1];
    } else {
      OnlyZerosTaken(view, n, n);
      CannotExtend(view, 1, n, 0);
    }
  }

  lemma TakesNonZero(view: seq<Char>, n: nat, k: nat)
    requires |view| > 1 && TakenUntilRefused(UINT64, view, n) && NonZeroAt(view, k)
    ensures n > k
  {
    if n <= k {
      ZerosAreZero(view, n);
      assert IsDigit(view[n]);
    }
  }

  lemma {:induction false} OnlyZerosTaken(view: seq<Char>, n: nat, k: nat)
    requires |view| > 1 && Taken(UINT64, view, n) && !NonZeroNumber(view) && 1 <= k <= n
    ensures forall j :: 1 <= j < k ==> view[j] == ZERO
    ensures AllDigits(view[1..k]) && Value(view[1..k]) == 0
    ensures k < |view| && IsDigit(view[k]) ==> view[k] == ZERO
    decreases k
  {
    if k > 1 {
      OnlyZerosTaken(view, n, k - 1);
      assert view[1..n][k - 2] == view[k - 1];
    }
    ZerosAreZero(view, k);
    assert !NonZeroAt(view, k);
  }

  /** For example "-5" becomes 2^64 - 5. */
  lemma MinusFive()
    ensures var view := [MINUS, ZERO + 5];
            TakenUntilRefused(UINT64, view, 2) && Negated(UINT64, Value(view[1..2])) == TWO_TO_THE_64 - 5
  {
    var view: seq<Char> := [MINUS, ZERO + 5];
    assert view[1..1] == [];
    Extend(view, 1, 1);
  }

  /** `uint64_t` does not read past the first zero behind another digit: the number in front of it is
      what is negated, as long as ten times that number fits. */
  lemma StopsAtZero(view: seq<Char>, n: nat, k: nat, z: nat)
    requires |view| > 1 && view[0] == MINUS && TakenUntilRefused(UINT64, view, n)
    requires NonZeroAt(view, k) && k < z < |view| && AllDigits(view[1..z]) && view[z] == ZERO
    requires (forall j :: k < j < z ==> view[j] != ZERO) && 10 * Value(view[1..z]) < TWO_TO_THE_64
    ensures n == z
  {
    forall j | 1 <= j < z ensures !RefusedAt(UINT64, view, j) {
      NotRefused(view, k, z, j);
    }
    ValueGrows(view, k + 1, z);
    ZerosAreZero(view, k);
    Extend(view, 1, k);
    assert RefusedAt(UINT64, view, z);
  }

  lemma ValueGrows(view: seq<Char>, j: nat, z: nat)
    requires 1 <= j <= z <= |view| && AllDigits(view[1..z])
    ensures AllDigits(view[1..j]) && Value(view[1..j]) <= Value(view[1..z])
  {
    assert view[1..z][..j - 1] == view[1..j];
    PrefixValue(view[1..z], j - 1);
  }

  lemma NotRefused(view: seq<Char>, k: nat, z: nat, j: nat)
    requires NonZeroAt(view, k) && k < z < |view| && AllDigits(view[1..z])
    requires (forall i :: k < i < z ==> view[i] != ZERO) && 10 * Value(view[1..z]) < TWO_TO_THE_64
    requires 1 <= j < z
    ensures !RefusedAt(UINT64, view, j)
  {
    ValueGrows(view, j, z);
    ValueGrows(view, j + 1, z);
    assert view[1..z][j - 1] == view[j];
    Extend(view, 1, j);
    if j < k {
      ZerosAreZero(view, j);
    }
    SmallNotRefused(Value(view[1..j]), view[j] - ZERO);
  }

  lemma SmallNotRefused(v: nat, d: nat)
    requires d <= 9 && 10 * v + d < TWO_TO_THE_64 && (d == 0 ==> v == 0)
    ensures !Refused(UINT64, v, d)
  {
  }

  /** For example "-10" becomes 2^64 - 1, with the '0' left over. */
  lemma MinusTen(n: nat)
    requires TakenUntilRefused(UINT64, [MINUS, ZERO + 1, ZERO], n)
    ensures n == 2 && Negated(UINT64, Value([MINUS, ZERO + 1, ZERO][1..n])) == 18446744073709551615
  {
    var view: seq<Char> := [MINUS, ZERO + 1, ZERO];
    assert view[1..1] == [];
    assert view[1..2] == [ZERO + 1];
    assert Value([ZERO + 1]) == 10 * Value([]) + 1;
    StopsAtZero(view, n, 1, 2);
  }

  // ---------- printing ----------

  function DigitChar(d: nat): Char
    requires d <= 9
  {
    ZERO + d
  }

  /** The decimal text of `v`, without leading zeros. */
  function Text(v: nat): (s: seq<Char>)
    ensures s != [] && AllDigits(s)
  {
    if v < 10 then [DigitChar(v)] else Text(v / 10) + [DigitChar(v % 10)]
  }

  function SignedText(v: int): seq<Char> {
    if v >= 0 then Text(v) else [MINUS] + Text(-v)
  }

  /** The last `len` digits of `v`, with zeros in front. */
  function FixedText(v: nat, len: nat): (s: seq<Char>)
    ensures |s| == len && AllDigits(s)
  {
    if len == 0 then [] else FixedText(v / 10, len - 1) + [DigitChar(v % 10)]
  }

  /** Text is read back as the number it was written for... */
  lemma {:induction false} ValueOfText(v: nat)
    ensures Value(Text(v)) == v
  {
    if v >= 10 {
      ValueOfText(v / 10);
      ValueSnoc(Text(v / 10), DigitChar(v % 10));
    } else {
      ValueSnoc([], DigitChar(v));
      assert [] + [DigitChar(v)] == Text(v);
    }
  }

  /** ...and every text without superfluous zeros is written for the number it is read as. */
  lemma {:induction false} TextOfValue(s: seq<Char>)
    requires s != [] && AllDigits(s) && (|s| == 1 || s[0] != ZERO)
    ensures Text(Value(s)) == s
    ensures |s| > 1 ==> Value(s) >= 10
    decreases |s|
  {
    var l, c := s[..|s| - 1], s[|s| - 1];
    assert s == l + [c];
    if |s| > 1 {
      TextOfValue(l);
      if |l| == 1 {
        assert Value(l) == 10 * Value([]) + (l[0] - ZERO);
      }
    }
  }

  /** A text starts with '0' only if it is "0". */
  lemma {:induction false} NoLeadingZero(v: nat)
    requires v > 0
    ensures Text(v)[0] != ZERO
  {
    if v >= 10 {
      NoLeadingZero(v / 10);
    }
  }

  /** A negative number is written as '-' and the digits of its absolute value, without superfluous zeros... */
  lemma SignedTextIs(v: int)
    requires v < 0
    ensures var s := SignedText(v);
      |s| > 1 && s[0] == 45 && AllDigits(s[1..]) && s[1] != ZERO && Value(s[1..]) == -v
  {
    NoLeadingZero(-v);
    ValueOfText(-v);
    assert SignedText(v)[1..] == Text(-v);
  }

  /** ...and every such text is written for the number it is read as. */
  lemma SignedTextOfValue(s: seq<Char>)
    requires |s| > 1 && s[0] == MINUS && AllDigits(s[1..]) && s[1] != ZERO
    ensures SignedText(-(Value(s[1..]) as int)) == s
  {
    var d := s[1..];
    TextOfValue(d);
    if |d| == 1 {
      assert d[..0] == [] && Value(d) == 10 * Value([]) + (d[0] - ZERO);
    }
    assert s == [MINUS] + d;
  }

  /** The characters, spelled out: "90", "-7" and "04". */
  lemma Spelled()
    ensures Text(90) == [57, 48] && SignedText(-7) == [45, 55] && FixedText(4, 2) == [48, 52]
  {
    assert FixedText(0, 1) == FixedText(0, 0) + [48] == [48];
  }

  /** The fixed-length text holds the value modulo 10^len. */
  lemma {:induction false} ValueOfFixedText(v: nat, len: nat)
    ensures Value(FixedText(v, len)) == v % Pow10(len)
    decreases len
  {
    if len > 0 {
      ValueOfFixedText(v / 10, len - 1);
      ValueSnoc(FixedText(v / 10, len - 1), DigitChar(v % 10));
      LastDigit(v, Pow10(len - 1));
    }
  }

  lemma LastDigit(v: nat, p: nat)
    requires p > 0
    ensures v % (10 * p) == 10 * (v / 10 % p) + v % 10
  {
    var q, r := v / 10 / p, v / 10 % p;
    assert v / 10 == q * p + r;
    assert v == q * (10 * p) + (10 * r + v % 10);
    DivMod(v, q, 10 * r + v % 10, 10 * p);
  }

  lemma {:induction false} TextLength(v: nat, k: nat)
    requires k > 0 && v < Pow10(k)
    ensures |Text(v)| <= k
    decreases k
  {
    if v >= 10 {
      assert Pow10(k) == 10 * Pow10(k - 1);
      assert k > 1 by { assert Pow10(1) == 10; }
      TextLength(v / 10, k - 1);
    }
  }

  lemma TwentyDigits(v: nat)
    requires v < TWO_TO_THE_64
    ensures |Text(v)| <= 20
  {
    assert Pow10(20) == 10 * Pow10(19) == 100000000000000000000 by { SwitchIsPower(20); }
    TextLength(v, 20);
  }

  function Zeros(len: nat): (s: seq<Char>)
    ensures |s| == len
  {
    seq(len, _ => ZERO)
  }

  /** Only zeros are left of the highest digit. */
  lemma {:induction false} FixedZero(len: nat)
    ensures FixedText(0, len) == Zeros(len)
  {
    if len > 0 {
      FixedZero(len - 1);
    }
  }

  lemma {:induction false} PutsDigit(v: nat, rest: seq<Char>)
    ensures v >= 10 ==> Text(v) + rest == Text(v / 10) + ([DigitChar(v % 10)] + rest)
    ensures v < 10 ==> Text(v) + rest == [DigitChar(v % 10)] + rest
  {
  }

  /** `to_string_view_unsigned`: the text is put at the start of the buffer. */
  method PrintUnsigned(buf: array<Char>, at: nat, value: nat) returns (sz: nat)
    requires value < TWO_TO_THE_64 && at + |Text(value)| <= buf.Length
    modifies buf
    ensures sz == |Text(value)|
    ensures buf[..] == old(buf[..at]) + Text(value) + old(buf[at + sz..])
  {
    var tmp := new Char[20](_ => 0);
    var ptr := 20;
    var j: nat := value;
    TwentyDigits(value);
    assert Text(j) + tmp[20..] == Text(value);
    while true
      invariant 0 <= ptr <= 20
      invariant Text(j) + tmp[ptr..] == Text(value)
      invariant buf[..] == old(buf[..])
      decreases j
    {
      PutsDigit(j, tmp[ptr..]);
      ptr := ptr - 1;
      tmp[ptr] := j % 10 + ZERO;
      j := j / 10;
      if j == 0 { break; }
    }
    assert tmp[ptr..] == Text(value);
    sz := 20 - ptr;
    CopyInto(buf, at, tmp[ptr..]);
  }

  /** `memcpy`. */
  method CopyInto(buf: array<Char>, at: nat, s: seq<Char>)
    requires at + |s| <= buf.Length
    modifies buf
    ensures buf[..] == old(buf[..at]) + s + old(buf[at + |s|..])
  {
    ghost var was := buf[..];
    var k := 0;
    while k < |s|
      invariant k <= |s| && buf[..] == Overlaid(was, at, s[..k])
    {
      OverlaidNext(was, at, s, k);
      buf[at + k] := s[k];
      k := k + 1;
    }
    assert s[..k] == s;
  }

  /** `s` written over `b` from `at` on. */
  function Overlaid(b: seq<Char>, at: nat, s: seq<Char>): seq<Char>
    requires at + |s| <= |b|
  {
    b[..at] + s + b[at + |s|..]
  }

  lemma OverlaidNext(b: seq<Char>, at: nat, s: seq<Char>, k: nat)
    requires k < |s| && at + |s| <= |b|
    ensures Overlaid(b, at, s[..k])[at + k := s[k]] == Overlaid(b, at, s[..k + 1])
  {
    assert s[..k + 1] == s[..k] + [s[k]];
    assert b[at + k..] == [b[at + k]] + b[at + k + 1..];
  }

  /** `to_string_view_signed`; the negated value must fit the type the product is computed in. */
  method PrintSigned(buf: array<Char>, t: IntType, value: int) returns (sz: nat)
    requires SignedType(t) && Holds(t, value) && |SignedText(value)| <= buf.Length
    requires Holds(Promoted(t), -value)
    modifies buf
    ensures sz == |SignedText(value)|
    ensures buf[..] == SignedText(value) + old(buf[sz..])
  {
    if value >= 0 {
      sz := PrintUnsigned(buf, 0, value);
    } else {
      ghost var was := buf[..];
      PutMinus(buf);
      ghost var signed := buf[..];
      sz := PrintUnsigned(buf, 1, -value);
      sz := sz + 1;
      assert signed[..1] == [MINUS] && signed[sz..] == was[1..][sz - 1..] == was[sz..];
    }
  }

  method PutMinus(buf: array<Char>)
    requires buf.Length > 0
    modifies buf
    ensures buf[..] == [MINUS] + old(buf[1..])
  {
    buf[0] := MINUS;
  }

  /** The type that `-1 * value` has: `int` for the narrower types. */
  function Promoted(t: IntType): IntType {
    if t == INT8 || t == INT16 then INT32 else t
  }

  /** So only the minimum of `int32_t` and of `int64_t` cannot be printed. */
  lemma Printable(t: IntType, value: int)
    requires SignedType(t) && Holds(t, value)
    ensures Holds(Promoted(t), -value) <==> !((t == INT32 || t == INT64) && value == Min(t))
  {
  }

  /** `memset`. */
  method FillZero(view: array<Char>, at: nat)
    requires at <= view.Length
    modifies view
    ensures view[..] == old(view[..at]) + Zeros(view.Length - at)
  {
    var i := at;
    while i < view.Length
      invariant at <= i <= view.Length
      invariant view[..at] == old(view[..at])
      invariant forall k :: at <= k < i ==> view[k] == ZERO
    {
      view[i] := ZERO;
      i := i + 1;
    }
    assert view[..] == view[..at] + view[at..];
  }

  /** `to_string_view_unsigned_fixed_length`, on the part of the array from `at`. */
  method PrintFixed(view: array<Char>, at: nat, value: nat)
    requires at <= view.Length
    modifies view
    ensures view[..] == old(view[..at]) + FixedText(value, view.Length - at)
  {
    ghost var front, all, tail := view[..at], FixedText(value, view.Length - at), [];
    FillZero(view, at);
    var ptr: int := view.Length - 1;
    var j: nat := value;
    while j != 0 && ptr >= at
      invariant at - 1 <= ptr < view.Length
      invariant view[..] == Filled(front, ptr + 1 - at, tail)
      invariant all == FixedText(j, ptr + 1 - at) + tail
    {
      PutsFixed(j, ptr + 1 - at, tail);
      FilledNext(front, ptr + 1 - at, tail, DigitChar(j % 10));
      tail := [DigitChar(j % 10)] + tail;
      view[ptr] := j % 10 + ZERO;
      ptr := ptr - 1;
      j := j / 10;
    }
    FilledAll(front, j, ptr + 1 - at, tail);
  }

  lemma FilledAll(front: seq<Char>, j: nat, n: nat, tail: seq<Char>)
    requires j == 0 || n == 0
    ensures Filled(front, n, tail) == front + (FixedText(j, n) + tail)
  {
    if j == 0 {
      FixedZero(n);
    }
    assert FixedText(j, n) == Zeros(n);
  }

  /** `front`, then `n` zeros, then what has been written. */
  function Filled(front: seq<Char>, n: nat, tail: seq<Char>): seq<Char> {
    front + Zeros(n) + tail
  }

  lemma FilledNext(front: seq<Char>, n: nat, tail: seq<Char>, c: Char)
    requires n > 0
    ensures Filled(front, n, tail)[|front| + n - 1 := c] == Filled(front, n - 1, [c] + tail)
  {
  }

  lemma PutsFixed(j: nat, len: nat, rest: seq<Char>)
    requires len > 0
    ensures FixedText(j, len) + rest == FixedText(j / 10, len - 1) + ([DigitChar(j % 10)] + rest)
  {
  }

  /** `to_string_view_signed_fixed_length`. */
  method PrintSignedFixed(view: array<Char>, t: IntType, value: int)
    requires SignedType(t) && Holds(t, value) && Holds(Promoted(t), -value)
    requires value < 0 ==> view.Length > 0
    modifies view
    ensures view[..] == if value >= 0 then FixedText(value, view.Length)
                        else [MINUS] + FixedText(-value, view.Length - 1)
  {
    if value >= 0 {
      PrintFixed(view, 0, value);
    } else {
      view[0] := MINUS;
      PrintFixed(view, 1, -value);
    }
  }

  // ---------- round trips ----------

  /** No digit follows the number. */
  predicate EndsHere(suffix: seq<Char>) {
    suffix == [] || !IsDigit(suffix[0])
  }

  /** The longest text that fits is the whole number, when it fits. */
  lemma WholeNumber(head: seq<Char>, digits: seq<Char>, suffix: seq<Char>, n: nat, limit: nat)
    requires AllDigits(digits) && Value(digits) <= limit && EndsHere(suffix)
    requires Longest(head + digits + suffix, |head|, n, limit)
    ensures n == |head| + |digits|
    ensures (head + digits + suffix)[|head|..n] == digits
  {
    var view := head + digits + suffix;
    var m := |head| + |digits|;
    assert view[|head|..m] == digits;
    assert Fits(view, |head|, m, limit);
    if n > m {
      EndsBefore(head, digits, suffix, n);
    }
  }

  lemma EndsBefore(head: seq<Char>, digits: seq<Char>, suffix: seq<Char>, n: nat)
    requires EndsHere(suffix) && |head| + |digits| < n <= |head| + |digits| + |suffix|
    ensures !AllDigits((head + digits + suffix)[|head|..n])
  {
    assert (head + digits + suffix)[|head|..n][|digits|] == suffix[0];
  }

  /** What the unsigned printer writes is read back, whatever follows that is not a digit. */
  lemma TextReadsBack(value: nat, suffix: seq<Char>, n: nat, limit: nat)
    requires value <= limit && EndsHere(suffix)
    requires Longest(Text(value) + suffix, 0, n, limit)
    ensures n == |Text(value)| && Value((Text(value) + suffix)[..n]) == value
  {
    ValueOfText(value);
    assert [] + Text(value) + suffix == Text(value) + suffix;
    WholeNumber([], Text(value), suffix, n, limit);
    assert (Text(value) + suffix)[..n] == Text(value);
  }

  /** The same after a '-'. */
  lemma NegativeTextReadsBack(value: nat, suffix: seq<Char>, n: nat, limit: nat)
    requires value <= limit && EndsHere(suffix)
    requires Longest([MINUS] + Text(value) + suffix, 1, n, limit)
    ensures n == 1 + |Text(value)| && Value(([MINUS] + Text(value) + suffix)[1..n]) == value
  {
    ValueOfText(value);
    WholeNumber([MINUS], Text(value), suffix, n, limit);
  }

  /** Printing and parsing an unsigned number; `uint64_t` goes through the signed parser. */
  method RoundTripUnsigned(t: IntType, value: nat, suffix: seq<Char>) returns (back: int, size: nat)
    requires UnsignedType(t) && Holds(t, value) && EndsHere(suffix)
    ensures back == value && size == |Text(value)|
  {
    TwentyDigits(value);
    var buf := new Char[20](_ => 0);
    var sz := PrintUnsigned(buf, 0, value);
    assert buf[..sz] == Text(value);
    if t == UINT64 {
      back, size := ParseSigned(t, buf[..sz] + suffix);
    } else {
      back, size := ParseUnsigned(t, buf[..sz] + suffix);
    }
    TextReadsBack(value, suffix, size, t.max);
  }

  /** Printing and parsing a signed number. */
  method RoundTripSigned(t: IntType, value: int, suffix: seq<Char>) returns (back: int, size: nat)
    requires SignedType(t) && Holds(t, value) && Holds(Promoted(t), -value) && EndsHere(suffix)
    ensures back == value && size == |SignedText(value)|
  {
    TwentyDigits(if value >= 0 then value else -value);
    var buf := new Char[21](_ => 0);
    var sz := PrintSigned(buf, t, value);
    assert buf[..sz] == SignedText(value);
    back, size := ParseSigned(t, buf[..sz] + suffix);
    SignedReadsBack(t, value, suffix, back, size);
  }

  /** What the signed printer writes is what the signed parser reads. */
  lemma SignedReadsBack(t: IntType, value: int, suffix: seq<Char>, back: int, n: nat)
    requires SignedType(t) && Holds(t, value) && EndsHere(suffix)
    requires ReadsSigned(t, SignedText(value) + suffix, back, n)
    ensures back == value && n == |SignedText(value)|
  {
    if value >= 0 {
      NaturalReadsBack(t, value, suffix, back, n);
    } else {
      NegativeReadsBack(t, -value, suffix, back, n);
    }
  }

  lemma NaturalReadsBack(t: IntType, value: nat, suffix: seq<Char>, back: int, n: nat)
    requires value <= t.max && EndsHere(suffix)
    requires ReadsSigned(t, Text(value) + suffix, back, n)
    ensures back == value && n == |Text(value)|
  {
    assert (Text(value) + suffix)[0] == Text(value)[0];
    TextReadsBack(value, suffix, n, t.max);
  }

  lemma NegativeReadsBack(t: IntType, value: nat, suffix: seq<Char>, back: int, n: nat)
    requires t.signed && value <= -Min(t) && EndsHere(suffix)
    requires ReadsSigned(t, [MINUS] + Text(value) + suffix, back, n)
    ensures back == -(value as int) && n == 1 + |Text(value)|
  {
    var view := [MINUS] + Text(value) + suffix;
    assert view[0] == MINUS && |view| > 1;
    NegativeTextReadsBack(value, suffix, n, -Min(t));
  }

  /** An empty fixed-length field says nothing, so what follows it is read; only `uint64_t` takes a
      '-' for the beginning of a number. */
  predicate StrayMinus(t: IntType, len: nat, suffix: seq<Char>) {
    t == UINT64 && len == 0 && |suffix| > 1 && suffix[0] == MINUS
  }

  /** A fixed-length text is read back modulo 10^len, whatever non-digit follows, except in that case. */
  method RoundTripFixed(t: IntType, value: nat, view: array<Char>, suffix: seq<Char>)
    returns (back: int, size: nat)
    requires UnsignedType(t) && Holds(t, value) && EndsHere(suffix)
    modifies view
    ensures back == value % Pow10(view.Length) && size == view.Length <==> !StrayMinus(t, view.Length, suffix)
  {
    PrintFixed(view, 0, value);
    ghost var digits := FixedText(value, view.Length);
    assert view[..] == digits;
    if t == UINT64 {
      back, size := ParseSigned(t, view[..] + suffix);
    } else {
      back, size := ParseUnsigned(t, view[..] + suffix);
    }
    if t == UINT64 && view.Length == 0 && suffix != [] && suffix[0] == MINUS {
      assert view[..] + suffix == suffix;
      assert Pow10(0) == 1;
    } else {
      assert view.Length > 0 ==> (digits + suffix)[0] == digits[0];
      FixedReadsBack(value, view.Length, suffix, size, t.max);
    }
  }

  lemma FixedReadsBack(value: nat, len: nat, suffix: seq<Char>, n: nat, limit: nat)
    requires value <= limit && EndsHere(suffix)
    requires Longest(FixedText(value, len) + suffix, 0, n, limit)
    ensures n == len && Value((FixedText(value, len) + suffix)[..n]) == value % Pow10(len)
  {
    var digits := FixedText(value, len);
    ValueOfFixedText(value, len);
    RemainderSmaller(value, Pow10(len));
    assert [] + digits + suffix == digits + suffix;
    WholeNumber([], digits, suffix, n, limit);
    assert (digits + suffix)[..n] == digits;
  }

  lemma RemainderSmaller(v: nat, p: nat)
    requires p > 0
    ensures v % p <= v
  {
  }
}
