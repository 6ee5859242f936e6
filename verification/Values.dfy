/** Runtime values and their comparison (types/value.go). */
module SqlValues {
  import opened ByteStrings

  const TWO52: nat := 0x10_0000_0000_0000
  const TWO53: nat := 0x20_0000_0000_0000
  const TWO63: int := 0x8000_0000_0000_0000
  const TWO64: int := 0x1_0000_0000_0000_0000

  type Int64 = i: int | -TWO63 <= i < TWO63

  /** A 64-bit pattern of a float. */
  type Bits64 = b: nat | b < TWO64

  function Pow2(n: nat): (r: nat)
    ensures r > 0
  {
    if n == 0 then 1 else 2 * Pow2(n - 1)
  }

  function ExponentField(m: nat): nat { m / TWO52 }

  function FractionField(m: nat): nat { m % TWO52 }

  /** The magnitude of a pattern without its sign bit, as a multiple of 2^-1074. */
  function Magnitude(m: nat): nat {
    if ExponentField(m) == 0 then FractionField(m)
    else (TWO52 + FractionField(m)) * Pow2(ExponentField(m) - 1)
  }

  function SignBit(b: Bits64): bool { b >= TWO63 }

  /** The value of a float pattern, as a multiple of 2^-1074; infinities lie beyond the finite values. */
  function FloatValue(b: Bits64): int {
    if SignBit(b) then 0 - Magnitude(b - TWO63) else Magnitude(b)
  }

  predicate IsNaN(b: Bits64) {
    var m := if SignBit(b) then b - TWO63 else b;
    ExponentField(m) == 2047 && FractionField(m) != 0
  }

  const NEGATIVE_ZERO: Bits64 := TWO63

  /** The floats SQL text can denote: there is no unary minus to make -0 with, and no NaN. */
  type Float64 = b: Bits64 | !IsNaN(b) && b != NEGATIVE_ZERO witness 0

  lemma {:induction false} Pow2Monotone(a: nat, b: nat)
    requires a <= b
    ensures Pow2(a) <= Pow2(b)
  {
    if a < b {
      Pow2Monotone(a, b - 1);
    }
  }

  lemma MulMonotone(a: nat, b: nat, x: nat, y: nat)
    requires a <= b && x <= y
    ensures a * x <= b * y
  {
    assert a * x <= b * x;
    assert b * x <= b * y;
  }

  lemma MulStrict(a: nat, b: nat, x: nat)
    requires a < b && x > 0
    ensures a * x < b * x
  {
  }

  /** Without the sign bit, larger patterns are larger magnitudes. */
  lemma MagnitudeMonotone(m: nat, n: nat)
    requires m < n
    ensures Magnitude(m) < Magnitude(n)
  {
    var e, f := m / TWO52, m % TWO52;
    var e', f' := n / TWO52, n % TWO52;
    if e == e' {
      if e > 0 {
        MulStrict(TWO52 + f, TWO52 + f', Pow2(e - 1));
      }
    } else {
      assert e < e';
      Pow2Monotone(e, e' - 1);
      assert Pow2(0) == 1;
      MulMonotone(TWO52, TWO52 + f', Pow2(e), Pow2(e' - 1));
      if e > 0 {
        assert Pow2(e) == 2 * Pow2(e - 1);
        MulStrict(TWO52 + f, 2 * TWO52, Pow2(e - 1));
        assert 2 * TWO52 * Pow2(e - 1) == TWO52 * Pow2(e);
      }
    }
  }

  lemma MagnitudeOrder(m: nat, n: nat)
    ensures Magnitude(m) < Magnitude(n) <==> m < n
  {
    if m < n {
      MagnitudeMonotone(m, n);
    } else if n < m {
      MagnitudeMonotone(n, m);
    }
  }

  // ---- Converting integers to floats ----

  /** Halve n until it has at most 53 bits; how often that took. */
  function Shift(n: nat): nat {
    if n < TWO53 then 0 else 1 + Shift(n / 2)
  }

  /** n to the nearest multiple of the unit, ties to even; in units. */
  function RoundedQuotient(n: nat, unit: nat): nat
    requires unit > 0
  {
    var q, r := n / unit, n % unit;
    if 2 * r > unit || (2 * r == unit && q % 2 == 1) then q + 1 else q
  }

  /** float64(n): to 53 bits, to nearest, ties to even; as an integer. */
  function RoundedMagnitude(n: nat): nat {
    RoundedQuotient(n, Pow2(Shift(n))) * Pow2(Shift(n))
  }

  /** The value of float64(i), as a multiple of 2^-1074. */
  function IntegerAsFloat(i: Int64): int {
    if i < 0 then 0 - RoundedMagnitude(0 - i) * Pow2(1074) else RoundedMagnitude(i) * Pow2(1074)
  }

  lemma QuotientIs(n: nat, q: nat, d: nat, r: nat)
    requires n == q * d + r && r < d
    ensures n / d == q && n % d == r
  {
    var q', r' := n / d, n % d;
    assert (q' + 1) * d == q' * d + d && (q + 1) * d == q * d + d;
    if q' < q {
      MulMonotone(q' + 1, q, d, d);
    } else if q < q' {
      MulMonotone(q + 1, q', d, d);
    }
  }

  lemma HalvedQuotient(n: nat, d: nat)
    requires d > 0
    ensures n / (2 * d) == n / 2 / d
  {
    var q, r := n / 2 / d, n / 2 % d;
    assert n == 2 * (q * d + r) + n % 2;
    assert q * (2 * d) == 2 * (q * d);
    QuotientIs(n, q, 2 * d, 2 * r + n % 2);
  }

  /** What is kept of n has at most 53 bits, and exactly 53 if anything was dropped. */
  lemma {:induction false} KeptBits(n: nat)
    ensures n / Pow2(Shift(n)) < TWO53 && (Shift(n) > 0 ==> TWO52 <= n / Pow2(Shift(n)))
  {
    if n >= TWO53 {
      KeptBits(n / 2);
      HalvedQuotient(n, Pow2(Shift(n / 2)));
      assert Shift(n / 2) == 0 ==> n / 2 / Pow2(Shift(n / 2)) == n / 2;
    }
  }

  lemma {:induction false} ShiftMonotone(m: nat, n: nat)
    requires m <= n
    ensures Shift(m) <= Shift(n)
  {
    if m >= TWO53 {
      ShiftMonotone(m / 2, n / 2);
    }
  }

  lemma QuotientOrder(m: nat, n: nat, unit: nat)
    requires m <= n && unit > 0
    ensures m / unit <= n / unit
  {
    var q, q' := m / unit, n / unit;
    assert (q' + 1) * unit == q' * unit + unit;
    if q > q' {
      MulMonotone(q' + 1, q, unit, unit);
    }
  }

  lemma QuotientMonotone(m: nat, n: nat, unit: nat)
    requires m <= n && unit > 0
    ensures RoundedQuotient(m, unit) <= RoundedQuotient(n, unit)
  {
    QuotientOrder(m, n, unit);
    assert m / unit == n / unit ==> m % unit <= n % unit;
  }

  /** Rounding keeps the order. */
  lemma RoundingMonotone(m: nat, n: nat)
    requires m <= n
    ensures RoundedMagnitude(m) <= RoundedMagnitude(n)
  {
    var u, v := Pow2(Shift(m)), Pow2(Shift(n));
    ShiftMonotone(m, n);
    if Shift(m) == Shift(n) {
      QuotientMonotone(m, n, u);
      MulMonotone(RoundedQuotient(m, u), RoundedQuotient(n, u), u, u);
    } else {
      KeptBits(m);
      KeptBits(n);
      Pow2Monotone(Shift(m) + 1, Shift(n));
      MulMonotone(RoundedQuotient(m, u), TWO53, u, u);
      MulMonotone(TWO52, RoundedQuotient(n, v), 2 * u, v);
      assert TWO52 * (2 * u) == TWO53 * u;
    }
  }

  lemma {:induction false} Pow2Adds(a: nat, b: nat)
    ensures Pow2(a + b) == Pow2(a) * Pow2(b)
  {
    if a > 0 {
      Pow2Adds(a - 1, b);
    }
  }

  const ONE: Float64 := 0x3FF0_0000_0000_0000

  lemma PowerPattern(e: nat)
    requires e > 0
    ensures Magnitude(e * TWO52) == Pow2(e + 51)
  {
    assert e * TWO52 / TWO52 == e && e * TWO52 % TWO52 == 0;
    PowerOf52();
    Pow2Adds(52, e - 1);
  }

  /** The pattern of 1.0 has the value 2^1074 times 2^-1074. */
  lemma OneIsOne()
    ensures FloatValue(ONE) == Pow2(1074)
  {
    var e := 1023;
    assert ONE == e * TWO52;
    PowerPattern(e);
  }

  lemma PowerOf52()
    ensures Pow2(52) == TWO52
  {
    assert Pow2(13) == 8192;
    Pow2Adds(13, 13);
    assert Pow2(26) == 8192 * 8192;
    Pow2Adds(26, 26);
  }

  lemma IntegerAsFloatMonotone(i: Int64, j: Int64)
    requires i <= j
    ensures IntegerAsFloat(i) <= IntegerAsFloat(j)
  {
    var p := Pow2(1074);
    if i >= 0 {
      RoundingMonotone(i, j);
      MulMonotone(RoundedMagnitude(i), RoundedMagnitude(j), p, p);
    } else if j < 0 {
      RoundingMonotone(0 - j, 0 - i);
      MulMonotone(RoundedMagnitude(0 - j), RoundedMagnitude(0 - i), p, p);
    } else {
      MulMonotone(0, RoundedMagnitude(0 - i), p, p);
      MulMonotone(0, RoundedMagnitude(j), p, p);
    }
  }

  // ---- The conversion gives the nearest float ----

  function Distance(x: int, y: int): nat {
    if x < y then y - x else x - y
  }

  /** r is at least as near to x as y is, and only if even are different ones equally near. */
  predicate Near(r: int, x: int, y: int, even: bool) {
    Distance(r, x) <= Distance(y, x) && (Distance(r, x) == Distance(y, x) ==> y == r || even)
  }

  lemma ScaledDistance(x: int, y: int, p: nat)
    ensures Distance(x * p, y * p) == Distance(x, y) * p
  {
    if x < y {
      assert (y - x) * p == y * p - x * p;
      MulMonotone(0, y - x, p, p);
    } else {
      assert (x - y) * p == x * p - y * p;
      MulMonotone(0, x - y, p, p);
    }
  }

  lemma MultiplesApart(q: nat, k: nat, unit: nat)
    ensures k < q ==> k * unit + unit <= q * unit
    ensures k > q ==> k * unit >= q * unit + unit
    ensures k > q + 1 ==> k * unit >= q * unit + 2 * unit
  {
    if k < q {
      MulMonotone(k + 1, q, unit, unit);
    } else if k > q {
      MulMonotone(q + 1, k, unit, unit);
      if k > q + 1 {
        MulMonotone(q + 2, k, unit, unit);
      }
    }
  }

  /** With n between x and x + unit: nearer than the one that rounding takes is no multiple y. */
  lemma NearestBetween(n: nat, x: nat, unit: nat, y: nat, up: bool, even: bool)
    requires x <= n < x + unit
    requires y == x || y + unit <= x || y == x + unit || y >= x + 2 * unit
    requires up <==> 2 * (n - x) > unit || (2 * (n - x) == unit && !even)
    ensures var z := if up then x + unit else x;
            Distance(z, n) <= Distance(y, n) && (Distance(z, n) == Distance(y, n) && y != z ==> 2 * (n - x) == unit)
  {
  }

  /** What rounding does: up from the multiple x below n, or not. */
  lemma RoundingParts(n: nat, unit: nat) returns (x: nat, up: bool)
    requires unit > 0
    ensures x == n / unit * unit && x <= n < x + unit
    ensures up <==> 2 * (n - x) > unit || (2 * (n - x) == unit && n / unit % 2 != 0)
    ensures RoundedQuotient(n, unit) == if up then n / unit + 1 else n / unit
    ensures RoundedQuotient(n, unit) * unit == if up then x + unit else x
  {
    x := n / unit * unit;
    assert n == x + n % unit;
    up := RoundedQuotient(n, unit) == n / unit + 1;
    assert (n / unit + 1) * unit == x + unit;
  }

  lemma Apart(q: nat, k: nat, unit: nat, x: nat, y: nat)
    requires x == q * unit && y == k * unit
    ensures y == x || y + unit <= x || y == x + unit || y >= x + 2 * unit
  {
    MultiplesApart(q, k, unit);
    assert k == q + 1 ==> k * unit == q * unit + unit;
  }

  /** No multiple of the unit is nearer than the rounded one, and in a tie the rounded one is even. */
  lemma NearestMultiple(n: nat, unit: nat, k: nat)
    requires unit > 0
    ensures var q := RoundedQuotient(n, unit);
            && Distance(q * unit, n) <= Distance(k * unit, n)
            && (Distance(q * unit, n) == Distance(k * unit, n) && k * unit != q * unit ==> q % 2 == 0)
  {
    var x, up := RoundingParts(n, unit);
    Apart(n / unit, k, unit, x, k * unit);
    NearestBetween(n, x, unit, k * unit, up, n / unit % 2 == 0);
  }

  lemma SmallMagnitude(m: nat, s: nat)
    requires ExponentField(m) <= s
    ensures Magnitude(m) < TWO52 * Pow2(s)
  {
    var e, f := ExponentField(m), FractionField(m);
    if e == 0 {
      MulMonotone(TWO52, TWO52, 1, Pow2(s));
    } else {
      Pow2Monotone(e, s);
      MulStrict(TWO52 + f, 2 * TWO52, Pow2(e - 1));
      MulMonotone(TWO52, TWO52, Pow2(e), Pow2(s));
    }
  }

  lemma Factored(a: nat, x: nat, y: nat)
    ensures a * (x * y) == (a * x) * y
  {
  }

  /** A float of at least 2^52 units is a multiple of the unit. */
  lemma LargeIsMultiple(m: nat, s: nat) returns (k: nat)
    requires Magnitude(m) >= TWO52 * Pow2(s)
    ensures Magnitude(m) == k * Pow2(s)
  {
    var e, f := ExponentField(m), FractionField(m);
    if e <= s {
      SmallMagnitude(m, s);
    }
    Pow2Adds(e - 1 - s, s);
    k := (TWO52 + f) * Pow2(e - 1 - s);
    Factored(TWO52 + f, Pow2(e - 1 - s), Pow2(s));
  }

  /** float64(n), in units of the last of its 53 bits. */
  function Kept(n: nat): nat {
    RoundedQuotient(n, Pow2(Shift(n)))
  }

  lemma KeptExactly(n: nat)
    requires Shift(n) == 0
    ensures RoundedMagnitude(n) == n
  {
    assert n % 1 == 0;
  }

  lemma Unscaled(n: nat, k: nat, s: nat)
    ensures k * Pow2(Shift(n) + s) == k * Pow2(Shift(n)) * Pow2(s)
  {
    Pow2Adds(Shift(n), s);
    Factored(k, Pow2(Shift(n)), Pow2(s));
  }

  /** Of the multiples of the last bit kept. */
  lemma NearestKept(n: nat, k: nat, s: nat)
    ensures var r, exact, x := RoundedMagnitude(n) * Pow2(s), n * Pow2(s), k * Pow2(Shift(n) + s);
            && Distance(r, exact) <= Distance(x, exact)
            && (Distance(r, exact) == Distance(x, exact) && x != r ==> Kept(n) % 2 == 0)
  {
    var u, p := Pow2(Shift(n)), Pow2(s);
    NearestMultiple(n, u, k);
    Unscaled(n, k, s);
    ScaledDistance(Kept(n) * u, n, p);
    ScaledDistance(k * u, n, p);
    var d, d' := Distance(Kept(n) * u, n), Distance(k * u, n);
    MulMonotone(d, d', p, p);
    if d < d' {
      MulStrict(d, d', p);
    }
  }

  lemma NearestMagnitude(n: nat, m: nat, s: nat)
    ensures Near(RoundedMagnitude(n) * Pow2(s), n * Pow2(s), Magnitude(m), Shift(n) > 0 && Kept(n) % 2 == 0)
  {
    if Shift(n) == 0 {
      KeptExactly(n);
    } else if Magnitude(m) >= TWO52 * Pow2(Shift(n) + s) {
      var k := LargeIsMultiple(m, Shift(n) + s);
      NearestKept(n, k, s);
    } else {
      BelowKept(n, s);
      NearestKept(n, TWO52, s);
    }
  }

  lemma BelowKept(n: nat, s: nat)
    requires Shift(n) > 0
    ensures TWO52 * Pow2(Shift(n) + s) <= n * Pow2(s)
  {
    var u := Pow2(Shift(n));
    KeptBits(n);
    MulMonotone(TWO52, n / u, u, u);
    assert n == n / u * u + n % u;
    Unscaled(n, TWO52, s);
    MulMonotone(TWO52 * u, n, Pow2(s), Pow2(s));
  }

  /** The pattern of k * 2^e, in multiples of 2^-s. */
  lemma PatternOf(k: nat, e: nat) returns (m: nat)
    requires TWO52 <= k < TWO53 && e < 2046
    ensures m < TWO63 && ExponentField(m) < 2047 && Magnitude(m) == k * Pow2(e) && m % 2 == k % 2
  {
    m := (e + 1) * TWO52 + (k - TWO52);
    QuotientIs(m, e + 1, TWO52, k - TWO52);
    assert TWO52 == 2 * 0x8_0000_0000_0000 && m == k + 2 * (e * 0x8_0000_0000_0000);
  }

  lemma {:induction false} SmallPattern(k: nat, e: nat) returns (m: nat)
    requires 0 < k < TWO53 && e < 2046 && k * Pow2(e) >= TWO53
    ensures m < TWO63 && ExponentField(m) < 2047 && Magnitude(m) == k * Pow2(e)
    decreases e
  {
    if k >= TWO52 {
      m := PatternOf(k, e);
    } else {
      assert e > 0;
      assert k * Pow2(e) == (2 * k) * Pow2(e - 1);
      m := SmallPattern(2 * k, e - 1);
    }
  }

  lemma LeastShifted(n: nat, s: nat)
    requires s <= Shift(n) && Shift(n) > 0
    ensures TWO52 * Pow2(s) <= n
  {
    var u := Pow2(Shift(n));
    KeptBits(n);
    Pow2Monotone(s, Shift(n));
    MulMonotone(TWO52, n / u, Pow2(s), u);
  }

  lemma ShiftBound(n: nat)
    requires n <= TWO63
    ensures Shift(n) <= 11
  {
    assert Pow2(12) == 4096;
    if Shift(n) > 11 {
      LeastShifted(n, 12);
    }
  }

  /** A rounded number has a pattern, which is even if its last bit is. */
  lemma MagnitudePattern(n: nat, s: nat) returns (m: nat)
    requires n <= TWO63 && 53 <= s < 2034
    ensures m < TWO63 && ExponentField(m) < 2047 && Magnitude(m) == RoundedMagnitude(n) * Pow2(s)
    ensures Shift(n) > 0 && Kept(n) % 2 == 0 ==> m % 2 == 0
  {
    ShiftBound(n);
    KeptBits(n);
    Unscaled(n, Kept(n), s);
    if n == 0 {
      m := 0;
    } else if Shift(n) == 0 {
      KeptExactly(n);
      Pow2Monotone(53, s);
      PowerOf52();
      MulMonotone(1, n, TWO53, Pow2(s));
      m := SmallPattern(n, s);
    } else if Kept(n) < TWO53 {
      m := PatternOf(Kept(n), Shift(n) + s);
    } else {
      m := PatternOf(TWO52, Shift(n) + s + 1);
      assert TWO53 * Pow2(Shift(n) + s) == TWO52 * Pow2(Shift(n) + s + 1);
    }
  }

  function Signed(negative: bool, x: nat): int {
    if negative then 0 - x else x
  }

  /** Nearest among the numbers of its sign, and not farther than zero, is nearest among all. */
  lemma NearestSigned(negative: bool, r: nat, exact: nat, other: bool, x: nat, even: bool)
    requires Near(r, exact, x, even) && Near(r, exact, 0, even)
    ensures Near(Signed(negative, r), Signed(negative, exact), Signed(other, x), even)
  {
  }

  /** b is at least as near to x as the other one; unless it is even, nearer than all other values. */
  predicate NearerOrEven(b: Bits64, x: int, other: Bits64) {
    Near(FloatValue(b), x, FloatValue(other), b % 2 == 0)
  }

  lemma ExactValue(i: Int64, n: nat, s: nat)
    requires n == if i < 0 then 0 - i else i
    ensures i * Pow2(s) == Signed(i < 0, n * Pow2(s))
  {
    var p := Pow2(s);
    assert i < 0 ==> i * p == 0 - n * p;
  }

  lemma SignedParts(b: Bits64) returns (m: nat)
    ensures m == (if SignBit(b) then b - TWO63 else b) && FloatValue(b) == Signed(SignBit(b), Magnitude(m))
    ensures b % 2 == m % 2
  {
    m := if SignBit(b) then b - TWO63 else b;
  }

  lemma NearestMagnitudes(n: nat, s: nat, r: nat, even: bool, o: nat)
    requires r == RoundedMagnitude(n) * Pow2(s) && (Shift(n) > 0 && Kept(n) % 2 == 0 ==> even)
    ensures Near(r, n * Pow2(s), Magnitude(o), even) && Near(r, n * Pow2(s), 0, even)
  {
    NearestMagnitude(n, o, s);
    NearestMagnitude(n, 0, s);
    assert Magnitude(0) == 0;
  }

  lemma PatternNearest(i: Int64, n: nat, m: nat, b: Bits64, other: Bits64, s: nat)
    requires n == (if i < 0 then 0 - i else i) && m < TWO63 && b == if i < 0 then m + TWO63 else m
    requires Magnitude(m) == RoundedMagnitude(n) * Pow2(s) && (Shift(n) > 0 && Kept(n) % 2 == 0 ==> m % 2 == 0)
    ensures NearerOrEven(b, i * Pow2(s), other)
  {
    ExactValue(i, n, s);
    var m' := SignedParts(b);
    var o := SignedParts(other);
    var r, x, y := Magnitude(m), n * Pow2(s), Magnitude(o);
    NearestMagnitudes(n, s, r, m % 2 == 0, o);
    NearestSigned(i < 0, r, x, SignBit(other), y, m % 2 == 0);
  }

  lemma RoundedPositive(n: nat, s: nat)
    requires n > 0
    ensures RoundedMagnitude(n) * Pow2(s) > 0
  {
    KeptExactly(1);
    RoundingMonotone(1, n);
    MulMonotone(1, RoundedMagnitude(n), 1, Pow2(s));
  }

  lemma NearestPattern(i: Int64, s: nat) returns (b: Float64)
    requires 53 <= s < 2034
    ensures FloatValue(b) == Signed(i < 0, RoundedMagnitude(if i < 0 then 0 - i else i) * Pow2(s))
    ensures forall other :: NearerOrEven(b, i * Pow2(s), other)
  {
    var n: nat := if i < 0 then 0 - i else i;
    var m := MagnitudePattern(n, s);
    if i < 0 {
      RoundedPositive(n, s);
      assert Magnitude(0) == 0;
    }
    b := if i < 0 then m + TWO63 else m;
    forall other
      ensures NearerOrEven(b, i * Pow2(s), other)
    {
      PatternNearest(i, n, m, b, other, s);
    }
  }

  /**
   float64(i) is a float, and there is none nearer to i; if there is another one as near, the
   pattern of float64(i) is even.
   */
  lemma NearestFloat(i: Int64) returns (b: Float64)
    ensures FloatValue(b) == IntegerAsFloat(i)
    ensures forall other :: NearerOrEven(b, i * FloatValue(ONE), other)
  {
    OneIsOne();
    b := NearestPattern(i, 1074);
  }

  /** Up to 2^53 in size the conversion is exact. */
  lemma SmallIsExact(i: Int64)
    requires 0 - TWO53 <= i <= TWO53
    ensures IntegerAsFloat(i) == i * FloatValue(ONE)
  {
    OneIsOne();
    var n: nat := if i < 0 then 0 - i else i;
    ExactValue(i, n, 1074);
    SmallRounds(n);
  }

  lemma SmallRounds(n: nat)
    requires n <= TWO53
    ensures RoundedMagnitude(n) == n
  {
    if n < TWO53 {
      KeptExactly(n);
    } else {
      assert Shift(n) == 1 && Pow2(1) == 2;
    }
  }

  // ---- Values ----

  datatype DataType = BooleanType | IntegerType | FloatType | StringType

  datatype Value =
    | Null
    | Boolean(b: bool)
    | Integer(i: Int64)
    | Float(bits: Float64)
    | Str(s: Bytes)

  type Row = seq<Value>

  function TypeOf(v: Value): Option<DataType> {
    match v
    case Null => None
    case Boolean(_) => Some(BooleanType)
    case Integer(_) => Some(IntegerType)
    case Float(_) => Some(FloatType)
    case Str(_) => Some(StringType)
  }

  function Sign(x: int, y: int): int {
    if x < y then -1 else if x > y then 1 else 0
  }

  function CompareBytes(a: Bytes, b: Bytes): int {
    if Less(a, b) then -1 else if a == b then 0 else 1
  }

  /** `Value.Compare`; None is its error. */
  function Compare(v: Value, w: Value): Option<int> {
    match (v, w)
    case (Null, Null) => Some(0)
    case (Null, _) => Some(-1)
    case (_, Null) => Some(1)
    case (Boolean(a), Boolean(b)) => Some(if a == b then 0 else if !a then -1 else 1)
    case (Integer(a), Integer(b)) => Some(Sign(a, b))
    case (Float(a), Float(b)) => Some(Sign(FloatValue(a), FloatValue(b)))
    case (Integer(a), Float(b)) => Some(Sign(IntegerAsFloat(a), FloatValue(b)))
    case (Float(a), Integer(b)) => Some(Sign(FloatValue(a), IntegerAsFloat(b)))
    case (Str(a), Str(b)) => Some(CompareBytes(a, b))
    case _ => None
  }

  // ---- What the comparison says of the values themselves ----

  /** Both boolean, both strings, or both numbers. */
  predicate Kindred(v: Value, w: Value) {
    (v.Boolean? && w.Boolean?) || (v.Str? && w.Str?) || (IsNumber(v) && IsNumber(w))
  }

  /** v is below w; an integer and a float are compared as floats. */
  predicate Below(v: Value, w: Value) {
    match (v, w)
    case (Boolean(a), Boolean(b)) => !a && b
    case (Integer(a), Integer(b)) => a < b
    case (Float(a), Float(b)) => FloatValue(a) < FloatValue(b)
    case (Integer(a), Float(b)) => IntegerAsFloat(a) < FloatValue(b)
    case (Float(a), Integer(b)) => FloatValue(a) < IntegerAsFloat(b)
    case (Str(a), Str(b)) => Less(a, b)
    case _ => false
  }

  /** Values of one type are alike if they are equal, an integer and a float if the floats are. */
  predicate Alike(v: Value, w: Value) {
    match (v, w)
    case (Integer(a), Float(b)) => IntegerAsFloat(a) == FloatValue(b)
    case (Float(a), Integer(b)) => FloatValue(a) == IntegerAsFloat(b)
    case _ => v == w
  }

  /** Values that are not NULL compare as they stand to each other, and fail exactly if they are of different kinds. */
  lemma CompareExact(v: Value, w: Value)
    requires !v.Null? && !w.Null?
    ensures Compare(v, w).None? <==> !Kindred(v, w)
    ensures Kindred(v, w) ==>
              && (Compare(v, w).value < 0 <==> Below(v, w)) && (Compare(v, w).value == 0 <==> Alike(v, w))
              && (Compare(v, w).value > 0 <==> Below(w, v))
  {
    if v.Float? && w.Float? && FloatValue(v.bits) == FloatValue(w.bits) {
      FloatValueInjective(v.bits, w.bits);
    } else if v.Str? && w.Str? {
      LessTotal(v.s, w.s);
    }
  }

  /** Swapping the operands negates the comparison, and keeps its error, for every pair of values. */
  lemma CompareSwaps(v: Value, w: Value)
    ensures Compare(w, v) == match Compare(v, w) { case None => None case Some(c) => Some(-c) }
  {
    if v.Str? && w.Str? {
      LessTotal(v.s, w.s);
    }
  }

  /** Values of one type: the ones `Compare` orders totally. */
  predicate SameType(v: Value, w: Value) {
    TypeOf(v).Some? && TypeOf(v) == TypeOf(w)
  }

  lemma FloatValueInjective(a: Float64, b: Float64)
    requires FloatValue(a) == FloatValue(b)
    ensures a == b
  {
    var m, n := if SignBit(a) then a - TWO63 else a, if SignBit(b) then b - TWO63 else b;
    MagnitudeOrder(m, n);
    MagnitudeOrder(n, m);
    MagnitudeOrder(0, m);
    MagnitudeOrder(0, n);
    assert Magnitude(0) == 0;
  }

  /** Neither is NULL, and they can be compared. */
  predicate Comparable(v: Value, w: Value) {
    !v.Null? && !w.Null? && Compare(v, w).Some?
  }

  lemma ComparableTransitive(u: Value, v: Value, w: Value)
    requires Comparable(u, v) && Comparable(v, w)
    ensures Comparable(u, w) && Comparable(w, u)
  {
  }

  /**
   Integers and floats compare in float64, so ties do not chain; a strict comparison still
   chains with one that is not.
   */
  lemma StrictChains(u: Value, v: Value, w: Value)
    requires Comparable(u, v) && Comparable(v, w)
    ensures Compare(u, v).value < 0 && Compare(v, w).value <= 0 ==> Compare(u, w).Some? && Compare(u, w).value <= 0
    ensures Compare(u, v).value <= 0 && Compare(v, w).value < 0 ==> Compare(u, w).Some? && Compare(u, w).value <= 0
  {
    ComparableTransitive(u, v, w);
    if SameType(u, v) && SameType(v, w) {
      CompareOrders(u, v, w);
    } else {
      NumbersChain(u, v, w);
    }
  }

  predicate IsNumber(v: Value) {
    v.Integer? || v.Float?
  }

  function FloatOf(v: Value): int
    requires IsNumber(v)
  {
    if v.Integer? then IntegerAsFloat(v.i) else FloatValue(v.bits)
  }

  /** Numbers that compare below or equal convert to floats below or equal. */
  lemma NumbersOrdered(v: Value, w: Value)
    requires IsNumber(v) && IsNumber(w)
    ensures Compare(v, w).Some? && (Compare(v, w).value <= 0 ==> FloatOf(v) <= FloatOf(w))
    ensures Compare(v, w).value > 0 ==> FloatOf(v) >= FloatOf(w)
    ensures !SameType(v, w) ==> Compare(v, w).value == Sign(FloatOf(v), FloatOf(w))
  {
    if v.Integer? && w.Integer? {
      if v.i <= w.i {
        IntegerAsFloatMonotone(v.i, w.i);
      } else {
        IntegerAsFloatMonotone(w.i, v.i);
      }
    }
  }

  lemma NumbersChain(u: Value, v: Value, w: Value)
    requires IsNumber(u) && IsNumber(v) && IsNumber(w) && !(SameType(u, v) && SameType(v, w))
    ensures Compare(u, v).Some? && Compare(v, w).Some? && Compare(u, w).Some?
    ensures Compare(u, v).value < 0 && Compare(v, w).value <= 0 ==> Compare(u, w).value <= 0
    ensures Compare(u, v).value <= 0 && Compare(v, w).value < 0 ==> Compare(u, w).value <= 0
  {
    NumbersOrdered(u, v);
    NumbersOrdered(v, w);
    NumbersOrdered(u, w);
  }

  /** Within a type the comparison is a total order whose ties are equal values. */
  lemma CompareOrders(u: Value, v: Value, w: Value)
    requires SameType(u, v) && SameType(v, w)
    ensures Compare(u, v).Some?
    ensures Compare(u, v) == Some(0) <==> u == v
    ensures Compare(u, v).value <= 0 && Compare(v, w).value <= 0 ==> Compare(u, w).Some? && Compare(u, w).value <= 0
  {
    match u
    case Float(a) =>
      if FloatValue(a) == FloatValue(v.bits) {
        FloatValueInjective(a, v.bits);
      }
    case Str(a) =>
      LessTotal(a, v.s);
      LessTotal(v.s, w.s);
      LessTotal(a, w.s);
      if Less(a, v.s) && Less(v.s, w.s) {
        LessTransitive(a, v.s, w.s);
      }
    case _ =>
  }
}
