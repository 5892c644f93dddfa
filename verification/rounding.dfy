// Decimal scaling and the rounding of decoded values to hundredths, over exact rationals.
module Rounding {

  /** Rounds to the nearest integer, halves away from zero. */
  function Round(x: real): int {
    if x >= 0.0 then (x + 0.5).Floor else -((-x + 0.5).Floor)
  }

  /** Rounds to hundredths. */
  function Hundredths(x: real): real { Round(x * 100.0) as real / 100.0 }

  /** The exact value of a raw reading. */
  function Scaled(raw: int, factor: real): real { raw as real * factor }

  /** A decoded value: raw times factor, rounded to hundredths. */
  function Value(raw: int, factor: real): real { Hundredths(Scaled(raw, factor)) }

  function Pow10(k: int): (r: real)
    ensures r > 0.0
    decreases if k < 0 then -k else k
  {
    if k == 0 then 1.0 else if k > 0 then 10.0 * Pow10(k - 1) else Pow10(k + 1) / 10.0
  }

  // ---- Rounding ------------------------------------------------------------------------------------

  lemma RoundNearest(x: real)
    ensures -0.5 <= Round(x) as real - x <= 0.5
  {
  }

  /** Round(x) is the only integer strictly within half of x. */
  lemma RoundUnique(x: real, n: int)
    requires -0.5 < x - n as real < 0.5
    ensures Round(x) == n
  {
  }

  lemma RoundMonotone(x: real, y: real)
    requires x <= y
    ensures Round(x) <= Round(y)
  {
  }

  lemma RoundOdd(x: real)
    ensures Round(-x) == -Round(x)
  {
  }

  lemma HundredthsNearest(x: real)
    ensures -0.005 <= Hundredths(x) - x <= 0.005
  {
    RoundNearest(x * 100.0);
  }

  lemma HundredthsMonotone(x: real, y: real)
    requires x <= y
    ensures Hundredths(x) <= Hundredths(y)
  {
    RoundMonotone(x * 100.0, y * 100.0);
  }

  lemma HundredthsOdd(x: real)
    ensures Hundredths(-x) == -Hundredths(x)
  {
    RoundOdd(x * 100.0);
  }

  lemma HundredthsWhole(x: real, n: int)
    requires x * 100.0 == n as real
    ensures Hundredths(x) == x
  {
    RoundUnique(n as real, n);
  }

  lemma HundredthsTiny(x: real)
    requires -0.005 < x < 0.005
    ensures Hundredths(x) == 0.0
  {
    RoundUnique(x * 100.0, 0);
  }

  // ---- Products, the only nonlinear steps ----------------------------------------------------------

  lemma ScaleMonotone(a: real, b: real, f: real)
    requires a <= b && f >= 0.0
    ensures a * f <= b * f
  {
  }

  lemma ScaleDifference(a: real, b: real, f: real)
    ensures (a - b) * f == a * f - b * f
  {
  }

  lemma ScaleNegates(a: real, f: real)
    ensures (-a) * f == -(a * f)
  {
  }

  lemma Regroup(a: real, b: real)
    ensures a * b * 100.0 == a * (b * 100.0)
  {
  }

  lemma CastProduct(a: int, b: int)
    ensures a as real * b as real == (a * b) as real
  {
  }

  lemma ScaledMonotone(a: int, b: int, f: real)
    requires a <= b && f >= 0.0
    ensures Scaled(a, f) <= Scaled(b, f)
  {
    ScaleMonotone(a as real, b as real, f);
  }

  lemma ScaledNegates(raw: int, f: real)
    ensures Scaled(-raw, f) == -Scaled(raw, f)
  {
    ScaleNegates(raw as real, f);
  }

  lemma ScaledWhole(raw: int, f: real, m: int)
    requires f * 100.0 == m as real
    ensures Scaled(raw, f) * 100.0 == (raw * m) as real
  {
    Regroup(raw as real, f);
    CastProduct(raw, m);
  }

  /** Products that differ by at most e of factors of at least g come from numbers at most e / g apart. */
  lemma GapReal(a: real, b: real, f: real, g: real, n: real)
    requires f >= g > 0.0 && n >= 0.0 && -(n * g) <= a * f - b * f <= n * g
    ensures -n <= a - b <= n
  {
    ScaleDifference(a, b, f);
    if a - b > n {
      ScaleMonotone(n, a - b, f);
      ScaleMonotone(g, f, n);
      ScaleStrict(n, a - b, f);
    } else if a - b < -n {
      ScaleStrict(a - b, -n, f);
      ScaleMonotone(g, f, n);
      ScaleNegates(n, f);
    }
  }

  lemma ScaleStrict(a: real, b: real, f: real)
    requires a < b && f > 0.0
    ensures a * f < b * f
  {
  }

  lemma ScaledGap(a: int, b: int, f: real)
    requires f >= 0.0001 && -0.01 <= Scaled(a, f) - Scaled(b, f) <= 0.01
    ensures -100 <= a - b <= 100
  {
    GapReal(a as real, b as real, f, 0.0001, 100.0);
  }

  lemma QuotientTimes(v: real, f: real)
    requires f > 0.0
    ensures v / f * f == v
  {
  }

  lemma FactorsClose(q: real, r: real, f: real)
    requires f > 0.01 && -0.005 <= q * f - r * f <= 0.005
    ensures -0.5 < q - r < 0.5
  {
    var d := q - r;
    ScaleDifference(q, r, f);
    assert -0.005 <= d * f <= 0.005;
    if d >= 0.5 {
      ScaleMonotone(0.5, d, f);
    } else if d <= -0.5 {
      ScaleMonotone(d, -0.5, f);
    }
  }

  /** A number within half a hundredth of a product determines the first factor if the second exceeds a hundredth. */
  lemma QuotientClose(v: real, r: real, f: real)
    requires f > 0.01 && -0.005 <= v - r * f <= 0.005
    ensures -0.5 < v / f - r < 0.5
  {
    QuotientTimes(v, f);
    FactorsClose(v / f, r, f);
  }

  lemma HundredthQuotient(v: real, r: real)
    requires v == r * 0.01
    ensures v / 0.01 == r
  {
  }

  // ---- Decoded values ------------------------------------------------------------------------------

  /** The decoded value is within half a hundredth of the exact product. */
  lemma ValueNearest(raw: int, factor: real)
    ensures -0.005 <= Value(raw, factor) - Scaled(raw, factor) <= 0.005
  {
    hide Hundredths, Scaled;
    HundredthsNearest(Scaled(raw, factor));
  }

  /** Decoding keeps the order of raw values. */
  lemma ValueMonotone(a: int, b: int, factor: real)
    requires a <= b && factor >= 0.0
    ensures Value(a, factor) <= Value(b, factor)
  {
    hide Hundredths, Scaled;
    ScaledMonotone(a, b, factor);
    HundredthsMonotone(Scaled(a, factor), Scaled(b, factor));
  }

  /** Positive and negative readings are rounded alike. */
  lemma ValueOdd(raw: int, factor: real)
    ensures Value(-raw, factor) == -Value(raw, factor)
  {
    hide Hundredths, Scaled;
    ScaledNegates(raw, factor);
    HundredthsOdd(Scaled(raw, factor));
  }

  /** The raw value that a decoded value stands for. */
  function Recover(value: real, factor: real): int
    requires factor > 0.0
  {
    Round(value / factor)
  }

  lemma RecoverFine(raw: int, factor: real)
    requires factor > 0.01
    ensures Recover(Value(raw, factor), factor) == raw
  {
    ValueNearest(raw, factor);
    hide Value, Round;
    QuotientClose(Value(raw, factor), raw as real, factor);
    RoundUnique(Value(raw, factor) / factor, raw);
  }

  /** With steps of at least a hundredth no information is lost. */
  lemma RecoverExact(raw: int, factor: real)
    requires factor >= 0.01
    ensures Recover(Value(raw, factor), factor) == raw
  {
    if factor == 0.01 {
      ScaledWhole(raw, 0.01, 1);
      HundredthsWhole(Scaled(raw, 0.01), raw);
      HundredthQuotient(Value(raw, 0.01), raw as real);
      RoundUnique(raw as real, raw);
    } else {
      RecoverFine(raw, factor);
    }
  }

  // ---- Powers of ten -------------------------------------------------------------------------------

  lemma Pow10Step(k: int)
    ensures Pow10(k + 1) == 10.0 * Pow10(k)
  {
  }

  lemma {:induction false} Pow10Monotone(j: int, k: int)
    requires j <= k
    ensures Pow10(j) <= Pow10(k)
    decreases k - j
  {
    if j < k {
      Pow10Monotone(j, k - 1);
      Pow10Step(k - 1);
    }
  }

  lemma SmallPowers()
    ensures Pow10(-2) == 0.01 && Pow10(-3) == 0.001 && Pow10(-4) == 0.0001 && Pow10(-5) == 0.00001
  {
    Pow10Step(-1);
    Pow10Step(-2);
    Pow10Step(-3);
    Pow10Step(-4);
    Pow10Step(-5);
  }

  lemma Pow10Shift(k: int)
    ensures Pow10(k) * 100.0 == Pow10(k + 2)
  {
    Pow10Step(k);
    Pow10Step(k + 1);
  }

  lemma {:induction false} WholePow10(k: int) returns (m: int)
    requires k >= 0
    ensures m as real == Pow10(k)
    decreases k
  {
    if k == 0 {
      m := 1;
    } else {
      m := WholePow10(k - 1);
      m := 10 * m;
    }
  }

  // ---- Which hundredth exactly ---------------------------------------------------------------------

  /** h is the integer nearest to x, and of two equally near ones the one farther from zero. */
  predicate NearestAway(x: real, h: int) {
    && -0.5 <= h as real - x <= 0.5
    && (h as real - x == 0.5 ==> x > 0.0)
    && (h as real - x == -0.5 ==> x < 0.0)
  }

  lemma RoundIff(x: real, h: int)
    ensures Round(x) == h <==> NearestAway(x, h)
  {
  }

  lemma DividedBack(a: int, b: int)
    ensures a as real / 100.0 == b as real / 100.0 <==> a == b
  {
    if a as real / 100.0 == b as real / 100.0 {
      assert a as real == a as real / 100.0 * 100.0;
    }
  }

  /** The decoded value is h hundredths exactly when h is nearest to a hundred times the product, ties going away from
      zero; so there is one such h, and no other rounding rule fits. */
  lemma ValueIff(raw: int, factor: real, h: int)
    ensures Value(raw, factor) == h as real / 100.0 <==> NearestAway(Scaled(raw, factor) * 100.0, h)
  {
    var x := Scaled(raw, factor) * 100.0;
    RoundIff(x, h);
    hide Round, Scaled;
    DividedBack(Round(x), h);
  }

  /** Half-way between two hundredths the one farther from zero is taken. */
  lemma ValueTie(raw: int, factor: real, n: int)
    requires Scaled(raw, factor) * 100.0 == n as real + 0.5
    ensures Value(raw, factor) == (if n >= 0 then n + 1 else n) as real / 100.0
  {
    ValueIff(raw, factor, if n >= 0 then n + 1 else n);
  }

  /** With three decimals, readings that end in 5 are half-way. */
  lemma ThousandthsTie()
    ensures Value(5, 0.001) == 0.01 && Value(15, 0.001) == 0.02 && Value(-5, 0.001) == -0.01
    ensures Value(4, 0.001) == 0.0 && Value(6, 0.001) == 0.01
  {
    ValueIff(5, 0.001, 1);
    ValueIff(15, 0.001, 2);
    ValueIff(-5, 0.001, -1);
    ValueIff(4, 0.001, 0);
    ValueIff(6, 0.001, 1);
    hide Value;
  }

  // ---- How many decimals survive -------------------------------------------------------------------

  /** The value published for a raw reading of a field with p decimals. */
  function Reading(raw: int, p: int): real { Value(raw, Pow10(-p)) }

  ghost predicate Distinguishes(p: int) {
    forall a: int, b: int | a != b :: Reading(a, p) != Reading(b, p)
  }

  lemma CoarseDistinguishes(a: int, b: int, p: int)
    requires p <= 2 && a != b
    ensures Reading(a, p) != Reading(b, p)
  {
    SmallPowers();
    Pow10Monotone(-2, -p);
    hide Pow10, Value;
    RecoverExact(a, Pow10(-p));
    RecoverExact(b, Pow10(-p));
  }

  lemma FineConfuses(p: int)
    requires p > 2
    ensures Reading(0, p) == Reading(1, p) == 0.0
  {
    SmallPowers();
    Pow10Monotone(-p, -3);
    hide Pow10, Hundredths;
    HundredthsTiny(Scaled(0, Pow10(-p)));
    HundredthsTiny(Scaled(1, Pow10(-p)));
  }

  /** A field with p decimals keeps different raw values apart exactly when p is at most 2; beyond that even the raw
      values 0 and 1 read alike. */
  lemma PrecisionIff(p: int)
    ensures Distinguishes(p) <==> p <= 2
    ensures p > 2 ==> Reading(0, p) == Reading(1, p)
  {
    hide Reading;
    if p <= 2 {
      forall a: int, b: int | a != b
        ensures Reading(a, p) != Reading(b, p)
      {
        CoarseDistinguishes(a, b, p);
      }
    } else {
      FineConfuses(p);
    }
  }

  /** Up to four decimals, readings that look alike come from raw values at most 100 apart. */
  lemma SameValueClose(a: int, b: int, p: int)
    requires p <= 4 && Value(a, Pow10(-p)) == Value(b, Pow10(-p))
    ensures -100 <= a - b <= 100
  {
    SmallPowers();
    Pow10Monotone(-4, -p);
    hide *;
    ValueNearest(a, Pow10(-p));
    ValueNearest(b, Pow10(-p));
    ScaledGap(a, b, Pow10(-p));
  }

  lemma ByteTimesSmall(x: real)
    requires 0.0 <= x < 256.0
    ensures -0.005 < x * 0.00001 < 0.005
  {
  }

  /** With five decimals no byte makes half a hundredth. */
  lemma SmallByteVanishes(b: int)
    requires 0 <= b < 0x100
    ensures Value(b, Pow10(-5)) == 0.0
  {
    SmallPowers();
    hide Hundredths;
    ByteTimesSmall(b as real);
    HundredthsTiny(Scaled(b, 0.00001));
  }

  /** With at most two decimals nothing is rounded. */
  lemma ExactValue(raw: int, p: int)
    requires p <= 2
    ensures Value(raw, Pow10(-p)) == Scaled(raw, Pow10(-p))
  {
    var m := WholePow10(2 - p);
    Pow10Shift(-p);
    hide Pow10, Hundredths, Scaled;
    ScaledWhole(raw, Pow10(-p), m);
    HundredthsWhole(Scaled(raw, Pow10(-p)), raw * m);
  }
}
