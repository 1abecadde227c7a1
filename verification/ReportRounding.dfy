/**
 Rendering an exact fraction at eighteen places.  The program divides at a finite precision, rounding
 half to even, and then rounds the quotient half to even again; the two roundings together always give
 what rounding the exact fraction once would give.
 */
module ReportRounding {
  import opened Arith
  import opened Digits
  import opened Q18

  // ---------- rounding half to even ----------

  /** The integer nearest to n / d, the even one of two equally near. */
  function HalfEven(n: int, d: int): int
    requires d > 0
  {
    var q, r := n / d, n % d;
    if 2 * r < d || (2 * r == d && q % 2 == 0) then q else q + 1
  }

  /** h is at most half a unit away from n / d, and even when it is exactly half a unit away. */
  ghost predicate IsHalfEven(n: int, d: int, h: int) {
    -d <= 2 * (n - h * d) <= d && (2 * (n - h * d) == d || 2 * (n - h * d) == -d ==> h % 2 == 0)
  }

  lemma HalfEvenIs(n: int, d: int)
    requires d > 0
    ensures IsHalfEven(n, d, HalfEven(n, d))
  {
    var q, r := n / d, n % d;
    assert n == q * d + r;
    assert (q + 1) * d == q * d + d;
  }

  lemma HalfEvenUnique(n: int, d: int, h: int, h': int)
    requires d > 0 && IsHalfEven(n, d, h) && IsHalfEven(n, d, h')
    ensures h == h'
  {
    MulDistributes(h, h', d);
    if h != h' {
      NearMultiples(h - h', d);
    }
  }

  lemma NearMultiples(z: int, d: int)
    requires d > 0 && z != 0 && -d <= z * d <= d
    ensures z == 1 || z == -1
  {
    if z >= 2 {
      assert false by { MulAtLeast(z, 2, d); }
    } else if z <= -2 {
      assert false by { MulAtLeast(-z, 2, d); NegatedProduct(z, d); }
    }
  }

  lemma MulAtLeast(z: int, k: int, d: int)
    requires z >= k && d > 0
    ensures z * d >= k * d
  {
  }

  lemma NegatedProduct(z: int, d: int)
    ensures (-z) * d == -(z * d)
  {
  }

  // ---------- rounding twice ----------

  /** c / S is n / d rounded to a unit of 1 / S; rounding that to units of 1 / A is rounding n / d. */
  lemma RoundingTwice(n: int, d: int, A: int, S: int, T: int)
    requires d > 0 && A > 0 && T > 0 && S == 2 * A * T && A * d < S
    ensures HalfEven(HalfEven(n * S, d) * A, S) == HalfEven(n * A, d)
  {
    hide HalfEven;
    var c, h := HalfEven(n * S, d), HalfEven(n * A, d);
    HalfEvenIs(n * S, d);
    HalfEvenIs(n * A, d);
    if -d < 2 * (n * A - h * d) < d {
      AwayFromMidpoint(n, d, A, S, c, h);
    } else {
      AtMidpoint(n, d, A, S, T, c, h);
    }
    HalfEvenIs(c * A, S);
    HalfEvenUnique(c * A, S, HalfEven(c * A, S), h);
  }

  /** d times the second rounding's error, split into the two errors. */
  lemma ErrorSplits(n: int, d: int, A: int, S: int, c: int, h: int)
    ensures 2 * (c * A - h * S) * d == A * (2 * (c * d - n * S)) + S * (2 * (n * A - h * d))
  {
    MulAssociates(c, A, d);
    MulAssociates(h, S, d);
    assert A * (c * d) == c * (A * d);
    assert A * (n * S) == S * (n * A);
    assert S * (h * d) == h * (S * d);
  }

  lemma BoundedProduct(a: int, x: int, b: int)
    requires a >= 0 && -b <= x <= b
    ensures -(a * b) <= a * x <= a * b
  {
  }

  lemma DivideBound(x: int, d: int, s: int)
    requires d > 0 && -(s * d) < x * d < s * d
    ensures -s < x < s
  {
    if x >= s {
      MulAtLeast(x, s, d);
    } else if x <= -s {
      MulAtLeast(-x, s, d);
      NegatedProduct(x, d);
    }
  }

  /** Not exactly between two candidates: the first rounding is too fine to reach the midpoint. */
  lemma AwayFromMidpoint(n: int, d: int, A: int, S: int, c: int, h: int)
    requires d > 0 && A > 0 && A * d < S
    requires -d <= 2 * (n * S - c * d) <= d
    requires -d < 2 * (n * A - h * d) < d
    ensures IsHalfEven(c * A, S, h)
  {
    var e1, e2 := 2 * (c * d - n * S), 2 * (n * A - h * d);
    ErrorSplits(n, d, A, S, c, h);
    BoundedProduct(A, e1, d);
    BoundedProduct(S, e2, d - 1);
    assert S * (d - 1) == S * d - S;
    DivideBound(2 * (c * A - h * S), d, S);
  }

  /** Exactly between two candidates: the first rounding is exact, and the tie is seen again. */
  lemma AtMidpoint(n: int, d: int, A: int, S: int, T: int, c: int, h: int)
    requires d > 0 && A > 0 && T > 0 && S == 2 * A * T
    requires IsHalfEven(n * S, d, c) && IsHalfEven(n * A, d, h)
    requires 2 * (n * A - h * d) == d || 2 * (n * A - h * d) == -d
    ensures IsHalfEven(c * A, S, h)
  {
    var odd := if 2 * (n * A - h * d) == d then 2 * h + 1 else 2 * h - 1;
    OddHalves(n * A, d, h, odd);
    TimesT(n, d, A, S, T, odd);
    ExactIsHalfEven(odd * T, d);
    HalfEvenUnique(n * S, d, c, odd * T);
    TieSeenAgain(odd, h, T, A);
  }

  lemma OddHalves(x: int, d: int, h: int, odd: int)
    requires (2 * (x - h * d) == d && odd == 2 * h + 1) || (2 * (x - h * d) == -d && odd == 2 * h - 1)
    ensures 2 * x == odd * d
  {
    if odd == 2 * h + 1 {
      assert (2 * h + 1) * d == 2 * (h * d) + d;
    } else {
      assert (2 * h - 1) * d == 2 * (h * d) - d;
    }
  }

  lemma TimesT(n: int, d: int, A: int, S: int, T: int, odd: int)
    requires S == 2 * A * T && 2 * (n * A) == odd * d
    ensures n * S == (odd * T) * d
  {
    assert n * S == (2 * (n * A)) * T;
    assert (odd * d) * T == (odd * T) * d;
  }

  lemma TieSeenAgain(odd: int, h: int, T: int, A: int)
    requires odd == 2 * h + 1 || odd == 2 * h - 1
    ensures 2 * ((odd * T) * A - h * (2 * A * T)) == if odd == 2 * h + 1 then 2 * A * T else -(2 * A * T)
  {
    assert (odd * T) * A == odd * (A * T);
    assert h * (2 * A * T) == (2 * h) * (A * T);
    MulDistributes(odd, 2 * h, A * T);
  }

  lemma ExactIsHalfEven(x: int, d: int)
    requires d > 0
    ensures IsHalfEven(x * d, d, x)
  {
  }

  // ---------- the program's precision ----------

  function Scale18(): nat {
    Pow10(18)
  }

  function DigitCount(n: nat): nat {
    |NatText(n)|
  }

  function Max(a: nat, b: nat): nat {
    if a < b then b else a
  }

  /** Significant digits the division works with. */
  function Precision(n: int, d: nat): nat {
    Max(80, DigitCount(Magnitude(n)) + DigitCount(d) + 24)
  }

  /** The number of decimal places, from `from` on, at which |n| / d first shows p significant digits. */
  function PlacesFor(n: nat, d: nat, p: nat, from: nat): (s: nat)
    requires n > 0 && d > 0 && p > 0
    ensures from <= s && n * Pow10(s) / d >= Pow10(p - 1)
    decreases p + DigitCount(d) - from
  {
    if n * Pow10(from) / d >= Pow10(p - 1) then from
    else
      EnoughPlaces(n, d, p, from);
      PlacesFor(n, d, p, from + 1)
  }

  lemma DigitBound(n: nat)
    ensures n < Pow10(DigitCount(n))
  {
    NatOfNatText(n);
    NatOfBound(NatText(n));
  }

  lemma EnoughPlaces(n: nat, d: nat, p: nat, s: nat)
    requires n > 0 && d > 0 && p > 0 && n * Pow10(s) / d < Pow10(p - 1)
    ensures s < p + DigitCount(d)
  {
    hide Pow10, DigitCount;
    if s >= p + DigitCount(d) {
      DigitBound(d);
      Pow10Grows(p - 1 + DigitCount(d), s);
      Pow10Adds(p - 1, DigitCount(d));
      AtLeastQuotient(n * Pow10(s), d, Pow10(p - 1), Pow10(DigitCount(d)), n, Pow10(s));
    }
  }

  lemma AtLeastQuotient(x: nat, d: nat, q: nat, e: nat, n: nat, y: nat)
    requires d > 0 && d < e && n >= 1 && x == n * y && y >= q * e
    ensures x / d >= q
  {
    assert x >= y;
    assert q * e >= q * d;
    QuotientAtLeast(x, d, q);
  }

  lemma QuotientAtLeast(x: nat, d: nat, q: nat)
    requires d > 0 && x >= q * d
    ensures x / d >= q
  {
    var q0, r := x / d, x % d;
    assert x == q0 * d + r;
    assert (q0 + 1) * d == q0 * d + d;
    if q0 < q {
      MulAtLeast(q, q0 + 1, d);
    }
  }

  /** The quotient at the program's precision, in units of 10^-places. */
  function Quotient(n: int, d: nat): (r: (int, nat))
    requires d > 0
  {
    if n == 0 then (0, 0)
    else
      var places := PlacesFor(Magnitude(n), d, Precision(n, d), 0);
      (HalfEven(n * Pow10(places), d), places)
  }

  /** Divide at that precision, quantize to eighteen places, print; a zero never carries a sign. */
  function RenderFraction18(n: int, d: nat): string
    requires d > 0
  {
    var (coefficient, places) := Quotient(n, d);
    RenderQuanta(HalfEven(coefficient * Scale18(), Pow10(places)))
  }

  /** The places found show exactly p significant digits, so the division is rounded at precision p and no other. */
  lemma {:induction false} PlacesShowPrecision(n: nat, d: nat, p: nat, from: nat)
    requires n > 0 && d > 0 && p > 0
    requires n * Pow10(from) / d < Pow10(p)
    ensures n * Pow10(PlacesFor(n, d, p, from)) / d < Pow10(p)
    decreases p + DigitCount(d) - from
  {
    hide DigitCount;
    if n * Pow10(from) / d < Pow10(p - 1) {
      EnoughPlaces(n, d, p, from);
      TenTimes(n * Pow10(from), d, Pow10(p - 1));
      assert n * Pow10(from + 1) == 10 * (n * Pow10(from));
      PlacesShowPrecision(n, d, p, from + 1);
    }
  }

  lemma TenTimes(x: nat, d: nat, q: nat)
    requires d > 0 && x / d < q
    ensures 10 * x / d < 10 * q
  {
    QuotientBelow(x, d, q);
    QuotientLess(10 * x, d, 10 * q);
  }

  lemma QuotientBelow(x: nat, d: nat, q: nat)
    requires d > 0 && x / d < q
    ensures x < q * d
  {
    var q0 := x / d;
    assert x == q0 * d + x % d;
    assert (q0 + 1) * d == q0 * d + d;
    MulAtLeast(q, q0 + 1, d);
  }

  lemma QuotientLess(x: nat, d: nat, q: nat)
    requires d > 0 && x < q * d
    ensures x / d < q
  {
    var q0 := x / d;
    assert x == q0 * d + x % d;
    if q0 >= q {
      MulAtLeast(q0, q, d);
    }
  }

  /** At the program's precision the first quotient has exactly that many digits. */
  lemma QuotientHasPrecision(n: int, d: nat)
    requires d > 0 && n != 0
    ensures var p, s := Precision(n, d), PlacesFor(Magnitude(n), d, Precision(n, d), 0);
      Pow10(p - 1) <= Magnitude(n) * Pow10(s) / d < Pow10(p)
  {
    hide DigitCount, PlacesFor;
    var m, p := Magnitude(n), Precision(n, d);
    DigitBound(m);
    QuotientAtMost(m, d);
    Pow10Grows(DigitCount(m), p);
    assert m * Pow10(0) == m;
    PlacesShowPrecision(m, d, p, 0);
  }

  /** The precision leaves more places than the denominator and the eighteen need. */
  lemma PlacesAreMany(n: int, d: nat)
    requires d > 0 && n != 0
    ensures PlacesFor(Magnitude(n), d, Precision(n, d), 0) >= DigitCount(d) + 23
  {
    hide Pow10, DigitCount, PlacesFor;
    var m, p := Magnitude(n), Precision(n, d);
    var s := PlacesFor(m, d, p, 0);
    if s < DigitCount(d) + 23 {
      DigitBound(m);
      QuotientAtMost(m * Pow10(s), d);
      Pow10Adds(DigitCount(m), s);
      StrictProduct(m, Pow10(DigitCount(m)), Pow10(s));
      Pow10Grows(DigitCount(m) + s, p - 1);
    }
  }

  lemma QuotientAtMost(x: nat, d: nat)
    requires d > 0
    ensures x / d <= x
  {
    var q := x / d;
    assert x == q * d + x % d;
    if q > 0 {
      MulAtLeast(d, 1, q);
    }
  }

  lemma StrictProduct(a: nat, b: nat, c: nat)
    requires a < b && c >= 1
    ensures a * c < b * c
  {
  }

  /**
   For every fraction the printed text is the exact fraction rounded once, half to even, to eighteen
   places.
   */
  lemma RenderedFractionIsRoundedOnce(n: int, d: nat)
    requires d > 0
    ensures RenderFraction18(n, d) == RenderQuanta(HalfEven(n * Scale18(), d))
  {
    hide Pow10, DigitCount, PlacesFor, HalfEven, RenderQuanta;
    if n == 0 {
      ZeroRounds(d);
    } else {
      var s := PlacesFor(Magnitude(n), d, Precision(n, d), 0);
      PlacesAreMany(n, d);
      DigitBound(d);
      PlacesSplit(d, s);
      RoundingTwice(n, d, Pow10(18), Pow10(s), 5 * Pow10(s - 19));
    }
  }

  lemma ZeroRounds(d: nat)
    requires d > 0
    ensures HalfEven(0 * Scale18(), 1) == 0 && HalfEven(0 * Scale18(), d) == 0
    ensures Pow10(0) == 1
  {
  }

  lemma PlacesSplit(d: nat, s: nat)
    requires d < Pow10(DigitCount(d)) && s >= DigitCount(d) + 23
    ensures Pow10(s) == 2 * Pow10(18) * (5 * Pow10(s - 19))
    ensures Pow10(18) * d < Pow10(s)
  {
    hide Pow10, DigitCount;
    Pow10Adds(19, s - 19);
    Nineteen();
    SplitTen(Pow10(18), Pow10(s - 19));
    Pow10Adds(18, DigitCount(d));
    Pow10Grows(18 + DigitCount(d), s);
    StrictProduct(d, Pow10(DigitCount(d)), Pow10(18));
  }

  lemma Nineteen()
    ensures Pow10(19) == 10 * Pow10(18)
  {
  }

  lemma SplitTen(a: nat, t: nat)
    ensures (10 * a) * t == 2 * a * (5 * t)
  {
  }

  /** The rendering stays within half a unit of the eighteenth place of the exact fraction. */
  lemma RenderedFractionIsNearest(n: int, d: nat)
    requires d > 0
    ensures exists h: int :: RenderFraction18(n, d) == RenderQuanta(h) && IsHalfEven(n * Scale18(), d, h)
  {
    hide RenderFraction18, RenderQuanta, HalfEven, Pow10;
    RenderedFractionIsRoundedOnce(n, d);
    HalfEvenIs(n * Scale18(), d);
  }

  /** Whatever rounds to zero prints without a sign, negative fractions included. */
  lemma ZeroPrintsUnsigned(n: int, d: nat)
    requires d > 0
    ensures RenderFraction18(n, d) == "0.000000000000000000" <==> 0 - d <= 2 * (n * Scale18()) <= d
  {
    hide RenderFraction18, RenderQuanta, HalfEven, Pow10;
    RenderedFractionIsRoundedOnce(n, d);
    HalfEvenIs(n * Scale18(), d);
    var h := HalfEven(n * Scale18(), d);
    ZeroText();
    if RenderFraction18(n, d) == "0.000000000000000000" {
      RenderInjective(h, 0);
    }
    if 0 - d <= 2 * (n * Scale18()) <= d {
      HalfEvenUnique(n * Scale18(), d, h, 0);
    }
  }
}
