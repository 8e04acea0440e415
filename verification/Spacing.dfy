/** Powers of two and powers of ten keep apart: within the range of the formats no quotient
    of one by the other is within one part in `GAP` of one. */
module Spacing {
  import opened Powers
  import opened RealPowers
  import opened Logarithms
  import opened Exponents

  /** A small relative step, taken `q` times, at most doubles its sum. */
  lemma {:induction false} SmallSteps(g: nat, q: nat)
    requires 2 * q <= g
    ensures Pow(g + 1, q) * g <= Pow(g, q) * (g + 2 * q)
    decreases q
  {
    if q == 0 {
      assert Pow(g + 1, 0) == 1 && Pow(g, 0) == 1;
    } else {
      SmallSteps(g, q - 1);
      OneStep(g, q, Pow(g + 1, q - 1), Pow(g, q - 1));
    }
  }

  lemma AllSteps(g: nat, q: nat, h: nat)
    requires 2 * q <= g && h == g + 2 * q
    ensures Exceeds(Pow(g, q), Pow(g + 1, q), h, g)
  {
    hide Pow;
    SmallSteps(g, q);
  }

  lemma OneStep(g: nat, q: nat, x: nat, y: nat)
    requires 0 < q && 2 * q <= g && x * g <= y * (g + 2 * (q - 1))
    ensures (g + 1) * x * g <= g * y * (g + 2 * q)
  {
    var c := g + 2 * (q - 1);
    MulMonotone(x * g, g + 1, y * c, g + 1);
    MulMonotone(y, c * (g + 1), y, g * (g + 2 * q)) by { StepArithmetic(g, q); }
    Reorder(x, g, g + 1);
    Reorder(y, g, g + 2 * q);
    Reorder(y, c, g + 1);
  }

  lemma StepArithmetic(g: nat, q: nat)
    requires 0 < q && 2 * q <= g
    ensures 0 <= (g + 2 * (q - 1)) * (g + 1) <= g * (g + 2 * q)
  {
    assert (g + 2 * (q - 1)) * (g + 1) == g * g + g * (2 * q) - g + 2 * (q - 1);
    assert g * (g + 2 * q) == g * g + g * (2 * q);
  }

  lemma Reorder(x: int, g: int, h: int)
    ensures x * g * h == h * x * g == g * x * h == x * (g * h)
  {
  }

  /** `b` exceeds `a` by the factor `h / g`. */
  ghost predicate Exceeds(b: nat, a: nat, g: nat, h: nat) { a * h <= b * g }

  /** A gap between `a` and `b` is there between their powers. */
  lemma GapInPowers(a: nat, b: nat, n: nat, g: nat, h: nat)
    requires 0 < n && Exceeds(b, a, g, h) && a <= b
    ensures Exceeds(Pow(b, n), Pow(a, n), g, h)
  {
    PowBase(a, b, n - 1);
    GapInProducts(a, b, Pow(a, n - 1), Pow(b, n - 1), g, h);
  }

  lemma GapInProducts(a: nat, b: nat, x: nat, y: nat, g: nat, h: nat)
    requires a * h <= b * g && x <= y
    ensures a * x * h <= b * y * g
  {
    MulMonotone(a * h, x, b * g, y);
    assert a * x * h == a * h * x && b * y * g == b * g * y;
  }

  /** If `x^q <= a^n`, `b^n <= y^q` and `b` exceeds `a` by enough, `y` exceeds `x` by one part
      in `g`. */
  lemma GapInRoots(x: nat, y: nat, q: nat, a: nat, b: nat, n: nat, g: nat, h: nat)
    requires 0 < q && 0 < n && 2 * q <= g && h == g + 2 * q
    requires Pow(x, q) <= Pow(a, n) && Pow(b, n) <= Pow(y, q)
    requires Exceeds(b, a, g, h) && a <= b
    ensures Exceeds(y, x, g, g + 1)
  {
    hide Pow, Exceeds;
    GapInPowers(a, b, n, g, h);
    AllSteps(g, q, h);
    PowersOrdered(x, y, q, Pow(a, n), Pow(b, n), g, h);
  }

  lemma PowersOrdered(x: nat, y: nat, q: nat, an: nat, bn: nat, g: nat, h: nat)
    requires Pow(x, q) <= an && bn <= Pow(y, q) && 0 < g && 0 < q
    requires Exceeds(bn, an, g, h) && Exceeds(Pow(g, q), Pow(g + 1, q), h, g)
    ensures Exceeds(y, x, g, g + 1)
  {
    PowProduct(y, g, q);
    PowProduct(x, g + 1, q);
    hide Pow;
    OrderThrough(Pow(x, q), Pow(y, q), Pow(g, q), Pow(g + 1, q), an, bn, g, h);
    RootOrder(x * (g + 1), y * g, q);
  }

  lemma RootOrder(u: nat, v: nat, q: nat)
    requires 0 < q && Pow(u, q) <= Pow(v, q)
    ensures u <= v
  {
    PowBase(v, u, q);
  }

  lemma OrderThrough(xq: nat, yq: nat, gq: nat, hq: nat, an: nat, bn: nat, g: nat, h: nat)
    requires xq <= an && bn <= yq && an * h <= bn * g && hq * g <= gq * h && 0 < g
    ensures xq * hq <= yq * gq
  {
    MulMonotone(xq, hq * g, xq, gq * h);
    MulMonotone(xq, h, an, h);
    MulMonotone(bn, g, yq, g);
    MulMonotone(xq * h, gq, yq * g, gq);
    Gather(xq, hq, g);
    Gather(yq, gq, g);
    Gather(xq, gq, h);
    MulOrder(g, yq * gq, xq * hq);
  }

  lemma Gather(x: int, y: int, g: int)
    ensures x * (y * g) == g * (x * y) == x * g * y
  {
  }

  /** A power of two above a power of ten is above it by one part in `GAP`. */
  lemma TwoAbove(a: nat, n: nat)
    requires 0 < a < 28738 && Pow(10, n) < Pow(2, a)
    ensures Pow(10, n) * (GAP + 1) <= Pow(2, a) * GAP
  {
    var q, p := 15437, 4647;
    hide Pow;
    Neighbours(a, n);
    if n * q > a * p { TwoBelowTen(a, n); }
    LowerBound(q, p);
    PowPow(10, n, q, n * q);
    PowPow(10, p, a, a * p);
    PowPow(2, a, q, a * q);
    PowMonotone(10, n * q, a * p);
    GapInRoots(Pow(10, n), Pow(2, a), q, Pow(10, p), Pow(2, q), a, GAP, GAP + 2 * q);
  }

  lemma TenAbove(a: nat, n: nat)
    requires 0 < a < 28738 && Pow(2, a) < Pow(10, n)
    ensures Pow(2, a) * (GAP + 1) <= Pow(10, n) * GAP
  {
    var q, p := 13301, 4004;
    hide Pow;
    Neighbours(a, n);
    if a * p > n * q { TenBelowTwo(n, a); }
    UpperBound(q, p);
    PowPow(2, a, q, a * q);
    PowPow(10, p, a, a * p);
    PowPow(10, n, q, n * q);
    PowMonotone(10, a * p, n * q);
    GapInRoots(Pow(2, a), Pow(10, n), q, Pow(2, q), Pow(10, p), a, GAP, GAP + 2 * q);
  }

  // ---- with any exponents ----

  ghost function Ratio(a: int, j: int): real { Power(2, a) * Power(10, j) }

  /** Away from one by a part in `GAP`, on either side. */
  ghost predicate AwayFromOne(r: real) {
    (GAP + 1) as real <= r * GAP as real || r * (GAP + 1) as real <= GAP as real
  }

  lemma RatioInverse(a: int, j: int)
    ensures Ratio(a, j) * Ratio(-a, -j) == 1.0 && 0.0 < Ratio(a, j)
  {
    hide Power;
    PowerAdd(2, a, -a);
    PowerAdd(10, j, -j);
    PowerZero(2);
    PowerZero(10);
    FourFactors(Power(2, a), Power(10, j), Power(2, -a), Power(10, -j));
    MulPositive(Power(2, a), Power(10, j));
  }

  lemma FourFactors(x: real, y: real, x': real, y': real)
    requires x * x' == 1.0 && y * y' == 1.0
    ensures x * y * (x' * y') == 1.0
  {
    assert x * y * (x' * y') == x * x' * (y * y');
  }

  lemma MulPositive(x: real, y: real)
    requires 0.0 < x && 0.0 < y
    ensures 0.0 < x * y
  {
  }

  lemma AwayInverse(r: real, s: real)
    requires r * s == 1.0 && 0.0 < r && 0.0 < s && AwayFromOne(s)
    ensures AwayFromOne(r)
  {
    var g, h := GAP as real, (GAP + 1) as real;
    if h <= s * g {
      MulNamed(h, s * g, r, h * r, g) by { assert s * g * r == r * s * g; }
    } else {
      MulNamed(s * h, g, r, h, g * r) by { assert s * h * r == r * s * h; }
    }
  }

  /** A power of two with a positive exponent times any power of ten. */
  lemma AwayPositive(a: nat, j: int)
    requires 0 < a < 28738
    ensures AwayFromOne(Ratio(a, j))
  {
    if 0 <= j {
      AtLeastTwo(a, j);
    } else {
      var n := -j;
      hide Pow, Power, AwayFromOne;
      TenAgainstTwo(a, n);
      if Pow(10, n) < Pow(2, a) {
        TwoAbove(a, n);
        AwayAbove(a, n);
      } else {
        TenAbove(a, n);
        AwayBelow(a, n);
      }
    }
  }

  lemma AtLeastTwo(a: nat, j: nat)
    requires 0 < a
    ensures AwayFromOne(Ratio(a, j))
  {
    var x, y := Pow(2, a), Pow(10, j);
    assert 2 <= x by { PowMonotone(2, 1, a); PowStart(2); }
    hide Pow;
    MulMonotone(2, 1, x, y);
    IntProduct(x, y);
    assert Ratio(a, j) >= 2.0;
  }

  lemma TenAgainstTwo(a: nat, n: nat)
    requires 0 < a < 28738
    ensures Pow(10, n) < Pow(2, a) || Pow(2, a) < Pow(10, n)
  {
    hide Pow;
    Neighbours(a, n);
    if n * 15437 <= a * 4647 { TenBelowTwo(n, a); } else { TwoBelowTen(a, n); }
  }

  /** `x / y` against one, as `x` against `y`. */
  lemma QuotientIs(a: nat, n: nat)
    ensures Ratio(a, 0 - n) * Pow(10, n) as real == Pow(2, a) as real
  {
    hide Power, Pow;
    PowerOfNat(2, a);
    PowerOfNat(10, n);
    PowerAdd(10, 0 - n, n);
    PowerZero(10);
    Associate(Power(2, a), Power(10, 0 - n), Power(10, n));
  }

  lemma AwayAbove(a: nat, n: nat)
    requires Pow(10, n) * (GAP + 1) <= Pow(2, a) * GAP
    ensures AwayFromOne(Ratio(a, 0 - n))
  {
    hide Power, Pow, Ratio;
    QuotientIs(a, n);
    AboveNamed(Pow(2, a), Pow(10, n), Ratio(a, 0 - n));
  }

  lemma AboveNamed(x: nat, y: nat, r: real)
    requires 0 < y && y * (GAP + 1) <= x * GAP && r * y as real == x as real
    ensures AwayFromOne(r)
  {
    var g, h := GAP as real, (GAP + 1) as real;
    Swap(r, y as real, x as real, g);
    OrderNamed(y as real, h, r * g, h * y as real, x as real * g);
  }

  lemma AwayBelow(a: nat, n: nat)
    requires Pow(2, a) * (GAP + 1) <= Pow(10, n) * GAP
    ensures AwayFromOne(Ratio(a, 0 - n))
  {
    hide Power, Pow, Ratio;
    QuotientIs(a, n);
    BelowNamed(Pow(2, a), Pow(10, n), Ratio(a, 0 - n));
  }

  lemma BelowNamed(x: nat, y: nat, r: real)
    requires 0 < y && x * (GAP + 1) <= y * GAP && r * y as real == x as real
    ensures AwayFromOne(r)
  {
    var g, h := GAP as real, (GAP + 1) as real;
    Swap(r, y as real, x as real, h);
    OrderNamed(y as real, r * h, g, x as real * h, g * y as real);
  }

  lemma Swap(r: real, y: real, x: real, g: real)
    requires r * y == x
    ensures x * g == r * g * y
  {
    assert r * g * y == r * y * g;
  }

  /** Powers of ten alone. */
  lemma TenAway(j: int)
    requires j != 0
    ensures AwayFromOne(Ratio(0, j))
  {
    var n := if 0 < j then j else -j;
    PowMonotone(10, 1, n);
    PowStart(10);
    assert 10 <= Pow(10, n);
    hide Pow;
    PowerOfNat(10, n);
    PowerZero(2);
    assert AwayFromOne(Ratio(0, n));
    if j < 0 {
      RatioInverse(0, j);
      RatioInverse(0, n);
      hide Power;
      AwayInverse(Ratio(0, j), Ratio(0, n));
    }
  }

  /** No quotient of a power of two and a power of ten comes near one, but one itself. */
  lemma Apart(a: int, j: int)
    requires -28738 < a < 28738 && (a != 0 || j != 0)
    ensures AwayFromOne(Ratio(a, j))
  {
    hide AwayFromOne, Ratio;
    if a == 0 {
      TenAway(j);
    } else if 0 < a {
      AwayPositive(a, j);
    } else {
      AwayPositive(-a, -j);
      RatioInverse(a, j);
      RatioInverse(-a, -j);
      AwayInverse(Ratio(a, j), Ratio(-a, -j));
    }
  }

  // ---- the smallest numbers ----

  lemma RatioShift(a: int, j: int, i: int)
    ensures Ratio(a, j + i) == Ratio(a, j) * Power(10, i)
  {
    hide Power;
    PowerAdd(10, j, i);
    Associate(Power(2, a), Power(10, j), Power(10, i));
  }

  /** The ulp of the smallest numbers of 64 and of 113 bits, as multiples of a power of ten. */
  lemma SmallestUlps(a: int, a': int)
    requires a == -16445 && a' == -16494
    ensures 3.645 < Ratio(a, 4951) < 3.646 && 6.474 < Ratio(a', 4966) < 6.477
  {
    hide Power, Ratio, Pow;
    SmallestUlp(a, 16445, 4950);
    FifteenPlaces(a, a');
  }

  lemma SmallestUlp(a: int, q: nat, p: nat)
    requires a == 0 - q && q == 16445 && p == 4950
    ensures 3.645 < Ratio(a, p + 1) < 3.6454
  {
    hide Power, Ratio, Pow;
    SmallestScale(q, p);
    InverseScale(q, p);
    SmallestNamed(Ratio(a, p + 1), Pow(2, q), Pow(10, p));
  }

  lemma InverseScale(q: nat, p: nat)
    ensures Ratio(0 - q, p + 1) * Pow(2, q) as real == 10.0 * Pow(10, p) as real && 0 < Pow(10, p)
  {
    hide Power;
    PowerAdd(2, 0 - q, q);
    PowerZero(2);
    PowerOfNat(2, q);
    PowerOfNat(10, p);
    PowerNext(10, p);
    Commute3(Power(2, 0 - q), Power(10, p + 1), Power(2, q));
  }

  lemma Commute3(x: real, y: real, z: real)
    requires x * z == 1.0
    ensures x * y * z == y
  {
    assert x * y * z == x * z * y;
  }

  lemma SmallestNamed(r: real, x: nat, y: nat)
    requires r * x as real == 10.0 * y as real && 27433 * y <= x * 10000 <= 27434 * y && 0 < y
    ensures 3.645 < r < 3.6454
  {
    var z := x as real;
    OrderNamed(z, 3.645, r, 3.645 * z, 10.0 * y as real);
    OrderNamed(z, r, 3.6454, 10.0 * y as real, 3.6454 * z);
  }

  /** 49 bits and 15 places further down. */
  lemma FifteenPlaces(a: int, a': int)
    requires a == -16445 && a' == -16494
    ensures Ratio(a', 4966) == Ratio(a, 4951) * (1000000000000000.0 / 562949953421312.0)
  {
    hide Power;
    PowerAdd(2, a, -49);
    PowerAdd(10, 4951, 15);
    FortyNineBits(49, 15);
    Regroup4(Power(2, a), Power(2, -49), Power(10, 4951), Power(10, 15));
  }

  lemma Regroup4(w: real, x: real, y: real, z: real)
    ensures w * x * (y * z) == w * y * (x * z)
  {
  }

  lemma FortyNineBits(n: nat, m: nat)
    requires n == 49 && m == 15
    ensures Power(2, 0 - n) * Power(10, m) == 1000000000000000.0 / 562949953421312.0
  {
    PowersOfTwo();
    PowersOfTen();
    PowAdd(2, 32, 16);
    PowAdd(2, 48, 1);
    PowAdd(10, 8, 4);
    PowAdd(10, 12, 2);
    PowAdd(10, 14, 1);
    assert Pow(2, 1) == 2;
  }
}
