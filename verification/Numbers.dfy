/** The numbers of float80 and binary128: their midpoints, and what is printed for every one
    of them. */
module Numbers {
  import opened Powers
  import opened RealPowers
  import opened Wide
  import opened DigitText
  import opened Format
  import opened Shortest
  import opened DigitLoop
  import opened DigitGeneration
  import opened LastDigit
  import opened Exponents
  import opened PowerOfTen
  import opened Scaling
  import opened Logarithms
  import opened Spacing
  import opened Backend

  /** A positive number: `significand` times two to the `exponent - bits`. */
  datatype Number = Number(bits: nat, significand: nat, exponent: int) {
    /** Two to the `bits`. */
    function Top(): nat { if bits == 64 then B64 else 0x2_0000_0000_0000 * B64 }

    /** One unit in the last place, in units of a 128-bit fraction. */
    function Ulp(): nat { if bits == 64 then B64 else 0x8000 }

    /** A normal number of either format, or a subnormal one. */
    predicate Valid() {
      && (bits == 64 || bits == 113) && -16381 <= exponent <= 16384
      && 0 < significand < Top() && (Top() / 2 <= significand || exponent == -16381)
    }

    predicate IsOdd() { significand % 2 == 1 }

    /** The smallest number of its exponent: those below are closer together, except at the
        least exponent, where the interval is taken all the same. */
    predicate IsBoundary() { significand == Top() / 2 }

    /** The midpoints to the neighbouring numbers. */
    function Upper(): int { significand * Ulp() + Ulp() / 2 }

    function Lower(): int { significand * Ulp() - (if IsBoundary() then Ulp() / 4 else Ulp() / 2) }

    /** Whether the exponential layout is asked for. */
    predicate Force() { exponent > bits + 1 || (exponent == bits + 1 && !IsBoundary()) }

    ghost function Value(): real { significand as real * Power(2, exponent - bits) }
  }

  lemma MidpointsFit(x: Number)
    requires x.Valid()
    ensures 0 < x.Lower() < x.Upper() < B128
    ensures x.significand < 7 || 7 * (x.Upper() - x.Lower()) <= x.Upper()
  {
  }

  /** `c` is the choice made for `x`. */
  ghost predicate Prints(c: Choice, x: Number, exact: seq<U64>, base: seq<U64>) {
    && x.Valid() && 0 < x.Lower() < x.Upper() < B128
    && IsChoice(c, x.Lower(), x.Upper(), x.exponent, x.IsOdd(), x.IsBoundary(), exact, base)
  }

  /** What is known of the interval behind a choice. */
  lemma PrintsMeans(c: Choice, x: Number, exact: seq<U64>, base: seq<U64>)
    requires Prints(c, x, exact, base)
    ensures Chosen(c, x.IsBoundary()) && Brackets(x.IsOdd(), c.l, c.u, c.b, x.Lower(), x.Upper(), x.exponent)
    ensures WIDTH <= c.u - c.l && ONE <= c.u < 10 * ONE && 0 < c.l < c.u
  {
    hide IsChoice, Chosen, Brackets;
    ChoiceMeans(c, x.Lower(), x.Upper(), x.exponent, x.IsOdd(), x.IsBoundary(), exact, base);
  }

  // ---- the width of the interval ----

  /** One ulp in the units of the backend. */
  lemma UlpIs(x: Number)
    requires x.Valid()
    ensures x.Ulp() as real * Power(2, x.exponent + 114) == Power(2, x.exponent - x.bits) * ONE as real
  {
    hide Power;
    var n := 242;
    OneAsPower(n);
    UlpPower(x);
    PowerAdd(2, 128 - x.bits, x.exponent + 114);
    PowerAdd(2, x.exponent - x.bits, n);
  }

  lemma UlpPower(x: Number)
    requires x.Valid()
    ensures x.Ulp() as real == Power(2, 128 - x.bits)
  {
    PowersOfTwo();
    PowAdd(2, 8, 4);
    PowAdd(2, 12, 2);
    PowAdd(2, 14, 1);
    assert Pow(2, 2) == 4 && Pow(2, 1) == 2;
  }

  /** The slack is a tiny part of an ulp. */
  lemma SlackTiny(x: Number)
    requires x.Valid()
    ensures 0.0 < Slack(x.exponent) && B64 as real * Slack(x.exponent) <= Power(2, x.exponent - x.bits) * ONE as real
  {
    hide Power, DecimalExponent;
    var be := x.exponent;
    UlpIs(x);
    DecimalExponentExact(be);
    PowerAdd(2, be, 114);
    TwoTo114();
    var p, q, w := Power(10, DecimalExponent(be)), Power(2, be), Power(2, 114);
    MulNamed(p, q, w, p * w, q * w);
    MulNamed(2.0 * B64 as real, w, p, 2.0 * B64 as real * p, w * p);
    MulNamed(1.0, x.Ulp() as real, q * w, q * w, x.Ulp() as real * (q * w));
  }

  /** Off the boundary the midpoints are one ulp apart. */
  lemma WidthIsUlp(x: Number)
    requires x.Valid() && !x.IsBoundary()
    ensures Endpoint(x.Upper(), x.exponent) - Endpoint(x.Lower(), x.exponent) == Power(2, x.exponent - x.bits) * ONE as real
  {
    hide Power;
    UlpIs(x);
    DifferenceOf(x.Upper(), x.Lower(), x.Ulp(), Power(2, x.exponent + 114));
  }

  lemma DifferenceOf(u: int, l: int, d: int, w: real)
    requires u - l == d
    ensures u as real * w - l as real * w == d as real * w
  {
  }

  /** `d` is `r` up to two parts in 2^64. */
  ghost predicate Near(d: real, r: real) {
    (d - r) * B64 as real <= 2.0 * r && (r - d) * B64 as real <= 2.0 * r
  }

  lemma NearSame(d: real, r: real, d': real, r': real)
    requires Near(d, r) && d == d' && r == r'
    ensures Near(d', r')
  {
  }

  /** Both ends are within the slack of their midpoints. */
  lemma EndsNear(c: Choice, x: Number, exact: seq<U64>, base: seq<U64>)
    requires Prints(c, x, exact, base)
    ensures var s, y, z := Slack(x.exponent), Endpoint(x.Upper(), x.exponent), Endpoint(x.Lower(), x.exponent);
      && y - s < c.u as real * Power(10, c.b) < y + s
      && z - s < c.l as real * Power(10, c.b) < z + s
  {
    hide Power, Prints, Slack, Endpoint, Chosen, Number.Upper, Number.Lower;
    PrintsMeans(c, x, exact, base);
    ValidPrints(c, x, exact, base);
    SlackTiny(x);
  }

  lemma WidthNearUlp(c: Choice, x: Number, exact: seq<U64>, base: seq<U64>)
    requires Prints(c, x, exact, base) && !x.IsBoundary()
    ensures Near((c.u - c.l) as real * Power(10, c.b), Power(2, x.exponent - x.bits) * ONE as real)
  {
    hide Power, Prints, Slack, Endpoint, Number.Upper, Number.Lower;
    EndsNear(c, x, exact, base);
    ValidPrints(c, x, exact, base);
    WidthIsUlp(x);
    SlackTiny(x);
    var t := Power(10, c.b);
    DifferenceOf(c.u, c.l, c.u - c.l, t);
    NearAtOne(c.u as real * t, c.l as real * t, Endpoint(x.Upper(), x.exponent), Endpoint(x.Lower(), x.exponent),
              Slack(x.exponent), Power(2, x.exponent - x.bits) * ONE as real);
  }

  /** The width at any decimal scale. */
  lemma WidthNear(c: Choice, x: Number, exact: seq<U64>, base: seq<U64>, j: int)
    requires Prints(c, x, exact, base) && !x.IsBoundary()
    ensures Near((c.u - c.l) as real * Power(10, c.b + j), Ratio(x.exponent - x.bits, j) * ONE as real)
  {
    hide Power, Prints;
    WidthNearUlp(c, x, exact, base);
    PowerAdd(10, c.b, j);
    var w, t, p, y := (c.u - c.l) as real, Power(10, c.b), Power(2, x.exponent - x.bits), Power(10, j);
    MoveScale(w, t, p, y, w * t, p * ONE as real, t * y, p * y);
  }

  lemma MoveScale(w: real, t: real, p: real, y: real, wt: real, po: real, ty: real, py: real)
    requires Near(wt, po) && 0.0 < y && wt == w * t && po == p * ONE as real && ty == t * y && py == p * y
    ensures Near(w * ty, py * ONE as real)
  {
    NearScaled(wt, po, y);
    Associate(w, t, y);
    Commute(p, ONE as real, y);
    NearSame(wt * y, po * y, w * ty, py * ONE as real);
  }

  lemma ValidPrints(c: Choice, x: Number, exact: seq<U64>, base: seq<U64>)
    requires Prints(c, x, exact, base)
    ensures x.Valid()
  {
  }

  lemma NearAtOne(a: real, b: real, a': real, b': real, s: real, e: real)
    requires a' - s < a < a' + s && b' - s < b < b' + s && a' - b' == e && B64 as real * s <= e
    ensures Near(a - b, e)
  {
  }

  lemma NearScaled(d: real, r: real, t: real)
    requires Near(d, r) && 0.0 < t
    ensures Near(d * t, r * t)
  {
    var w := B64 as real;
    MulNamed((d - r) * w, 2.0 * r, t, (d * t - r * t) * w, 2.0 * (r * t)) by { Spread(d, r, w, t); }
    MulNamed((r - d) * w, 2.0 * r, t, (r * t - d * t) * w, 2.0 * (r * t)) by { Spread(r, d, w, t); }
  }

  lemma Spread(d: real, r: real, w: real, t: real)
    ensures (d - r) * w * t == (d * t - r * t) * w
  {
    assert (d - r) * w * t == (d - r) * t * w;
  }

  // ---- the first four-digit step is always safe ----

  lemma AlwaysSafe(c: Choice, x: Number, exact: seq<U64>, base: seq<U64>)
    requires Prints(c, x, exact, base)
    ensures ChunkSafe(c.l, c.u)
  {
    hide Prints, ChunkSafe, Brackets, Chosen, Power, Number.Upper, Number.Lower;
    ValidPrints(c, x, exact, base);
    PrintsMeans(c, x, exact, base);
    MidpointsFit(x);
    if 7 <= x.significand {
      NarrowIsSafe(c.l, c.u, c.b, x.Lower(), x.Upper(), x.exponent, x.IsOdd());
    } else {
      SmallestSafe(c, x, exact, base);
    }
  }

  /** The six smallest numbers: wherever the width wraps, it wraps to more than one. */
  lemma SmallestSafe(c: Choice, x: Number, exact: seq<U64>, base: seq<U64>)
    requires Prints(c, x, exact, base) && x.significand < 7
    ensures ChunkSafe(c.l, c.u)
  {
    hide Prints, ChunkSafe, Power, Ratio;
    ValidPrints(c, x, exact, base);
    PrintsRange(c, x, exact, base);
    WidthNear(c, x, exact, base, -c.b);
    PowerZero(10);
    SmallestUlps(-16445, -16494);
    var a, e := x.exponent - x.bits, if x.bits == 64 then 4951 else 4966;
    RatioShift(a, e, -c.b - e);
    RatioPositive(a, e);
    SafeAtScale(c.l, c.u, Ratio(a, e), -c.b - e, x.bits == 64);
  }

  lemma RatioPositive(a: int, j: int)
    ensures 0.0 < Ratio(a, j)
  {
    RatioInverse(a, j);
  }

  lemma PrintsRange(c: Choice, x: Number, exact: seq<U64>, base: seq<U64>)
    requires Prints(c, x, exact, base)
    ensures 0 < c.l < c.u < 10 * ONE && ONE <= c.u
  {
    hide Chosen, Brackets, IsChoice;
    PrintsMeans(c, x, exact, base);
  }

  lemma SafeAtScale(l: int, u: int, d: real, i: int, short: bool)
    requires 0 < l < u < 10 * ONE && Near((u - l) as real, d * Power(10, i) * ONE as real)
    requires if short then 3.645 < d < 3.646 else 6.474 < d < 6.477
    ensures ChunkSafe(l, u)
  {
    hide ChunkSafe, Power;
    ScaleCases(i);
    TooWide(l, u, d, Power(10, i));
    if i == 0 {
      SafeBand(l, u, d, short);
    } else {
      TooNarrow(l, u, d, Power(10, i));
    }
  }

  lemma ScaleCases(i: int)
    ensures 0.0 < Power(10, i) && (i == 0 ==> Power(10, i) == 1.0)
    ensures (0 < i ==> 10.0 <= Power(10, i)) && (i < 0 ==> Power(10, i) <= 0.1)
  {
    if 0 < i {
      PowMonotone(10, 1, i);
      PowStart(10);
    } else if i < 0 {
      PowMonotone(10, 1, -i);
      PowStart(10);
      assert 10.0 <= Pow(10, -i) as real;
    }
  }

  lemma SafeBand(l: int, u: int, d: real, short: bool)
    requires l < u && Near((u - l) as real, d * ONE as real)
    requires if short then 3.645 < d < 3.646 else 6.474 < d < 6.477
    ensures ChunkSafe(l, u)
  {
    var w := u - l;
    if short {
      assert 2 * B256 + ONE <= w * 10000 < 3 * B256;
      QuotientUnique(w * 10000, B256, 2, w * 10000 - 2 * B256);
    } else {
      assert 3 * B256 + ONE <= w * 10000 < 4 * B256;
      QuotientUnique(w * 10000, B256, 3, w * 10000 - 3 * B256);
    }
  }

  lemma TooNarrow(l: int, u: int, d: real, t: real)
    requires l < u && Near((u - l) as real, d * t * ONE as real) && 0.0 < d < 6.477 && 0.0 < t <= 0.1
    ensures ChunkSafe(l, u)
  {
    MulNamed(d, 6.477, t, d * t, 6.477 * t);
    assert d * t <= 0.6477;
    var r := d * t * ONE as real;
    assert r <= 0.6477 * ONE as real;
    assert (u - l) * 10000 < B256;
  }

  lemma TooWide(l: int, u: int, d: real, t: real)
    requires 0 < l < u < 10 * ONE && 3.645 < d
    ensures 10.0 <= t ==> !Near((u - l) as real, d * t * ONE as real)
  {
    if 10.0 <= t {
      MulNamed(3.645, d, t, 3.645 * t, d * t);
      FarFromRange((u - l) as real, d * t);
    }
  }

  lemma FarFromRange(w: real, r: real)
    requires w < 10.0 * ONE as real && 36.0 <= r
    ensures !Near(w, r * ONE as real)
  {
    var z := r * ONE as real;
    assert 36.0 * ONE as real <= z;
  }

  // ---- the guard never misleads off the boundary ----

  lemma NeverMisled(c: Choice, x: Number, exact: seq<U64>, base: seq<U64>)
    requires Prints(c, x, exact, base) && !x.IsBoundary()
    ensures !GuardMisleads(c.l, c.u, c.k, false)
  {
    hide Prints, Power, Ratio, Near, AwayFromOne, Pow;
    ValidPrints(c, x, exact, base);
    var a, p := x.exponent - x.bits, Pow(10, c.k);
    WidthNear(c, x, exact, base, c.k - c.b);
    PowerOfNat(10, c.k);
    IntProduct(c.u - c.l, p);
    if a == 0 && c.k == c.b {
      HalfLeft(c, x, exact, base);
      NotZero(c.u * p % ONE);
    } else {
      Apart(a, c.k - c.b);
      RatioPositive(a, c.k - c.b);
      NotOne((c.u - c.l) * p, Ratio(a, c.k - c.b));
    }
  }

  /** A width away from one last place does not mislead the guard. */
  lemma NotOne(delta: int, r: real)
    requires Near(delta as real, r * ONE as real) && AwayFromOne(r) && 0.0 < r
    ensures forall d, t :: !Misleads(d, t, delta, false)
  {
    NotNearOne(delta, r);
    forall d, t ensures !Misleads(d, t, delta, false) {
      OneUnit(d, t, delta);
    }
  }

  lemma NotNearOne(delta: int, r: real)
    requires Near(delta as real, r * ONE as real) && AwayFromOne(r) && 0.0 < r
    ensures !(ONE <= delta < ONE + B192)
  {
    var g, h, z := GAP as real, (GAP + 1) as real, r * ONE as real;
    if h <= r * g {
      ScaleByOne(r, g, h);
    } else {
      ScaleByOneBelow(r, h, g);
    }
  }

  lemma ScaleByOne(r: real, g: real, h: real)
    requires h <= r * g
    ensures h * ONE as real <= r * ONE as real * g
  {
    MulNamed(h, r * g, ONE as real, h * ONE as real, r * ONE as real * g) by { Commute(r, g, ONE as real); }
  }

  lemma ScaleByOneBelow(r: real, h: real, g: real)
    requires r * h <= g
    ensures r * ONE as real * h <= g * ONE as real
  {
    MulNamed(r * h, g, ONE as real, r * ONE as real * h, g * ONE as real) by { Commute(r, h, ONE as real); }
  }

  lemma OneUnit(d: int, t: int, delta: int)
    ensures Misleads(d, t, delta, false) ==> ONE <= delta < ONE + B192
  {
  }

  lemma NotZero(t: int)
    requires ONE / 4 <= t
    ensures forall d, delta :: !Misleads(d, t, delta, false)
  {
    assert t / B192 > 0;
  }

  /** Where an ulp is one and the last digit is that of units, half is left over. */
  lemma HalfLeft(c: Choice, x: Number, exact: seq<U64>, base: seq<U64>)
    requires Prints(c, x, exact, base) && x.exponent == x.bits && c.k == c.b
    ensures ONE / 4 <= c.u * Pow(10, c.k) % ONE
  {
    hide Prints, Power, Slack, Pow, Endpoint, Number.Upper, Number.Lower, Number.Ulp, Number.Valid;
    ValidPrints(c, x, exact, base);
    EndsNear(c, x, exact, base);
    SlackTiny(x);
    UlpIs(x);
    PowerZero(2);
    PowerOfNat(10, c.k);
    IntProduct(c.u, Pow(10, c.k));
    UpperAtOne(x);
    HalfOver(c.u * Pow(10, c.k), x.significand, Slack(x.exponent));
  }

  lemma UpperAtOne(x: Number)
    requires x.Valid() && x.Ulp() as real * Power(2, x.exponent + 114) == ONE as real
    ensures Endpoint(x.Upper(), x.exponent) == (x.significand * ONE + ONE / 2) as real
  {
    hide Power;
    HalfUlps(x.significand, x.Ulp(), Power(2, x.exponent + 114));
  }

  lemma HalfUlps(m: nat, ulp: nat, w: real)
    requires ulp as real * w == ONE as real && ulp % 2 == 0
    ensures (m * ulp + ulp / 2) as real * w == (m * ONE + ONE / 2) as real
  {
    var h := ulp / 2;
    assert ulp == 2 * h;
    assert m * ulp + h == (2 * m + 1) * h;
    IntProduct(2 * m + 1, h);
    Associate((2 * m + 1) as real, h as real, w);
    assert h as real * w * 2.0 == ONE as real;
    assert h as real * w == (ONE / 2) as real;
    IntProduct(2 * m + 1, ONE / 2);
  }

  lemma HalfOver(y: int, m: nat, s: real)
    requires (m * ONE + ONE / 2) as real - s < y as real < (m * ONE + ONE / 2) as real + s && B64 as real * s <= ONE as real
    ensures ONE / 4 <= y % ONE
  {
    var t := y - m * ONE;
    assert ONE / 4 <= t < ONE;
    QuotientUnique(y, ONE, m, t);
  }

  // ---- a midpoint is never printed for an odd significand ----

  const TEN_40: nat := 10000000000000000000000000000000000000000

  /** A decimal of at most forty digits is no odd multiple of a small power of two. */
  lemma NoTie(n: nat, e: int, m: nat, f: nat)
    requires m % 2 == 1 && 62 <= f && n < TEN_40
    ensures n as real * Power(10, e) != m as real * Power(2, 0 - f)
  {
    hide Power;
    if 0 <= e {
      NoTieWhole(n, e, m, f);
    } else {
      NoTieFraction(n, -e, m, f);
    }
  }

  /** With both sides multiplied out. */
  lemma MultipliedOut(n: nat, e: int, m: nat, f: nat)
    requires n as real * Power(10, e) == m as real * Power(2, 0 - f)
    ensures n as real * Power(10, e) * Pow(2, f) as real == m as real
  {
    hide Power, Pow;
    PowerAdd(2, 0 - f, f);
    PowerZero(2);
    PowerOfNat(2, f);
    Associate(m as real, Power(2, 0 - f), Power(2, f));
  }

  lemma EvenPower(f: nat)
    requires 0 < f
    ensures Pow(2, f) % 2 == 0 && Pow(2, f) == 2 * Pow(2, f - 1)
  {
  }

  lemma NoTieWhole(n: nat, e: nat, m: nat, f: nat)
    requires m % 2 == 1 && 0 < f
    ensures n as real * Power(10, e) != m as real * Power(2, 0 - f)
  {
    if n as real * Power(10, e) == m as real * Power(2, 0 - f) {
      MultipliedOut(n, e, m, f);
      PowerOfNat(10, e);
      EvenPower(f);
      hide Power, Pow;
      IntProduct(n, Pow(10, e));
      IntProduct(n * Pow(10, e), Pow(2, f));
      EvenMultiple(n * Pow(10, e), Pow(2, f), Pow(2, f - 1), m);
    }
  }

  lemma EvenMultiple(x: int, p: int, h: int, m: int)
    requires p == 2 * h && m % 2 == 1
    ensures x * p != m
  {
    assert x * p == 2 * (x * h);
  }

  lemma NoTieFraction(n: nat, q: nat, m: nat, f: nat)
    requires m % 2 == 1 && 62 <= f && n < TEN_40
    ensures n as real * Power(10, 0 - q) != m as real * Power(2, 0 - f)
  {
    hide Power, Pow;
    if n as real * Power(10, 0 - q) == m as real * Power(2, 0 - f) {
      MultipliedOut(n, 0 - q, m, f);
      CrossMultiplied(n, q, m, f);
      if q < f {
        FewTens(n, q, m, f);
      } else {
        ManyTens(n, q, m, f);
      }
    }
  }

  lemma CrossMultiplied(n: nat, q: nat, m: nat, f: nat)
    requires n as real * Power(10, 0 - q) * Pow(2, f) as real == m as real
    ensures n * Pow(2, f) == m * Pow(10, q)
  {
    hide Power, Pow;
    PowerAdd(10, 0 - q, q);
    PowerZero(10);
    PowerOfNat(10, q);
    IntProduct(n, Pow(2, f));
    IntProduct(m, Pow(10, q));
    CrossReal(n as real, Power(10, 0 - q), Pow(2, f) as real, Pow(10, q) as real, m as real);
  }

  lemma CrossReal(n: real, t: real, p: real, y: real, m: real)
    requires n * t * p == m && t * y == 1.0
    ensures n * p == m * y
  {
    assert n * t * p * y == n * p * (t * y);
  }

  lemma FewTens(n: nat, q: nat, m: nat, f: nat)
    requires m % 2 == 1 && q < f
    ensures n * Pow(2, f) != m * Pow(10, q)
  {
    PowProduct(5, 2, q);
    PowAdd(2, f - q, q);
    EvenPower(f - q);
    OddPower(q);
    hide Pow;
    CancelTwos(n, Pow(2, f - q), Pow(2, f - q - 1), Pow(2, q), m, Pow(5, q));
  }

  lemma CancelTwos(n: int, p: int, h: int, t: int, m: int, v: int)
    requires p == 2 * h && 0 < t && m % 2 == 1 && v % 2 == 1
    ensures n * (p * t) != m * (v * t)
  {
    assert n * (p * t) == t * (n * p) && m * (v * t) == t * (m * v);
    OddProduct(m, v);
    EvenMultiple(n, p, h, m * v);
    MulOrder(t, n * p, m * v);
    MulOrder(t, m * v, n * p);
  }

  lemma OddProduct(m: int, v: int)
    requires m % 2 == 1 && v % 2 == 1
    ensures m * v % 2 == 1
  {
    var b := v / 2;
    OddTimes(m, v, b);
    EvenPlus(m * v, m * b, m);
  }

  lemma OddTimes(m: int, v: int, b: int)
    requires v == 2 * b + 1
    ensures m * v == 2 * (m * b) + m
  {
  }

  lemma EvenPlus(x: int, t: int, m: int)
    requires x == 2 * t + m
    ensures x % 2 == m % 2
  {
  }

  lemma {:induction false} OddPower(q: nat)
    ensures Pow(5, q) % 2 == 1
  {
    if q != 0 { OddPower(q - 1); }
  }

  lemma ManyTens(n: nat, q: nat, m: nat, f: nat)
    requires 0 < m && 62 <= f <= q && n < TEN_40
    ensures n * Pow(2, f) != m * Pow(10, q)
  {
    var k := 62;
    hide Pow;
    TenIsFiveTwo(f);
    PowMonotone(10, f, q);
    PowMonotone(5, k, f);
    FivesBeatTens(k);
    TooMany(n, Pow(2, f), Pow(5, f), m, Pow(10, q));
  }

  lemma TenIsFiveTwo(f: nat)
    ensures Pow(10, f) == Pow(5, f) * Pow(2, f)
  {
    PowProduct(5, 2, f);
  }

  lemma TooMany(n: nat, t: nat, v: nat, m: nat, y: nat)
    requires 0 < m && 0 < t && n < v && v * t <= y
    ensures n * t != m * y
  {
    MulMonotone(1, y, m, y);
    MulOrder(t, n, v);
  }

  /** The powers of five by squaring, up to the 62nd. */
  lemma FivesBeatTens(k: nat)
    requires k == 62
    ensures TEN_40 <= Pow(5, k)
  {
    var a, b, c := 7, 15, 31;
    hide Pow;
    FifteenFives(a, b);
    PowAdd(5, b, b);
    PowAdd(5, b + b, 1);
    PowStart(5);
    PowAdd(5, c, c);
  }

  lemma FifteenFives(a: nat, b: nat)
    requires a == 7 && b == 15
    ensures Pow(5, b) == 30517578125
  {
    assert Pow(5, 1) == 5 && Pow(5, 2) == 25 && Pow(5, 3) == 125;
    PowAdd(5, 3, 3);
    PowAdd(5, 6, 1);
    PowAdd(5, a, a);
    PowAdd(5, a + a, 1);
  }

  lemma FortyTens(k: nat)
    requires k == 40
    ensures Pow(10, k) == TEN_40
  {
    var a, b := 16, 32;
    PowersOfTen();
    hide Pow;
    PowAdd(10, 8, 8);
    PowAdd(10, a, a);
    PowAdd(10, b, 8);
  }

  /** At most forty digits are printed. */
  lemma FewDigits(c: Choice, x: Number, exact: seq<U64>, base: seq<U64>)
    requires Prints(c, x, exact, base)
    ensures c.k < 40 && 0 <= c.n < TEN_40
  {
    hide ChunkSafe, Pow, Produced, Choose, Number.Upper, Number.Lower, Brackets, NoneBefore, GuardMisleads, Hits, IsNear;
    var k := 40;
    AlwaysSafe(c, x, exact, base);
    PrintsMeans(c, x, exact, base);
    ProducedLength(c.l, c.u);
    ChooseParts(c.l, c.u, c.b, x.IsBoundary());
    PowMonotone(10, c.k + 1, k);
    FortyTens(k);
  }

  /** Half an ulp in the units of the backend. */
  lemma HalfUlpIs(x: Number, m: nat)
    requires x.Valid()
    ensures Endpoint(m * (x.Ulp() / 2), x.exponent) == m as real * Power(2, x.exponent - x.bits - 1) * ONE as real
  {
    hide Power;
    var h, w, p := x.Ulp() / 2, Power(2, x.exponent + 114), Power(2, x.exponent - x.bits - 1);
    UlpIs(x);
    PowerNext(2, x.exponent - x.bits - 1);
    assert x.Ulp() == 2 * h;
    HalfOf(h as real, w, p, ONE as real);
    IntProduct(m, h);
    Associate(m as real, h as real, w);
    Associate(m as real, p, ONE as real);
  }

  lemma HalfOf(h: real, w: real, p: real, o: real)
    requires 2.0 * h * w == p * 2.0 * o
    ensures h * w == p * o
  {
  }

  /** For small exponents no midpoint is printed. */
  lemma NoMidpoint(c: Choice, x: Number, exact: seq<U64>, base: seq<U64>, m: nat)
    requires Prints(c, x, exact, base) && x.exponent <= 3 && m % 2 == 1
    ensures Printed(c) != Endpoint(m * (x.Ulp() / 2), x.exponent)
  {
    hide Prints, Power, Number.Ulp;
    ValidPrints(c, x, exact, base);
    FewDigits(c, x, exact, base);
    HalfUlpIs(x, m);
    var f := x.bits + 1 - x.exponent;
    assert 0 - f == x.exponent - x.bits - 1;
    CancelOne(c.n as real * Power(10, c.b - c.k), m as real * Power(2, 0 - f));
    NoTie(c.n, c.b - c.k, m, f);
  }

  lemma CancelOne(x: real, y: real)
    ensures x * ONE as real == y * ONE as real <==> x == y
  {
  }

  // ---- for larger exponents scaling is never exact ----

  lemma {:induction false} TwosModFive(n: nat)
    ensures Pow(2, n) % 5 != 0
  {
    if n != 0 { TwosModFive(n - 1); }
  }

  lemma MultipleOfFive(v: int, n: nat)
    requires 0 < n
    ensures v * Pow(10, n) % 5 == 0
  {
    assert v * Pow(10, n) == 5 * (2 * (v * Pow(10, n - 1)));
  }

  /** A negative power of ten is no binary fraction. */
  lemma NeverExact(v: nat, p: int, e: int)
    requires p < 0
    ensures v as real != Scaled(p, e)
  {
    hide Power;
    if v as real == Scaled(p, e) {
      var n := -p;
      PowerAdd(10, p, n);
      PowerZero(10);
      PowerOfNat(10, n);
      IntProduct(v, Pow(10, n));
      MultipleOfFive(v, n);
      Commute(Power(10, p), Power(2, 256 - e), Power(10, n));
      assert (v * Pow(10, n)) as real == Power(2, 256 - e);
      NoPowerOfTwo(v * Pow(10, n), 256 - e);
    }
  }

  lemma NoPowerOfTwo(y: nat, k: int)
    requires y % 5 == 0
    ensures y as real != Power(2, k)
  {
    hide Power, Pow;
    if 0 <= k {
      TwosModFive(k);
      PowerOfNat(2, k);
      CastUnequal(y, Pow(2, k));
    } else {
      SmallPower(-k);
    }
  }

  lemma CastUnequal(x: int, y: int)
    requires x % 5 == 0 && y % 5 != 0
    ensures x as real != y as real
  {
  }

  lemma SmallPower(n: nat)
    requires 0 < n
    ensures 0.0 < Power(2, 0 - n) < 1.0
  {
    PowMonotone(2, 1, n);
    PowStart(2);
    assert 2.0 <= Pow(2, n) as real;
  }

  /** A midpoint scaled without loss was scaled by an exact power. */
  lemma ExactDown(v: nat, m: U128, be: int, p: int, e: int, s: nat)
    requires 9 <= s <= 13 && s == 14 - (be + e) && 0 < m && v as real <= Scaled(p, e)
    requires Down(v, m, s) as real == Image(m, be, p)
    ensures v as real == Scaled(p, e)
  {
    hide Power, Pow, Scaled;
    var z := Power(2, s) * Power(2, 128);
    Divisor(s);
    ScaledPoint(m as real, be, p, e, s, z);
    DownBelow(v * m, Pow(2, s));
    IntProduct(v, m);
    IntProduct(Pow(2, s), B128);
    IntProduct(Down(v, m, s), Pow(2, s) * B128);
    OrderNamed(m as real, v as real, Scaled(p, e), (v * m) as real, Scaled(p, e) * m as real);
  }

  lemma DownBelow(a: nat, two: nat)
    requires 0 < two
    ensures a / B128 / two * (two * B128) <= a
  {
    var f := a / B128;
    MulMonotone(f / two * two, B128, f, B128);
    assert f / two * (two * B128) == f / two * two * B128;
  }

  lemma ExactUp(v: nat, m: U128, be: int, p: int, e: int, s: nat)
    requires 9 <= s <= 13 && s == 14 - (be + e) && 0 < m && Scaled(p, e) <= v as real
    requires Up(v, m, s) as real == Image(m, be, p)
    ensures v as real == Scaled(p, e)
  {
    hide Power, Pow, Scaled;
    var z := Power(2, s) * Power(2, 128);
    Divisor(s);
    ScaledPoint(m as real, be, p, e, s, z);
    UpAbove(v * m, Pow(2, s));
    IntProduct(v, m);
    IntProduct(Pow(2, s), B128);
    IntProduct(Up(v, m, s), Pow(2, s) * B128);
    OrderNamed(m as real, Scaled(p, e), v as real, Scaled(p, e) * m as real, (v * m) as real);
  }

  lemma UpAbove(a: nat, two: nat)
    requires 0 < two
    ensures a <= ((a + (B128 - 1)) / B128 + (two - 1)) / two * (two * B128)
  {
    var f := (a + (B128 - 1)) / B128;
    var g := (f + (two - 1)) / two;
    assert f <= g * two;
    MulMonotone(f, B128, g * two, B128);
    assert g * (two * B128) == g * two * B128;
  }

  /** For larger exponents the ends lie strictly inside. */
  lemma StrictEnds(c: Choice, x: Number, exact: seq<U64>, base: seq<U64>)
    requires Prints(c, x, exact, base) && x.IsOdd() && 4 <= x.exponent
    ensures c.u as real * Power(10, c.b) != Endpoint(x.Upper(), x.exponent)
    ensures c.l as real * Power(10, c.b) != Endpoint(x.Lower(), x.exponent)
  {
    hide Prints, Power, Endpoint, DecimalExponent, ScaledLow, ScaledHigh, Pow, IsScaled, Number.Upper, Number.Lower;
    PrintsScaled(c, x, exact, base);
    var be := x.exponent;
    NotLossless(x, exact, base);
    var b := DecimalExponent(be);
    BackToScaled(c.u, ScaledHigh(x.Upper(), be, true, exact, base), x.Upper(), be, b, c.b);
    BackToScaled(c.l, ScaledLow(x.Lower(), be, true, exact, base), x.Lower(), be, b, c.b);
  }

  lemma PrintsScaled(c: Choice, x: Number, exact: seq<U64>, base: seq<U64>)
    requires Prints(c, x, exact, base)
    ensures x.Valid() && 0 < x.Lower() < x.Upper() < B128 && ExactTable(exact) && FloorTable(base) && NeverWraps(exact, base)
    ensures InTables(x.exponent, exact, base) && c.b <= DecimalExponent(x.exponent)
    ensures c.l == ScaledLow(x.Lower(), x.exponent, x.IsOdd(), exact, base) * Pow(10, DecimalExponent(x.exponent) - c.b)
    ensures c.u == ScaledHigh(x.Upper(), x.exponent, x.IsOdd(), exact, base) * Pow(10, DecimalExponent(x.exponent) - c.b)
  {
    hide ExactTable, FloorTable, NeverWraps, DecimalExponent, ScaledLow, ScaledHigh, Pow, Choose, Number.Upper, Number.Lower, Number.Valid;
  }

  /** An end on its midpoint comes from a scaled midpoint that lost nothing. */
  lemma BackToScaled(y: int, y0: int, m: int, be: int, b: int, b': int)
    requires b' <= b && y == y0 * Pow(10, b - b')
    ensures y as real * Power(10, b') == Endpoint(m, be) ==> y0 as real == Image(m, be, -b)
  {
    hide Power, Pow, Endpoint, Image;
    AtScale(y0, b - b', b);
    Unscale(m, be, b);
    SameFactor(y0 as real, Image(m, be, -b), Power(10, b));
  }

  lemma SameFactor(x: real, y: real, t: real)
    requires 0.0 < t
    ensures x * t == y * t ==> x == y
  {
    RealOrder(t, x, y);
    RealOrder(t, y, x);
  }

  lemma NotLossless(x: Number, exact: seq<U64>, base: seq<U64>)
    requires x.Valid() && 0 < x.Lower() < x.Upper() < B128 && 4 <= x.exponent
    requires ExactTable(exact) && FloorTable(base) && NeverWraps(exact, base) && InTables(x.exponent, exact, base)
    ensures ScaledHigh(x.Upper(), x.exponent, true, exact, base) as real != Image(x.Upper(), x.exponent, -DecimalExponent(x.exponent))
    ensures ScaledLow(x.Lower(), x.exponent, true, exact, base) as real != Image(x.Lower(), x.exponent, -DecimalExponent(x.exponent))
  {
    hide Power, Image, ExactTable, FloorTable, NeverWraps, DecimalExponent, ScaledHigh, ScaledLow, Number.Upper, Number.Lower;
    PositiveExponent(x.exponent);
    LossyHigh(x.Upper(), x.exponent, exact, base);
    LossyLow(x.Lower(), x.exponent, exact, base);
  }

  lemma PositiveExponent(be: int)
    requires 4 <= be
    ensures 0 < DecimalExponent(be)
  {
  }

  lemma LossyHigh(m: U128, be: int, exact: seq<U64>, base: seq<U64>)
    requires 0 < m && 0 < DecimalExponent(be)
    requires ExactTable(exact) && FloorTable(base) && NeverWraps(exact, base) && InTables(be, exact, base)
    ensures ScaledHigh(m, be, true, exact, base) as real != Image(m, be, -DecimalExponent(be))
  {
    hide Power, Scaled, Image, ExactTable, FloorTable, NeverWraps, DecimalExponent, PowerExponent, LowerPower, UpperPower,
         Normalized, Down, Up;
    TableRange(be);
    var p := -DecimalExponent(be);
    PowerEnds(p, exact, base);
    ShiftRange(be, PowerExponent(p));
    LossDown(LowerPower(p, exact, base), m, be, p, PowerExponent(p), Shift(be));
  }

  lemma LossyLow(m: U128, be: int, exact: seq<U64>, base: seq<U64>)
    requires 0 < m && 0 < DecimalExponent(be)
    requires ExactTable(exact) && FloorTable(base) && NeverWraps(exact, base) && InTables(be, exact, base)
    ensures ScaledLow(m, be, true, exact, base) as real != Image(m, be, -DecimalExponent(be))
  {
    hide Power, Scaled, Image, ExactTable, FloorTable, NeverWraps, DecimalExponent, PowerExponent, LowerPower, UpperPower,
         Normalized, Down, Up;
    TableRange(be);
    var p := -DecimalExponent(be);
    PowerEnds(p, exact, base);
    ShiftRange(be, PowerExponent(p));
    LossUp(UpperPower(p, exact, base), m, be, p, PowerExponent(p), Shift(be));
  }

  lemma LossDown(v: nat, m: U128, be: int, p: int, e: int, s: nat)
    requires 9 <= s <= 13 && s == 14 - (be + e) && 0 < m && v as real <= Scaled(p, e) && p < 0
    ensures Down(v, m, s) as real != Image(m, be, p)
  {
    hide Scaled, Down, Image;
    NeverExact(v, p, e);
    if Down(v, m, s) as real == Image(m, be, p) { ExactDown(v, m, be, p, e, s); }
  }

  lemma LossUp(v: nat, m: U128, be: int, p: int, e: int, s: nat)
    requires 9 <= s <= 13 && s == 14 - (be + e) && 0 < m && Scaled(p, e) <= v as real && p < 0
    ensures Up(v, m, s) as real != Image(m, be, p)
  {
    hide Scaled, Up, Image;
    NeverExact(v, p, e);
    if Up(v, m, s) as real == Image(m, be, p) { ExactUp(v, m, be, p, e, s); }
  }

  // ---- what is printed ----

  lemma PrintsChoice(c: Choice, x: Number, exact: seq<U64>, base: seq<U64>)
    requires Prints(c, x, exact, base)
    ensures x.Valid() && 0 < x.Lower() < x.Upper() < B128
    ensures IsChoice(c, x.Lower(), x.Upper(), x.exponent, x.IsOdd(), x.IsBoundary(), exact, base)
  {
    hide IsChoice, Number.Valid, Number.Upper, Number.Lower;
  }

  /** An odd number is no boundary, and its midpoints are odd multiples of half an ulp. */
  lemma OddMidpoints(x: Number)
    requires x.Valid() && x.IsOdd()
    ensures !x.IsBoundary()
    ensures x.Upper() == (2 * x.significand + 1) * (x.Ulp() / 2) && x.Lower() == (2 * x.significand - 1) * (x.Ulp() / 2)
  {
    var h := x.Ulp() / 2;
    assert x.Ulp() == 2 * h;
    HalfSteps(x.significand, h);
  }

  lemma HalfSteps(m: int, h: int)
    ensures m * (2 * h) + h == (2 * m + 1) * h && m * (2 * h) - h == (2 * m - 1) * h
  {
  }

  lemma OddOffMidpoints(c: Choice, x: Number, exact: seq<U64>, base: seq<U64>)
    requires Prints(c, x, exact, base) && x.IsOdd() && x.exponent <= 3
    ensures Printed(c) != Endpoint(x.Upper(), x.exponent) && Printed(c) != Endpoint(x.Lower(), x.exponent)
  {
    hide Prints, Endpoint, Printed, Power, Number.Upper, Number.Lower, Number.Ulp, Number.Valid, Number.IsBoundary, Number.IsOdd;
    ValidPrints(c, x, exact, base);
    OddMidpoints(x);
    OddNeighbours(x.significand);
    NoMidpoint(c, x, exact, base, 2 * x.significand + 1);
    PositiveSignificand(x);
    NoMidpoint(c, x, exact, base, 2 * x.significand - 1);
  }

  lemma PositiveSignificand(x: Number)
    requires x.Valid()
    ensures 0 < x.significand
  {
  }

  lemma OddNeighbours(m: nat)
    ensures (2 * m + 1) % 2 == 1 && (2 * m - 1) % 2 == 1
  {
  }

  /** For every odd significand the number printed lies strictly between the midpoints. */
  lemma OddStrictly(c: Choice, x: Number, exact: seq<U64>, base: seq<U64>)
    requires Prints(c, x, exact, base) && x.IsOdd()
    ensures Endpoint(x.Lower(), x.exponent) < Printed(c) < Endpoint(x.Upper(), x.exponent)
  {
    hide Prints, Endpoint, Printed, Power, Number.Upper, Number.Lower, Number.Ulp, Number.Valid, Number.IsBoundary, Number.IsOdd;
    ValidPrints(c, x, exact, base);
    OddMidpoints(x);
    OddClosed(c, x, exact, base);
    if x.exponent <= 3 {
      OddOffMidpoints(c, x, exact, base);
    } else {
      StrictEnds(c, x, exact, base);
    }
  }

  lemma OddClosed(c: Choice, x: Number, exact: seq<U64>, base: seq<U64>)
    requires Prints(c, x, exact, base) && x.IsOdd() && !x.IsBoundary()
    ensures Endpoint(x.Lower(), x.exponent) <= c.l as real * Power(10, c.b) <= Printed(c)
    ensures Printed(c) <= c.u as real * Power(10, c.b) <= Endpoint(x.Upper(), x.exponent)
  {
    hide Prints, Chosen, Brackets, GuardMisleads, Endpoint, Printed, Power, Number.Upper, Number.Lower, Number.Valid, IsChoice;
    PrintsChoice(c, x, exact, base);
    PrintsMeans(c, x, exact, base);
    NeverMisled(c, x, exact, base);
    PrintedBounds(c, false);
    HitsUnlessMisled(c, false);
    OddEnds(c.l, c.u, c.b, x.Lower(), x.Upper(), x.exponent);
  }

  /** For an even significand it lies between the midpoints widened by the slack of scaling:
      off the boundary always, on the boundary unless the guard misled. */
  lemma EvenWithin(c: Choice, x: Number, exact: seq<U64>, base: seq<U64>)
    requires Prints(c, x, exact, base) && !x.IsOdd()
    ensures Printed(c) < Endpoint(x.Upper(), x.exponent) + Slack(x.exponent)
    ensures !(x.IsBoundary() && GuardMisleads(c.l, c.u, c.k, true)) ==> Endpoint(x.Lower(), x.exponent) - Slack(x.exponent) < Printed(c)
  {
    hide Prints, GuardMisleads, Endpoint, Printed, Slack, Power, Number.Upper, Number.Lower, Number.Valid, IsChoice, ChunkSafe, LastPlace;
    PrintsChoice(c, x, exact, base);
    EvenPrints(c, x.Lower(), x.Upper(), x.exponent, x.IsBoundary(), exact, base);
    if !x.IsBoundary() { NeverMisled(c, x, exact, base); }
  }

  /** For every number: no decimal between the midpoints has fewer digits than the one
      printed; for an odd significand, none that keeps the slack from both. */
  lemma NoneShorter(c: Choice, x: Number, exact: seq<U64>, base: seq<U64>, m: nat, e: int)
    requires Prints(c, x, exact, base) && 0 < m
    requires var s := if x.significand % 2 == 1 then Slack(x.exponent) else 0.0;
      Endpoint(x.Lower(), x.exponent) + s <= DecimalPoint(m, e) <= Endpoint(x.Upper(), x.exponent) - s
    ensures Pow(10, c.k) <= m
  {
    hide Prints, Endpoint, DecimalPoint, Slack, Power, Pow, Number.Upper, Number.Lower, Number.Valid, IsChoice, ChunkSafe;
    PrintsChoice(c, x, exact, base);
    AlwaysSafe(c, x, exact, base);
    if x.IsOdd() {
      OddShortest(c, x.Lower(), x.Upper(), x.exponent, x.IsBoundary(), exact, base, m, e);
    } else {
      AsValues(m, e, x.Lower(), x.exponent);
      AsValues(m, e, x.Upper(), x.exponent);
      EvenShortest(c, x.Lower(), x.Upper(), x.exponent, x.IsBoundary(), exact, base, m, e);
    }
  }

  /** A multiple of a quarter ulp, in the units of the backend. */
  lemma QuarterUlpIs(x: Number, m: nat)
    requires x.Valid()
    ensures 4.0 * Endpoint(m * (x.Ulp() / 4), x.exponent) == m as real * Power(2, x.exponent - x.bits) * ONE as real
  {
    hide Power;
    var h, w, p := x.Ulp() / 4, Power(2, x.exponent + 114), Power(2, x.exponent - x.bits);
    UlpIs(x);
    assert x.Ulp() == 4 * h;
    IntProduct(m, h);
    Associate(m as real, h as real, w);
    QuarterOf(m as real, h as real * w, p * ONE as real);
    Associate(m as real, p, ONE as real);
  }

  lemma QuarterOf(m: real, h: real, p: real)
    requires 4.0 * h == p
    ensures 4.0 * (m * h) == m * p
  {
  }

  lemma MidpointQuarters(x: Number)
    requires x.Valid()
    ensures x.Upper() == (4 * x.significand + 2) * (x.Ulp() / 4) && 0 < x.significand
    ensures x.Lower() == (4 * x.significand - (if x.IsBoundary() then 1 else 2)) * (x.Ulp() / 4)
  {
    var q := x.Ulp() / 4;
    assert x.Ulp() == 4 * q;
    QuarterSteps(x.significand, q);
  }

  lemma QuarterSteps(m: int, q: int)
    ensures m * (4 * q) + 2 * q == (4 * m + 2) * q && m * (4 * q) - 2 * q == (4 * m - 2) * q && m * (4 * q) - q == (4 * m - 1) * q
  {
  }

  /** The midpoints of a number. */
  lemma MidpointValues(x: Number)
    requires x.Valid()
    ensures var v, u := x.Value(), Power(2, x.exponent - x.bits);
      && 4.0 * Endpoint(x.Upper(), x.exponent) == (4.0 * v + 2.0 * u) * ONE as real
      && 4.0 * Endpoint(x.Lower(), x.exponent) == (4.0 * v - (if x.IsBoundary() then u else 2.0 * u)) * ONE as real
  {
    hide Power, Endpoint, Number.Ulp, Number.Upper, Number.Lower, Number.Valid, Number.IsBoundary;
    MidpointQuarters(x);
    QuarterUlpIs(x, 4 * x.significand + 2);
    QuarterUlpIs(x, 4 * x.significand - (if x.IsBoundary() then 1 else 2));
  }

  /** The number itself between its midpoints: halfway, on the boundary a third of the way up. */
  lemma Centre(x: Number)
    requires x.Valid()
    ensures var v, y, z := x.Value() * ONE as real, Endpoint(x.Upper(), x.exponent), Endpoint(x.Lower(), x.exponent);
      if x.IsBoundary() then y + 2.0 * z == 3.0 * v else y + z == 2.0 * v
  {
    hide Power, Endpoint, Number.Value, Number.Upper, Number.Lower, Number.Valid, Number.IsBoundary;
    MidpointValues(x);
  }

  /** For every number: the decimal printed is within half a unit in its last place of the
      number, up to the weight of a low limb and the slack; on the boundary within two thirds. */
  lemma NearNumber(c: Choice, x: Number, exact: seq<U64>, base: seq<U64>)
    requires Prints(c, x, exact, base)
    ensures var d, s, t := Printed(c) - x.Value() * ONE as real, Slack(x.exponent), LastPlace(c);
      if x.IsBoundary() then -(2 * (ONE + B192)) as real * t - 3.0 * s <= 3.0 * d <= (2 * (ONE + B192)) as real * t + 3.0 * s
      else -(ONE + 2 * B192) as real * t - 2.0 * s <= 2.0 * d <= (ONE + 2 * B192) as real * t + 2.0 * s
  {
    hide Prints, Endpoint, Printed, Slack, LastPlace, Power, Number.Upper, Number.Lower, Number.Valid, Number.Value, IsChoice, ChunkSafe, Number.IsBoundary;
    PrintsChoice(c, x, exact, base);
    AlwaysSafe(c, x, exact, base);
    NearestPrints(c, x.Lower(), x.Upper(), x.exponent, x.IsOdd(), x.IsBoundary(), exact, base);
    Centre(x);
  }

  // ---- reading the decimal back ----

  /** Another number of the format is at least an ulp away, below a boundary half an ulp. */
  lemma NumbersApart(x: Number, y: Number)
    requires x.Valid() && y.Valid() && y.bits == x.bits && y != x
    ensures var ulp := Power(2, x.exponent - x.bits);
      y.Value() <= x.Value() - (if x.IsBoundary() then ulp / 2.0 else ulp) || x.Value() + ulp <= y.Value()
  {
    hide Power, Number.Value;
    SignificandRange(x, y);
    hide Number.Valid, Number.Top;
    var h, n, k := x.Top() / 2, x.exponent - x.bits, y.exponent - y.bits;
    ValueIs(x);
    ValueIs(y);
    PowersApart(x.significand, y.significand, h, n, k);
  }

  lemma SignificandRange(x: Number, y: Number)
    requires x.Valid() && y.Valid() && y.bits == x.bits
    ensures 0 < x.Top() / 2 && x.significand + 1 <= 2 * (x.Top() / 2) && y.significand + 1 <= 2 * (x.Top() / 2)
    ensures x.exponent < y.exponent ==> x.Top() / 2 <= y.significand
    ensures y.exponent < x.exponent ==> x.Top() / 2 <= x.significand
  {
  }

  lemma ValueIs(x: Number)
    ensures x.Value() == x.significand as real * Power(2, x.exponent - x.bits)
  {
  }

  lemma PowersApart(a: nat, b: nat, h: nat, n: int, k: int)
    requires 0 < h && a + 1 <= 2 * h && b + 1 <= 2 * h && (n == k ==> a != b) && (n < k ==> h <= b) && (k < n ==> h <= a)
    ensures var u, x, y := Power(2, n), a as real * Power(2, n), b as real * Power(2, k);
      y <= x - (if a == h then u / 2.0 else u) || x + u <= y
  {
    hide Power;
    PowerPositive(2, n);
    PowerPositive(2, k);
    if n == k {
      StepsApart(a, b, Power(2, n), a as real * Power(2, n), b as real * Power(2, k));
    } else if n < k {
      LargerExponent(n + 1, k);
      PowerNext(2, n);
      Above(a, b, h, Power(2, n), Power(2, k));
    } else {
      LargerExponent(k, n - 1);
      PowerNext(2, n - 1);
      Below(a, b, h, Power(2, n), Power(2, k));
    }
  }

  lemma PowerPositive(b: nat, e: int)
    requires 0 < b
    ensures 0.0 < Power(b, e)
  {
    PowerAdd(b, e, 0 - e);
    PowerZero(b);
  }

  lemma LargerExponent(a: int, b: int)
    requires a <= b
    ensures 0.0 < Power(2, a) <= Power(2, b)
  {
    hide Power;
    PowerPositive(2, a);
    PowerAdd(2, a, b - a);
    PowerOfNat(2, b - a);
    PowMonotone(2, 0, b - a);
    PowStart(2);
    MulNamed(1.0, Power(2, b - a), Power(2, a), Power(2, a), Power(2, b));
  }

  lemma StepsApart(m: int, k: int, u: real, x: real, y: real)
    requires m != k && 0.0 < u && x == m as real * u && y == k as real * u
    ensures y <= x - u || x + u <= y
  {
    if k < m {
      MulNamed((k + 1) as real, m as real, u, y + u, x);
    } else {
      MulNamed((m + 1) as real, k as real, u, x + u, y);
    }
  }

  lemma Above(m: int, k: int, h: int, u: real, w: real)
    requires m + 1 <= 2 * h && h <= k && 0.0 < u && 2.0 * u <= w && 0 < h
    ensures m as real * u + u <= k as real * w
  {
    MulNamed((m + 1) as real, 2.0 * h as real, u, m as real * u + u, 2.0 * h as real * u);
    OrderNamed(h as real, 2.0 * u, w, 2.0 * h as real * u, h as real * w);
    MulNamed(h as real, k as real, w, h as real * w, k as real * w);
  }

  lemma Below(m: int, k: int, h: int, u: real, w: real)
    requires h <= m && k + 1 <= 2 * h && 0.0 < w && 2.0 * w <= u && 0 < h
    ensures k as real * w <= m as real * u - (if m == h then u / 2.0 else u)
  {
    MulNamed(k as real, (2 * h - 1) as real, w, k as real * w, (2 * h - 1) as real * w);
    OrderNamed((2 * h - 1) as real, 2.0 * w, u, (2 * h - 1) as real * (2.0 * w), (2 * h - 1) as real * u);
    HalfStep(h as real, u, w);
    if h < m {
      MulNamed(h as real, (m - 1) as real, u, h as real * u, m as real * u - u);
    }
  }

  lemma HalfStep(h: real, u: real, w: real)
    ensures (2.0 * h - 1.0) * (2.0 * w) == 2.0 * ((2.0 * h - 1.0) * w) && (2.0 * h - 1.0) * u == 2.0 * (h * u) - u
  {
  }

  /** Strictly between the midpoints is less than half an ulp away. */
  lemma HalfUlpAway(c: Choice, x: Number)
    requires x.Valid() && x.IsOdd() && Endpoint(x.Lower(), x.exponent) < Printed(c) < Endpoint(x.Upper(), x.exponent)
    ensures var ulp, d := Power(2, x.exponent - x.bits), DecimalValue(c.n, c.b - c.k);
      x.Value() * 2.0 - ulp < d * 2.0 < x.Value() * 2.0 + ulp
  {
    hide Power, Endpoint, DecimalValue, Number.Value, Number.Upper, Number.Lower, Number.Ulp;
    OddMidpoints(x);
    MidpointValues(x);
  }

  /** For every odd significand the decimal printed reads back: every other number of the
      format is farther from it. */
  lemma OddReadsBack(c: Choice, x: Number, y: Number, exact: seq<U64>, base: seq<U64>)
    requires Prints(c, x, exact, base) && x.significand % 2 == 1 && y.Valid() && y.bits == x.bits && y != x
    ensures var d := DecimalValue(c.n, c.b - c.k); Distance(d, x.Value()) < Distance(d, y.Value())
  {
    hide Prints, Power, Endpoint, Printed, DecimalValue, Number.Value, Number.Upper, Number.Lower, Number.Ulp;
    ValidPrints(c, x, exact, base);
    OddStrictly(c, x, exact, base);
    HalfUlpAway(c, x);
    NumbersApart(x, y);
  }

  /** For every number, off the boundary or where the guard did not mislead: no other number
      of the format is closer to the decimal printed by two parts in 2^64 of an ulp. */
  lemma NearlyReadsBack(c: Choice, x: Number, y: Number, exact: seq<U64>, base: seq<U64>)
    requires Prints(c, x, exact, base) && y.Valid() && y.bits == x.bits && y != x
    requires !(x.IsBoundary() && GuardMisleads(c.l, c.u, c.k, true))
    ensures var d := DecimalValue(c.n, c.b - c.k);
      (Distance(d, x.Value()) - Distance(d, y.Value())) * B64 as real < 2.0 * Power(2, x.exponent - x.bits)
  {
    hide Prints, Power, Endpoint, DecimalValue, Slack, GuardMisleads, Distance, Number.Value, Number.Valid, Number.Upper, Number.Lower,
         Number.Ulp, Number.IsBoundary, Number.IsOdd;
    ValidPrints(c, x, exact, base);
    SlackTiny(x);
    PowerPositive(2, x.exponent - x.bits);
    MidpointValues(x);
    NumbersApart(x, y);
    if x.IsOdd() {
      OddStrictly(c, x, exact, base);
    } else {
      EvenWithin(c, x, exact, base);
    }
    NotCloser(DecimalValue(c.n, c.b - c.k), x.Value(), y.Value(), Power(2, x.exponent - x.bits), Slack(x.exponent), x.IsBoundary());
  }

  lemma NotCloser(d: real, v: real, y: real, u: real, s: real, boundary: bool)
    requires y <= v - (if boundary then u / 2.0 else u) || v + u <= y
    requires 0.0 < u && 0.0 < s && B64 as real * s <= u * ONE as real
    requires (4.0 * v - (if boundary then u else 2.0 * u)) * ONE as real - 4.0 * s < 4.0 * (d * ONE as real)
    requires 4.0 * (d * ONE as real) < (4.0 * v + 2.0 * u) * ONE as real + 4.0 * s
    ensures (Distance(d, v) - Distance(d, y)) * B64 as real < 2.0 * u
  {
    var r := s / ONE as real;
    assert B64 as real * r <= u;
    assert 4.0 * v - (if boundary then u else 2.0 * u) - 4.0 * r < 4.0 * d < 4.0 * v + 2.0 * u + 4.0 * r;
    assert Distance(d, v) - Distance(d, y) < 2.0 * r;
  }

  ghost function Distance(a: real, b: real): real { if a < b then b - a else a - b }

  // ---- the text ----

  /** The exponential layout is asked for exactly above two to the `bits`. */
  lemma ForceMeans(x: Number)
    requires x.Valid()
    ensures x.Force() <==> Power(2, x.bits) < x.Value()
  {
    hide Power;
    var n, h := x.exponent - x.bits, x.Top() / 2;
    TopIs(x);
    PowerPositive(2, n);
    PowerAdd(2, x.bits, 1);
    if x.bits + 1 < x.exponent {
      LargerExponent(2, n);
      TwoSquared();
      OrderNamed(x.significand as real, 4.0, Power(2, n), 4.0 * x.significand as real, x.Value());
    } else if x.exponent == x.bits + 1 {
      PowerOne();
    } else {
      LargerExponent(n, 0);
      PowerZero(2);
      OrderNamed(x.significand as real, Power(2, n), 1.0, x.Value(), x.significand as real);
    }
  }

  lemma TopIs(x: Number)
    requires x.Valid()
    ensures Power(2, x.bits) == x.Top() as real
  {
    PowersOfTwo();
    if x.bits == 113 {
      PowAdd(2, 64, 32);
      PowAdd(2, 96, 16);
      PowAdd(2, 112, 1);
      PowStart(2);
    }
  }

  lemma TwoSquared()
    ensures Power(2, 2) == 4.0
  {
    assert Pow(2, 2) == 4;
  }

  lemma PowerOne()
    ensures Power(2, 1) == 2.0
  {
    PowStart(2);
  }

  /** Every number fits in 49 characters, the terminator among them. */
  lemma TextFits(c: Choice, x: Number, negative: bool, exact: seq<U64>, base: seq<U64>)
    requires Prints(c, x, exact, base) && InRange(c.b) && 0 <= c.n
    ensures 0 < |Text(c, negative, x.Force())| < 49
  {
    hide Prints, IsChoice, ChunkSafe, Text, Number.Upper, Number.Lower, Pow, ScaledLow, ScaledHigh;
    PrintsChoice(c, x, exact, base);
    AlwaysSafe(c, x, exact, base);
    TextShort(c, x.Lower(), x.Upper(), x.exponent, x.IsOdd(), negative, x.IsBoundary(), x.Force(), exact, base);
    TextLong(c, negative, x.Force());
    PrintsScaled(c, x, exact, base);
    if !x.Force() { PlainExponent(x.exponent); }
  }

  lemma PlainExponent(be: int)
    requires be <= 114
    ensures DecimalExponent(be) <= 35
  {
  }

  // ---- signed numbers ----

  /** A number and its sign. */
  datatype SignedNumber = SignedNumber(negative: bool, size: Number) {
    ghost function Value(): real { Signed(negative, size.Value()) }
  }

  /** The order of numbers of a format: by exponent, then by significand. */
  lemma NumberOrder(x: Number, y: Number)
    requires x.Valid() && y.Valid() && x.bits == y.bits
    ensures x.Value() < y.Value() <==> x.exponent < y.exponent || (x.exponent == y.exponent && x.significand < y.significand)
    ensures x.Value() == y.Value() <==> x == y
  {
    hide Number.Valid, Number.Value;
    if x.exponent < y.exponent {
      SmallerExponent(x, y);
    } else if y.exponent < x.exponent {
      SmallerExponent(y, x);
    } else {
      ValueIs(x);
      ValueIs(y);
      hide Power;
      OrderNamed(Power(2, x.exponent - x.bits), x.significand as real, y.significand as real, x.Value(), y.Value());
      OrderNamed(Power(2, x.exponent - x.bits), y.significand as real, x.significand as real, y.Value(), x.Value());
    }
  }

  lemma SmallerExponent(x: Number, y: Number)
    requires x.Valid() && y.Valid() && x.bits == y.bits && x.exponent < y.exponent
    ensures x.Value() < y.Value()
  {
    hide Power, Number.Value;
    var n, k := x.exponent - x.bits, y.exponent - y.bits;
    ValueIs(x);
    ValueIs(y);
    SignificandRange(x, y);
    PowerPositive(2, n);
    LargerExponent(n + 1, k);
    PowerNext(2, n);
    Above(x.significand, y.significand, x.Top() / 2, Power(2, n), Power(2, k));
  }

  lemma BoundaryAtOne(x: Number)
    requires x.Valid() && x.IsBoundary() && x.exponent == 1
    ensures x.Value() == 1.0
  {
    hide Power;
    TopIs(x);
    PowerAdd(2, 1 - x.bits, x.bits);
    PowerZero(2);
    var p := Power(2, 1 - x.bits);
    assert x.Top() == 2 * x.significand;
    assert p * (2.0 * x.significand as real) == 2.0;
  }

  lemma PositiveValue(x: Number)
    requires x.Valid()
    ensures Power(2, x.exponent - x.bits) <= x.Value()
  {
    hide Power;
    MulNamed(1.0, x.significand as real, Power(2, x.exponent - x.bits), Power(2, x.exponent - x.bits), x.Value());
  }

  /** The pattern of a sign and a magnitude, as a number. */
  function Key(negative: bool, magnitude: int): int { if negative then -magnitude else magnitude }

  /** Patterns ordered like their numbers stay so when they get signs. */
  lemma SignedOrder(x: SignedNumber, y: SignedNumber, m: int, n: int)
    requires x.size.Valid() && y.size.Valid() && x.size.bits == y.size.bits && 0 < m && 0 < n
    requires m < n <==> x.size.Value() < y.size.Value()
    requires n < m <==> y.size.Value() < x.size.Value()
    ensures Key(x.negative, m) < Key(y.negative, n) <==> x.Value() < y.Value()
  {
    hide Number.Valid, Number.Value, Power;
    PositiveValue(x.size);
    PositiveValue(y.size);
  }

  /** The decimal printed for a number with an odd significand, with the number's sign, is
      farther from every other number of the format with any sign. */
  lemma SignedReadsBack(c: Choice, x: SignedNumber, y: SignedNumber, exact: seq<U64>, base: seq<U64>)
    requires Prints(c, x.size, exact, base) && x.size.significand % 2 == 1 && y.size.Valid() && y.size.bits == x.size.bits && y != x
    ensures var d := Signed(x.negative, DecimalValue(c.n, c.b - c.k)); Distance(d, x.Value()) < Distance(d, y.Value())
  {
    hide Prints, Power, Endpoint, Printed, DecimalValue, Number.Value, Number.Upper, Number.Lower, Number.Ulp, Number.Valid;
    ValidPrints(c, x.size, exact, base);
    PositiveValue(x.size);
    PositiveValue(y.size);
    PowerPositive(2, x.size.exponent - x.size.bits);
    PowerPositive(2, y.size.exponent - y.size.bits);
    if y.negative == x.negative {
      OddReadsBack(c, x.size, y.size, exact, base);
    } else {
      OddStrictly(c, x.size, exact, base);
      HalfUlpAway(c, x.size);
    }
  }

  /** For every number, off the boundary or where the guard did not mislead. */
  lemma SignedNearlyReadsBack(c: Choice, x: SignedNumber, y: SignedNumber, exact: seq<U64>, base: seq<U64>)
    requires Prints(c, x.size, exact, base) && y.size.Valid() && y.size.bits == x.size.bits && y != x
    requires !(x.size.IsBoundary() && GuardMisleads(c.l, c.u, c.k, true))
    ensures var d := Signed(x.negative, DecimalValue(c.n, c.b - c.k));
      (Distance(d, x.Value()) - Distance(d, y.Value())) * B64 as real < 2.0 * Power(2, x.size.exponent - x.size.bits)
  {
    hide Prints, Power, Endpoint, DecimalValue, GuardMisleads, Number.Value, Number.Valid, Number.Upper, Number.Lower,
         Number.Ulp, Number.IsBoundary, Number.IsOdd;
    ValidPrints(c, x.size, exact, base);
    PositiveValue(x.size);
    PositiveValue(y.size);
    PowerPositive(2, x.size.exponent - x.size.bits);
    PowerPositive(2, y.size.exponent - y.size.bits);
    if y.negative == x.negative {
      NearlyReadsBack(c, x.size, y.size, exact, base);
    } else {
      AboveHalf(c, x.size, exact, base);
    }
  }

  /** The decimal printed is more than half the number. */
  lemma AboveHalf(c: Choice, x: Number, exact: seq<U64>, base: seq<U64>)
    requires Prints(c, x, exact, base) && !(x.IsBoundary() && GuardMisleads(c.l, c.u, c.k, true))
    ensures (x.Value() - 2.0 * DecimalValue(c.n, c.b - c.k)) * B64 as real < 2.0 * Power(2, x.exponent - x.bits)
  {
    hide Prints, Power, Endpoint, DecimalValue, Slack, GuardMisleads, Number.Value, Number.Valid, Number.Upper, Number.Lower,
         Number.Ulp, Number.IsBoundary, Number.IsOdd;
    ValidPrints(c, x, exact, base);
    SlackTiny(x);
    PositiveValue(x);
    PowerPositive(2, x.exponent - x.bits);
    MidpointValues(x);
    if x.IsOdd() {
      OddStrictly(c, x, exact, base);
    } else {
      EvenWithin(c, x, exact, base);
    }
    HalfLeftOver(DecimalValue(c.n, c.b - c.k), x.Value(), Power(2, x.exponent - x.bits), Slack(x.exponent), x.IsBoundary());
  }

  lemma HalfLeftOver(d: real, v: real, u: real, s: real, boundary: bool)
    requires 0.0 < u <= v && 0.0 < s && B64 as real * s <= u * ONE as real
    requires (4.0 * v - (if boundary then u else 2.0 * u)) * ONE as real - 4.0 * s < 4.0 * (d * ONE as real)
    ensures (v - 2.0 * d) * B64 as real < 2.0 * u
  {
    var r := s / ONE as real;
    assert B64 as real * r <= u;
    assert 4.0 * v - (if boundary then u else 2.0 * u) - 4.0 * r < 4.0 * d;
    assert v - 2.0 * d < 2.0 * r;
  }

  // ---- the two callers ----

  const HALF_64: nat := 0x8000_0000_0000_0000

  /** A float80 pattern of a non-zero number: `low` holds the significand, `high` the sign and
      the exponent. */
  predicate IsFloat80(low: U64, high: U64) {
    var e := high % 0x8000;
    0 < low && e != 0x7fff && (e == 0 || HALF_64 <= low)
  }

  function Float80(low: U64, high: U64): Number {
    Number(64, low, if high % 0x8000 == 0 then -16381 else high % 0x8000 - 16382)
  }

  function Signed80(low: U64, high: U64): SignedNumber {
    SignedNumber(high / 0x8000 % 2 == 1, Float80(low, high))
  }

  /** The patterns stand for every number of 64 bits, and for no others. */
  lemma Float80Numbers(x: Number)
    ensures x.bits == 64 && x.Valid() <==> exists low: U64, high: U64 :: IsFloat80(low, high) && Float80(low, high) == x
  {
    if x.bits == 64 && x.Valid() {
      var low: U64, high: U64 := x.significand, if x.significand < HALF_64 then 0 else x.exponent + 16382;
      assert IsFloat80(low, high) && Float80(low, high) == x;
    }
  }

  /** The leading bit of the significand is set exactly if the exponent is not zero. */
  predicate Canonical80(low: U64, high: U64) { high % 0x8000 == 0 ==> low < HALF_64 }

  /** A pattern of sixteen and sixty-four bits as a number in sign and magnitude. */
  function Key80(low: U64, high: U64): int {
    var h := high % 0x1_0000;
    if h < 0x8000 then h * B64 + low else -((h - 0x8000) * B64 + low)
  }

  /** Patterns are ordered like the numbers they stand for. */
  lemma Float80Order(low: U64, high: U64, low': U64, high': U64)
    requires IsFloat80(low, high) && Canonical80(low, high) && IsFloat80(low', high') && Canonical80(low', high')
    ensures Key80(low, high) < Key80(low', high') <==> Signed80(low, high).Value() < Signed80(low', high').Value()
  {
    var x, y := Signed80(low, high), Signed80(low', high');
    NumberOrder(x.size, y.size);
    NumberOrder(y.size, x.size);
    SplitKey80(low, high);
    SplitKey80(low', high');
    hide Number.Value, SignedNumber.Value;
    SignedOrder(x, y, high % 0x8000 * B64 + low, high' % 0x8000 * B64 + low');
  }

  lemma SplitKey80(low: U64, high: U64)
    ensures Key80(low, high) == Key(high / 0x8000 % 2 == 1, high % 0x8000 * B64 + low)
  {
    var q := high / 0x8000;
    QuotientUnique(high, 0x1_0000, q / 2, q % 2 * 0x8000 + high % 0x8000);
  }

  /** Only the lower sixteen bits of the second word matter, and with a zero exponent a leading
      bit counts as in the exponent above it. */
  lemma Float80Same(low: U64, high: U64)
    ensures Signed80(low, high) == Signed80(low, high % 0x1_0000)
    ensures !Canonical80(low, high) ==> Signed80(low, high) == Signed80(low, high + 1)
  {
    var q, e := high / 0x8000, high % 0x8000;
    QuotientUnique(high, 0x1_0000, q / 2, q % 2 * 0x8000 + e);
    QuotientUnique(high % 0x1_0000, 0x8000, q % 2, e);
    if e == 0 { QuotientUnique(high + 1, 0x8000, q, 1); }
  }

  /** The pattern of one. */
  lemma OneFloat80()
    ensures Signed80(HALF_64, 0x3fff).Value() == 1.0
  {
    BoundaryAtOne(Float80(HALF_64, 0x3fff));
  }

  /** The interval is that of the number. */
  lemma Midpoints80(low: U64, high: U64)
    requires IsFloat80(low, high)
    ensures var x, isBoundary := Float80(low, high), low % HALF_64 == 0;
      && x.Valid() && x.IsBoundary() == isBoundary && x.IsOdd() == (low % 2 == 1)
      && x.Upper() == low * B64 + HALF_64
      && x.Lower() == (low - 1) * B64 + (if isBoundary then HALF_64 + HALF_64 / 2 else HALF_64)
      && x.Force() == (x.exponent > 65 || (x.exponent == 65 && !isBoundary))
  {
  }

  method PrintFloat80(dest: array<char>, low: U64, high: U64, exact: seq<U64>, base: seq<U64>)
    returns (r: nat, ghost c: Choice)
    requires IsFloat80(low, high) && ExactTable(exact) && FloorTable(base) && NeverWraps(exact, base)
    modifies dest
    ensures dest.Length == 0 ==> r == 0
    ensures 0 < dest.Length ==> Prints(c, Float80(low, high), exact, base) && 0 <= c.n && InRange(c.b)
    ensures 0 < dest.Length ==> Shown(dest[..], r, Text(c, Signed80(low, high).negative, Float80(low, high).Force()))
    ensures 49 <= dest.Length ==> 0 < r
    ensures 0 < r ==> ReadValue(dest[..r]) == Signed(Signed80(low, high).negative, DecimalValue(c.n, c.b - c.k))
    ensures 0 < r && low % 2 == 1 ==> forall low': U64, high': U64 | IsFloat80(low', high') && Signed80(low', high') != Signed80(low, high) ::
      Distance(ReadValue(dest[..r]), Signed80(low, high).Value()) < Distance(ReadValue(dest[..r]), Signed80(low', high').Value())
  {
    hide ReadValue, DecimalValue, Distance, SignedNumber.Value, IsChoice, ExactTable, FloorTable, NeverWraps, Text, Number.Valid, Number.Upper, Number.Lower, Number.IsBoundary,
         Number.IsOdd, Number.Force, IsFloat80;
    var exponent, negative := high % 0x8000, high / 0x8000 % 2 == 1;
    var isBoundary := low % HALF_64 == 0;
    if dest.Length < 1 { return 0, Choice(0, 0, 0, 0, 0); }
    var binaryExponent := if exponent == 0 then -16381 else exponent - 16382;
    ghost var x := Float80(low, high);
    Midpoints80(low, high);
    MidpointsFit(x);
    var halfUlp, quarterUlp := HALF_64, HALF_64 / 2;
    var upper: U128 := low * B64 + halfUlp;
    var lower: U128 := (low - 1) * B64 + (if isBoundary then halfUlp + quarterUlp else halfUlp);
    r, c := Print(dest, lower, upper, negative, isBoundary, low % 2 == 1, binaryExponent,
                  binaryExponent > 65 || (binaryExponent == 65 && !isBoundary), exact, base);
    TextFits(c, x, negative, exact, base);
    if low % 2 == 1 {
      forall low': U64, high': U64 | IsFloat80(low', high') && Signed80(low', high') != Signed80(low, high)
        ensures var d := Signed(negative, DecimalValue(c.n, c.b - c.k));
          Distance(d, Signed80(low, high).Value()) < Distance(d, Signed80(low', high').Value())
      {
        Midpoints80(low', high');
        SignedReadsBack(c, Signed80(low, high), Signed80(low', high'), exact, base);
      }
    }
  }

  /** The buffer holds the whole text and its terminator, or an empty string if they do not fit. */
  predicate Shown(buffer: seq<char>, r: nat, text: seq<char>) {
    if |text| + 1 > |buffer| then r == 0 && 0 < |buffer| && buffer[0] == '\0'
    else r == |text| && buffer[..r] == text && buffer[r] == '\0'
  }

  const BIT_48: nat := 0x1_0000_0000_0000
  const BIT_49: nat := 0x2_0000_0000_0000

  /** A binary128 pattern of a non-zero number. */
  predicate IsBinary128(low: U64, high: U64) {
    var e := high / BIT_48 % 0x8000;
    e != 0x7fff && (e != 0 || low != 0 || high % BIT_48 != 0)
  }

  function Binary128(low: U64, high: U64): Number {
    var e, f := high / BIT_48 % 0x8000, high % BIT_48 * B64 + low;
    if e == 0 then Number(113, f, -16381) else Number(113, BIT_48 * B64 + f, e - 16382)
  }

  function Signed128(low: U64, high: U64): SignedNumber {
    SignedNumber(high / BIT_48 / 0x8000 % 2 == 1, Binary128(low, high))
  }

  /** A pattern of 128 bits as a number in sign and magnitude. */
  function Key128(low: U64, high: U64): int {
    if high < HALF_64 then high * B64 + low else -((high - HALF_64) * B64 + low)
  }

  /** Patterns are ordered like the numbers they stand for. */
  lemma Binary128Order(low: U64, high: U64, low': U64, high': U64)
    requires IsBinary128(low, high) && IsBinary128(low', high')
    ensures Key128(low, high) < Key128(low', high') <==> Signed128(low, high).Value() < Signed128(low', high').Value()
  {
    hide Number.Value, Number.Valid, SignedNumber.Value, Binary128, Key128, IsBinary128;
    var x, y := Signed128(low, high), Signed128(low', high');
    Fields128(low, high);
    Fields128(low', high');
    Number128(low, high);
    Number128(low', high');
    NumberOrder(x.size, y.size);
    NumberOrder(y.size, x.size);
    var m, n := high % HALF_64 * B64 + low, high' % HALF_64 * B64 + low';
    Magnitude128(low, high, low', high');
    Magnitude128(low', high', low, high);
    SignedOrder(x, y, m, n);
  }

  /** Sign, exponent and fraction of the upper word. */
  lemma Fields128(low: U64, high: U64)
    ensures var e, f := high / BIT_48 % 0x8000, high % BIT_48;
      && high % HALF_64 == e * BIT_48 + f && 0 <= f < BIT_48 && 0 <= e < 0x8000
      && Key128(low, high) == Key(high / BIT_48 / 0x8000 % 2 == 1, high % HALF_64 * B64 + low)
  {
    var q := high / BIT_48;
    QuotientUnique(high, HALF_64, q / 0x8000, q % 0x8000 * BIT_48 + high % BIT_48);
  }

  lemma Magnitude128(low: U64, high: U64, low': U64, high': U64)
    requires IsBinary128(low, high) && IsBinary128(low', high')
    ensures var x, y := Binary128(low, high), Binary128(low', high');
      && 0 < high % HALF_64 * B64 + low
      && (high % HALF_64 * B64 + low < high' % HALF_64 * B64 + low'
          <==> x.exponent < y.exponent || (x.exponent == y.exponent && x.significand < y.significand))
  {
    Fields128(low, high);
    Fields128(low', high');
    var e, f, e', f' := high / BIT_48 % 0x8000, high % BIT_48 * B64 + low, high' / BIT_48 % 0x8000, high' % BIT_48 * B64 + low';
    assert high % HALF_64 * B64 + low == e * (BIT_48 * B64) + f;
    assert high' % HALF_64 * B64 + low' == e' * (BIT_48 * B64) + f';
  }

  /** The pattern of one. */
  lemma OneBinary128()
    ensures Signed128(0, 0x3fff_0000_0000_0000).Value() == 1.0
  {
    BoundaryAtOne(Binary128(0, 0x3fff_0000_0000_0000));
  }

  /** The patterns stand for every number of 113 bits, and for no others. */
  lemma Binary128Numbers(x: Number)
    ensures x.bits == 113 && x.Valid() <==> exists low: U64, high: U64 :: IsBinary128(low, high) && Binary128(low, high) == x
  {
    if x.bits == 113 && x.Valid() {
      var e := if x.significand < BIT_48 * B64 then 0 else x.exponent + 16382;
      var f := if e == 0 then x.significand else x.significand - BIT_48 * B64;
      var low: U64, high: U64 := f % B64, e * BIT_48 + f / B64;
      QuotientUnique(high, BIT_48, e, f / B64);
      assert IsBinary128(low, high) && Binary128(low, high) == x;
    }
  }

  /** The significand moved up by fifteen bits, limb by limb. */
  lemma Aligned(h: nat, low: U64)
    requires h < 2 * BIT_48
    ensures var high, l := h * 0x8000 % B64 + low / BIT_49, low * 0x8000 % B64;
      && high * B64 + l == (h * B64 + low) * 0x8000 && 0 <= high < B64
      && l % 0x8000 == 0 && l / 0x8000 % 2 == low % 2
  {
    var q, m := low / BIT_49, low % BIT_49;
    LimbSplit(low, q, m);
    QuotientUnique(low * 0x8000, B64, q, m * 0x8000);
    QuotientUnique(h * 0x8000, B64, 0, h * 0x8000);
  }

  lemma LimbSplit(low: U64, q: nat, m: nat)
    requires low == q * BIT_49 + m && m < BIT_49
    ensures low * 0x8000 == q * B64 + m * 0x8000 && m * 0x8000 < B64 && q < 0x8000
    ensures m * 0x8000 % 0x8000 == 0 && m * 0x8000 / 0x8000 % 2 == low % 2
  {
    var eight := 0x8000;
    QuotientUnique(m * eight, eight, m, 0);
    HalfLimb(q, m);
  }

  lemma HalfLimb(q: nat, m: nat)
    ensures (q * BIT_49 + m) % 2 == m % 2
  {
    EvenPlus(q * BIT_49 + m, q * BIT_48, m);
  }

  /** Half an ulp added does not carry; half or a quarter taken away borrows from zero only. */
  lemma Borrowed(high: nat, l: nat, part: nat)
    requires high < B64 && l < B64 && l % 0x8000 == 0 && 0 < part <= 0x4000 && 0 < high * B64 + l
    ensures (l + 0x4000) % B64 == l + 0x4000
    ensures if l == 0 then 0 < high && (l - part) % B64 == B64 - part else (l - part) % B64 == l - part
  {
    assert l <= B64 - 0x8000;
    QuotientUnique(l + 0x4000, B64, 0, l + 0x4000);
    if l == 0 {
      QuotientUnique(0 - part, B64, -1, B64 - part);
    } else {
      assert 0x8000 <= l;
      QuotientUnique(l - part, B64, 0, l - part);
    }
  }

  lemma Number128(low: U64, high: U64)
    requires IsBinary128(low, high)
    ensures var x, h := Binary128(low, high), high % BIT_48 + (if high / BIT_48 % 0x8000 == 0 then 0 else BIT_48);
      && x.bits == 113 && x.Valid() && x.significand == h * B64 + low && x.IsBoundary() == (low == 0 && high % BIT_48 == 0)
  {
  }

  /** The midpoints from the number moved up by fifteen bits. */
  lemma Midpoints128(x: Number, m: int)
    requires x.bits == 113 && x.Valid() && m == x.significand * 0x8000
    ensures x.Upper() == m + 0x4000 && x.Lower() == m - (if x.IsBoundary() then 0x2000 else 0x4000)
    ensures 0 < m
  {
  }

  lemma ForceIs(x: Number)
    requires x.bits == 113 && x.Valid()
    ensures x.Force() == (x.exponent > 114 || (x.exponent == 114 && !x.IsBoundary())) && -16500 <= x.exponent <= 16500
  {
    hide Number.IsBoundary;
  }

  method PrintBinary128(dest: array<char>, low: U64, high: U64, exact: seq<U64>, base: seq<U64>)
    returns (r: nat, ghost c: Choice)
    requires IsBinary128(low, high) && ExactTable(exact) && FloorTable(base) && NeverWraps(exact, base)
    modifies dest
    ensures dest.Length == 0 ==> r == 0
    ensures 0 < dest.Length ==> Prints(c, Binary128(low, high), exact, base) && 0 <= c.n && InRange(c.b)
    ensures 0 < dest.Length ==> Shown(dest[..], r, Text(c, Signed128(low, high).negative, Binary128(low, high).Force()))
    ensures 49 <= dest.Length ==> 0 < r
    ensures 0 < r ==> ReadValue(dest[..r]) == Signed(Signed128(low, high).negative, DecimalValue(c.n, c.b - c.k))
    ensures 0 < r && low % 2 == 1 ==> forall low': U64, high': U64 | IsBinary128(low', high') && Signed128(low', high') != Signed128(low, high) ::
      Distance(ReadValue(dest[..r]), Signed128(low, high).Value()) < Distance(ReadValue(dest[..r]), Signed128(low', high').Value())
  {
    hide ReadValue, DecimalValue, Distance, SignedNumber.Value, IsChoice, ExactTable, FloorTable, NeverWraps, Text, Number.Upper, Number.Lower, Number.IsBoundary,
         Number.Force, IsBinary128;
    var exponent, negative := high / BIT_48 % 0x8000, high / BIT_48 / 0x8000 % 2 == 1;
    var significandHigh := high % BIT_48;
    var isBoundary := low == 0 && significandHigh == 0;
    if dest.Length < 1 { return 0, Choice(0, 0, 0, 0, 0); }
    var binaryExponent := -16381;
    if exponent != 0 {
      binaryExponent := exponent - 16382;
      significandHigh := significandHigh + BIT_48;
    }
    ghost var x := Binary128(low, high);
    Number128(low, high);
    assert binaryExponent == x.exponent;
    MidpointsFit(x);
    ForceIs(x);
    hide Binary128, Number.Valid;
    var upper, lower, isOdd := Interval128(x, significandHigh, low, isBoundary);
    r, c := Print(dest, lower, upper, negative, isBoundary, isOdd, binaryExponent,
                  binaryExponent > 114 || (binaryExponent == 114 && !isBoundary), exact, base);
    TextFits(c, x, negative, exact, base);
    if low % 2 == 1 {
      forall low': U64, high': U64 | IsBinary128(low', high') && Signed128(low', high') != Signed128(low, high)
        ensures var d := Signed(negative, DecimalValue(c.n, c.b - c.k));
          Distance(d, Signed128(low, high).Value()) < Distance(d, Signed128(low', high').Value())
      {
        Odd128(low, high);
        Number128(low', high');
        SignedReadsBack(c, Signed128(low, high), Signed128(low', high'), exact, base);
      }
    }
  }

  lemma Odd128(low: U64, high: U64)
    ensures Binary128(low, high).significand % 2 == low % 2 && Binary128(low, high).bits == 113
  {
    var e, h := high / BIT_48 % 0x8000, high % BIT_48;
    SameParity(Binary128(low, high).significand, if e == 0 then h else h + BIT_48, low);
  }

  /** The part of the caller that aligns the significand and finds the midpoints. */
  method Interval128(ghost x: Number, high: nat, low: U64, isBoundary: bool) returns (upper: U128, lower: U128, isOdd: bool)
    requires x.bits == 113 && x.Valid() && x.significand == high * B64 + low && isBoundary == x.IsBoundary() && high < 2 * BIT_48
    ensures upper == x.Upper() && lower == x.Lower() && isOdd == x.IsOdd()
  {
    hide Number.Upper, Number.Lower, Number.Valid, Number.IsBoundary, Number.Force;
    Aligned(high, low);
    var significandHigh := high * 0x8000 % B64 + low / BIT_49;
    var significandLow := low * 0x8000 % B64;
    var halfUlp, quarterUlp := 0x4000, 0x2000;
    Midpoints128(x, significandHigh * B64 + significandLow);
    MidpointsFit(x);
    SameParity(x.significand, high, low);
    isOdd := significandLow / 0x8000 % 2 == 1;
    upper, lower := Limbs128(significandHigh, significandLow, halfUlp, if isBoundary then quarterUlp else halfUlp);
  }

  lemma SameParity(x: int, high: int, low: int)
    requires x == high * B64 + low
    ensures x % 2 == low % 2
  {
    EvenPlus(x, high * HALF_64, low);
  }

  method Limbs128(high: nat, low: nat, halfUlp: nat, part: nat) returns (upper: U128, lower: U128)
    requires high < B64 && low < B64 && low % 0x8000 == 0 && halfUlp == 0x4000 && 0 < part <= halfUlp && 0 < high * B64 + low
    ensures upper == high * B64 + low + halfUlp && lower == high * B64 + low - part
  {
    Borrowed(high, low, part);
    upper := high * B64 + (low + halfUlp) % B64;
    if low == 0 {
      lower := (high - 1) * B64 + (low - part) % B64;
    } else {
      lower := high * B64 + (low - part) % B64;
    }
  }
}
