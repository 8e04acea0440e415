/** The 256-bit backend for float80 and binary128, end to end. */
module Backend {
  import opened Powers
  import opened RealPowers
  import opened Wide
  import opened DigitText
  import opened Format
  import opened Shortest
  import opened DigitLoop
  import opened DigitGeneration
  import opened LastDigit
  import opened Exponents
  import opened PowerOfTen
  import opened Scaling

  /** The decimal `n` times ten to the `e`. */
  ghost function DecimalValue(n: int, e: int): real { n as real * Power(10, e) }

  /** The binary number `m` times two to the `be - 128`. */
  ghost function BinaryValue(m: int, be: int): real { m as real * Power(2, be - 128) }

  lemma EndpointIs(m: int, be: int)
    ensures Endpoint(m, be) == BinaryValue(m, be) * ONE as real
  {
    hide Power;
    var n := 242;
    OneAsPower(n);
    PowerAdd(2, be - 128, n);
    Associate(m as real, Power(2, be - 128), Power(2, n));
  }

  lemma OneAsPower(n: nat)
    requires n == 242
    ensures Power(2, n) == ONE as real
  {
    hide Power, Pow;
    OneIsPower(n);
    PowerOfNat(2, n);
  }

  /** A comparison at the scale of the last digit, as a comparison of numbers. */
  lemma Descale(x: int, k: nat, n: int, b: int)
    ensures x * Pow(10, k) <= n * ONE <==> x as real * Power(10, b) <= DecimalValue(n, b - k) * ONE as real
    ensures n * ONE <= x * Pow(10, k) <==> DecimalValue(n, b - k) * ONE as real <= x as real * Power(10, b)
  {
    hide Power, Pow;
    IntProduct(x, Pow(10, k));
    IntProduct(n, ONE);
    PowerOfNat(10, k);
    PowerAdd(10, k, b - k);
    CompareScaled(x as real, Power(10, k), Power(10, b - k), Power(10, b), n as real, ONE as real,
                  (x * Pow(10, k)) as real, (n * ONE) as real, DecimalValue(n, b - k));
  }

  lemma CompareScaled(x: real, p: real, t: real, pt: real, n: real, w: real, xp: real, nw: real, nt: real)
    requires 0.0 < t && pt == p * t && xp == x * p && nw == n * w && nt == n * t
    ensures xp <= nw <==> x * pt <= nt * w
    ensures nw <= xp <==> nt * w <= x * pt
  {
    assert xp * t == x * pt;
    assert nw * t == nt * w;
    OrderNamed(t, xp, nw, x * pt, nt * w);
    OrderNamed(t, nw, xp, nt * w, x * pt);
  }

  lemma WholeMultiple(m: nat, b: int, i: nat)
    ensures DecimalValue(m * Pow(10, i), b) == DecimalValue(m, b + i)
  {
    hide Power, Pow;
    PowerOfNat(10, i);
    IntProduct(m, Pow(10, i));
    PowerAdd(10, i, b);
    Associate(m as real, Power(10, i), Power(10, b));
  }

  /** A decimal in the units of the scaled interval. */
  ghost function DecimalPoint(n: int, e: int): real { DecimalValue(n, e) * ONE as real }

  /** A decimal in `[l, u]` times ten to the `b`, as a hit at the scale of its last digit. */
  lemma PointHits(l: int, u: int, b: int, k: nat, n: int)
    ensures Hits(l, u, ONE, k, n) <==> l as real * Power(10, b) <= DecimalPoint(n, b - k) <= u as real * Power(10, b)
  {
    hide Power, Pow, DecimalValue;
    Descale(l, k, n, b);
    Descale(u, k, n, b);
  }

  /** If no decimal with fewer than `k` fraction digits lies in the interval, none with at
      most `k` digits does, whatever its exponent. */
  lemma FewerOutside(l: int, u: int, b: int, k: nat, m: nat, e: int)
    requires NoneBefore(l, u, k) && 0 < l && ONE <= u && 0 < m < Pow(10, k)
    ensures !(l as real * Power(10, b) <= DecimalPoint(m, e) <= u as real * Power(10, b))
  {
    var j := b - e;
    if 0 <= j {
      FewestDigits(l, u, ONE, k, m, j);
      hide Hits, Power, DecimalPoint;
      PointHits(l, u, b, j, m);
    } else {
      assert 0 < k && NoneAt(l, u, ONE, 0);
      var m' := m * Pow(10, -j);
      assert !Hits(l, u, ONE, 0, m');
      hide Hits, Power;
      PointHits(l, u, b, 0, m');
      WholeMultiple(m, b, -j);
    }
  }

  /** Two spellings of a decimal have the same value. */
  lemma SpellsSameValue(x: Decimal, y: Decimal)
    requires x.Spells(y)
    ensures DecimalValue(x.mantissa, x.exponent) == DecimalValue(y.mantissa, y.exponent)
  {
    WholeMultiple(y.mantissa, x.exponent, y.exponent - x.exponent);
  }

  // ---- what is printed ----

  /** The interval `[l, u]` with decimal exponent `b` that steps 3 to 6 give for a number. */
  ghost predicate IsScaled(l: int, u: int, b: int, lm: U128, um: U128, be: int, isOdd: bool, exact: seq<U64>, base: seq<U64>) {
    && InTables(be, exact, base) && b <= DecimalExponent(be) && ONE <= u < 10 * ONE
    && l == ScaledLow(lm, be, isOdd, exact, base) * Pow(10, DecimalExponent(be) - b)
    && u == ScaledHigh(um, be, isOdd, exact, base) * Pow(10, DecimalExponent(be) - b)
  }

  /** The decimal `n` times ten to the `b - k` that is printed for the interval `[l, u]`. */
  datatype Choice = Choice(l: int, u: int, b: int, k: nat, n: int)

  /** The decimal made of the digits the loops end with, the last of them adjusted. */
  function Adjusted(l: int, u: int, b: int, s: State, isBoundary: bool): Choice
    requires 0 < |s.digits|
  {
    var d := DigitOf(s.digits[|s.digits| - 1]);
    Choice(l, u, b, |s.digits| - 1, Numeral(s.digits) - Reduction(d, s.delta / B192, s.t / B192, isBoundary))
  }

  function Choose(l: int, u: int, b: int, isBoundary: bool): Choice
    requires 0 < l < u < 10 * ONE
  {
    ProducedSome(l, u);
    Adjusted(l, u, b, Produced(l, u), isBoundary)
  }

  lemma ProducedSome(l: int, u: int)
    requires 0 < l < u < 10 * ONE
    ensures 0 < |Produced(l, u).digits|
  {
    ProducedDigits(l, u);
  }

  /** Where the guard of the last-digit adjustment misleads, seen from the interval. */
  ghost predicate GuardMisleads(l: int, u: int, k: nat, isBoundary: bool) {
    var x := u * Pow(10, k);
    Misleads(x / ONE % 10, x % ONE, (u - l) * Pow(10, k), isBoundary)
  }

  /** The exact value lies in the middle of the interval, or a third up where the exponent
      changes; the decimal is within half a unit, or two thirds of one, of it. */
  ghost predicate IsNear(c: Choice, isBoundary: bool) {
    var p := Pow(10, c.k);
    if isBoundary then -2 * (ONE + B192) <= 3 * (c.n * ONE) - (c.u * p + 2 * (c.l * p)) <= 2 * (ONE + B192)
    else -(ONE + 2 * B192) <= 2 * (c.n * ONE) - (c.u * p + c.l * p) <= ONE + 2 * B192
  }

  lemma LastOfQuotient(u: int, ds: seq<char>, t: int)
    requires Digits(u, ds, t)
    ensures var x := u * Pow(10, |ds| - 1);
            x % ONE == t && x / ONE == Numeral(ds) && x / ONE % 10 == DigitOf(ds[|ds| - 1])
  {
    NumeralLastDigit(ds);
    hide Numeral, Pow;
    QuotientUnique(u * Pow(10, |ds| - 1), ONE, Numeral(ds), t);
  }

  lemma NumeralLastDigit(ds: seq<char>)
    requires 0 < |ds|
    ensures Numeral(ds) % 10 == DigitOf(ds[|ds| - 1])
  {
    QuotientUnique(Numeral(ds), 10, Numeral(ds[..|ds| - 1]), DigitOf(ds[|ds| - 1]));
  }

  /** What the choice has to do with its interval. */
  ghost predicate Chosen(c: Choice, isBoundary: bool) {
    && 0 <= c.n < Pow(10, c.k + 1)
    && (NoneBefore(c.l, c.u, c.k) <==> ChunkSafe(c.l, c.u))
    && (Hits(c.l, c.u, ONE, c.k, c.n) <==> !(ChunkSafe(c.l, c.u) && GuardMisleads(c.l, c.u, c.k, isBoundary)))
    && c.l * Pow(10, c.k) - B192 < c.n * ONE <= c.u * Pow(10, c.k)
    && (ChunkSafe(c.l, c.u) ==> IsNear(c, isBoundary))
  }

  lemma ChooseMeans(l: int, u: int, b: int, isBoundary: bool)
    requires 0 < l < u < 10 * ONE
    ensures Chosen(Choose(l, u, b, isBoundary), isBoundary)
  {
    hide Produced, Tracking, Digits, LastOutweighs, Adjusted, NoneBefore, Hits, ChunkSafe, Chosen, Numeral;
    ProducedHits(l, u);
    ProducedDigits(l, u);
    ProducedSome(l, u);
    if !ChunkSafe(l, u) { ProducedUnsafe(l, u); }
    AdjustedMeans(l, u, b, Produced(l, u), isBoundary);
  }

  lemma AdjustedMeans(l: int, u: int, b: int, s: State, isBoundary: bool)
    requires 0 < |s.digits| && Tracking(l, u, s.digits, s.t, s.delta) && s.t <= s.delta
    requires LastOutweighs(s.digits, s.t, s.delta) && (ChunkSafe(l, u) || |s.digits| >= 5)
    requires NoneBefore(l, u, |s.digits| - 1) <==> ChunkSafe(l, u)
    ensures Chosen(Adjusted(l, u, b, s, isBoundary), isBoundary)
  {
    hide NoneBefore, Reduction, Misleads, ChunkSafe, IsNear, LastOutweighs, Hits, Numeral, Pow, GuardMisleads, Tracking;
    AdjustedHits(l, u, s.digits, s.t, s.delta, isBoundary);
    NumeralBound(s.digits);
    LastDigitBelow(s.digits);
    if ChunkSafe(l, u) {
      GuardIs(l, u, s.digits, s.t, s.delta, isBoundary);
      WidthIs(l, u, s.digits, s.t, s.delta);
      NearMeans(l, u, b, s.digits, s.t, s.delta, isBoundary);
    }
  }

  lemma LastDigitBelow(ds: seq<char>)
    requires 0 < |ds|
    ensures DigitOf(ds[|ds| - 1]) <= Numeral(ds)
  {
  }

  lemma WidthIs(l: int, u: int, ds: seq<char>, t: int, delta: int)
    requires Tracking(l, u, ds, t, delta) && ChunkSafe(l, u)
    ensures Digits(u, ds, t) && delta == (u - l) * Pow(10, |ds| - 1)
  {
  }

  lemma GuardIs(l: int, u: int, ds: seq<char>, t: int, delta: int, isBoundary: bool)
    requires 0 < |ds| && Tracking(l, u, ds, t, delta) && ChunkSafe(l, u)
    ensures GuardMisleads(l, u, |ds| - 1, isBoundary) <==> Misleads(DigitOf(ds[|ds| - 1]), t, delta, isBoundary)
  {
    WidthIs(l, u, ds, t, delta);
    LastOfQuotient(u, ds, t);
    hide Misleads, Pow, Tracking, ChunkSafe, Digits;
  }

  lemma NearMeans(l: int, u: int, b: int, ds: seq<char>, t: int, delta: int, isBoundary: bool)
    requires Digits(u, ds, t) && t <= delta && LastOutweighs(ds, t, delta) && delta == (u - l) * Pow(10, |ds| - 1)
    ensures var r := Reduction(DigitOf(ds[|ds| - 1]), delta / B192, t / B192, isBoundary);
      IsNear(Choice(l, u, b, |ds| - 1, Numeral(ds) - r), isBoundary)
  {
    var d, p := DigitOf(ds[|ds| - 1]), Pow(10, |ds| - 1);
    var r := Reduction(d, delta / B192, t / B192, isBoundary);
    StaysNear(d, t, delta, isBoundary);
    assert Numeral(ds) * ONE + t == u * p;
    hide Reduction, Pow, Numeral, Digits;
    Distribute(u, l, p);
    NearArithmetic(u * p, l * p, Numeral(ds), t, r, isBoundary);
  }

  lemma NearArithmetic(up: int, lp: int, n: int, t: int, r: int, isBoundary: bool)
    requires n * ONE + t == up
    requires if isBoundary then -2 * (ONE + B192) <= 2 * (up - lp) - 3 * (t + r * ONE) <= 2 * (ONE + B192)
      else -(ONE + 2 * B192) <= up - lp - 2 * (t + r * ONE) <= ONE + 2 * B192
    ensures if isBoundary then -2 * (ONE + B192) <= 3 * ((n - r) * ONE) - (up + 2 * lp) <= 2 * (ONE + B192)
      else -(ONE + 2 * B192) <= 2 * ((n - r) * ONE) - (up + lp) <= ONE + 2 * B192
  {
  }

  /** The interval behind a choice. */
  lemma ScaledMeans(l: int, u: int, b: int, lm: U128, um: U128, be: int, isOdd: bool, exact: seq<U64>, base: seq<U64>)
    requires ExactTable(exact) && FloorTable(base) && NeverWraps(exact, base)
    requires 0 < lm < um && IsScaled(l, u, b, lm, um, be, isOdd, exact, base)
    ensures 0 < l < u && WIDTH <= u - l && Brackets(isOdd, l, u, b, lm, um, be)
  {
    var l0, u0, j := ScaledLow(lm, be, isOdd, exact, base), ScaledHigh(um, be, isOdd, exact, base), DecimalExponent(be) - b;
    hide ExactTable, FloorTable, NeverWraps, ScaledLow, ScaledHigh, DecimalExponent, Brackets, Pow;
    ScaleMeans(lm, um, be, isOdd, exact, base);
    BracketsShifted(isOdd, l0, u0, DecimalExponent(be), lm, um, be, j);
    WidthShifted(l0, u0, Pow(10, j));
  }

  lemma WidthShifted(l: int, u: int, p: int)
    requires 0 < l < u && 0 < p
    ensures 0 < l * p < u * p && u - l <= u * p - l * p
  {
    MulMonotone(1, 1, l, p);
    MulMonotone(u - l, 1, u - l, p);
    assert (u - l) * p == u * p - l * p;
  }

  // ---- the printed number and the exact one ----

  /** The weight of one unit of the last digit. */
  ghost function LastPlace(c: Choice): real { Power(10, c.b - c.k) }

  ghost function Printed(c: Choice): real { DecimalPoint(c.n, c.b - c.k) }

  lemma AtScale(x: int, k: nat, b: int)
    ensures (x * Pow(10, k)) as real * Power(10, b - k) == x as real * Power(10, b)
  {
    hide Power, Pow;
    PowerOfNat(10, k);
    IntProduct(x, Pow(10, k));
    PowerAdd(10, k, b - k);
    Associate(x as real, Power(10, k), Power(10, b - k));
  }

  lemma PrintedAtScale(c: Choice)
    ensures (c.n * ONE) as real * LastPlace(c) == Printed(c)
  {
    hide Power;
    IntProduct(c.n, ONE);
    Commute(c.n as real, ONE as real, LastPlace(c));
  }

  lemma Commute(a: real, b: real, c: real)
    ensures a * b * c == a * c * b
  {
  }

  /** The printed number between the ends of the interval. */
  lemma PrintedBounds(c: Choice, isBoundary: bool)
    requires Chosen(c, isBoundary)
    ensures var x, y, p := c.l as real * Power(10, c.b), c.u as real * Power(10, c.b), Printed(c);
      x - B192 as real * LastPlace(c) < p <= y && (Hits(c.l, c.u, ONE, c.k, c.n) ==> x <= p)
  {
    hide Power, Pow, Hits, NoneBefore, ChunkSafe, GuardMisleads, DecimalPoint, IsNear;
    AtScale(c.l, c.k, c.b);
    AtScale(c.u, c.k, c.b);
    PrintedAtScale(c);
    PointHits(c.l, c.u, c.b, c.k, c.n);
    ScaleInequality(c.l * Pow(10, c.k), c.u * Pow(10, c.k), c.n * ONE, LastPlace(c),
                    c.l as real * Power(10, c.b), c.u as real * Power(10, c.b), Printed(c));
  }

  /** The printed number near the exact value of its interval. */
  lemma PrintedNear(c: Choice, isBoundary: bool)
    requires IsNear(c, isBoundary)
    ensures var x, y, t := c.l as real * Power(10, c.b), c.u as real * Power(10, c.b), LastPlace(c); var p := Printed(c);
      if isBoundary then -(2 * (ONE + B192)) as real * t <= 3.0 * p - (y + 2.0 * x) <= (2 * (ONE + B192)) as real * t
      else -(ONE + 2 * B192) as real * t <= 2.0 * p - (y + x) <= (ONE + 2 * B192) as real * t
  {
    hide Power, Pow, DecimalPoint;
    AtScale(c.l, c.k, c.b);
    AtScale(c.u, c.k, c.b);
    PrintedAtScale(c);
    var lp, up, n, t := c.l * Pow(10, c.k), c.u * Pow(10, c.k), c.n * ONE, LastPlace(c);
    var x, y := c.l as real * Power(10, c.b), c.u as real * Power(10, c.b);
    if isBoundary {
      SumAtScale(up, lp, 2, t, y, x);
      ScaleSum(3, n, up + 2 * lp, 2 * (ONE + B192), t, Printed(c), y + 2.0 * x);
    } else {
      SumAtScale(up, lp, 1, t, y, x);
      ScaleSum(2, n, up + lp, ONE + 2 * B192, t, Printed(c), y + x);
    }
  }

  lemma ScaleInequality(lp: int, up: int, n: int, t: real, x: real, y: real, p: real)
    requires 0.0 < t && lp - B192 < n <= up && x == lp as real * t && y == up as real * t && p == n as real * t
    ensures x - B192 as real * t < p <= y
  {
    var w := B192 as real;
    MulNamed(n as real, up as real, t, p, y);
    LessBy(lp as real, w, t, x);
    OrderNamed(t, lp as real - w, n as real, x - w * t, p);
  }

  lemma LessBy(a: real, w: real, t: real, at: real)
    requires at == a * t
    ensures at - w * t == (a - w) * t
  {
  }

  lemma SumAtScale(up: int, lp: int, f: int, t: real, y: real, x: real)
    requires y == up as real * t && x == lp as real * t
    ensures y + f as real * x == (up + f * lp) as real * t
  {
    assert (up + f * lp) as real == up as real + f as real * lp as real by { IntProduct(f, lp); }
    DistributeSum(up as real, f as real, lp as real, t);
  }

  lemma DistributeSum(a: real, f: real, b: real, t: real)
    ensures (a + f * b) * t == a * t + f * (b * t)
  {
  }

  lemma ScaleSum(f: int, n: int, s: int, m: int, t: real, p: real, st: real)
    requires 0.0 < t && -m <= f * n - s <= m && p == n as real * t && st == s as real * t
    ensures -m as real * t <= f as real * p - st <= m as real * t
  {
    var d := (f * n - s) as real;
    IntProduct(f, n);
    DistributeLess(f as real, n as real, s as real, t, p, st);
    MulNamed(d, m as real, t, d * t, m as real * t);
    MulNamed(-m as real, d, t, -m as real * t, d * t);
  }

  lemma DistributeLess(f: real, n: real, s: real, t: real, p: real, st: real)
    requires p == n * t && st == s * t
    ensures (f * n - s) * t == f * p - st
  {
  }

  /** The choice made for a number between the midpoints `lm` and `um`. */
  ghost predicate IsChoice(c: Choice, lm: U128, um: U128, be: int, isOdd: bool, isBoundary: bool, exact: seq<U64>, base: seq<U64>) {
    && ExactTable(exact) && FloorTable(base) && NeverWraps(exact, base) && 0 < lm < um
    && IsScaled(c.l, c.u, c.b, lm, um, be, isOdd, exact, base) && 0 < c.l < c.u < 10 * ONE
    && c == Choose(c.l, c.u, c.b, isBoundary)
  }

  /** The arguments determine the choice. */
  lemma ChoiceUnique(c: Choice, c': Choice, lm: U128, um: U128, be: int, isOdd: bool, isBoundary: bool, exact: seq<U64>, base: seq<U64>)
    requires IsChoice(c, lm, um, be, isOdd, isBoundary, exact, base) && IsChoice(c', lm, um, be, isOdd, isBoundary, exact, base)
    ensures c == c'
  {
    hide ExactTable, FloorTable, NeverWraps, ScaledLow, ScaledHigh, DecimalExponent, Choose, Pow;
    var u, e := ScaledHigh(um, be, isOdd, exact, base), DecimalExponent(be);
    OneAlignment(u, e - c.b, e - c'.b);
    OneAlignment(u, e - c'.b, e - c.b);
    assert c.b == c'.b;
  }

  /** Only one power of ten brings a number between one and ten. */
  lemma OneAlignment(u: int, j: nat, j': nat)
    requires ONE <= u * Pow(10, j) && u * Pow(10, j') < 10 * ONE
    ensures j' <= j
  {
    if j < j' {
      PowMonotone(10, j + 1, j');
      OneMorePower(u, j);
      Positive(u, Pow(10, j));
      MulMonotone(u, Pow(10, j + 1), u, Pow(10, j'));
    }
  }

  lemma Positive(u: int, p: int)
    requires 0 < p && 0 < u * p
    ensures 0 < u
  {
  }

  lemma ChoiceMeans(c: Choice, lm: U128, um: U128, be: int, isOdd: bool, isBoundary: bool, exact: seq<U64>, base: seq<U64>)
    requires IsChoice(c, lm, um, be, isOdd, isBoundary, exact, base)
    ensures Chosen(c, isBoundary) && Brackets(isOdd, c.l, c.u, c.b, lm, um, be) && WIDTH <= c.u - c.l
    ensures ONE <= c.u < 10 * ONE && 0 < c.l < c.u && 0 < lm < um && -16500 <= be <= 16500
  {
    hide Chosen, Brackets, ExactTable, FloorTable, NeverWraps, Choose;
    ScaledMeans(c.l, c.u, c.b, lm, um, be, isOdd, exact, base);
    ChooseMeans(c.l, c.u, c.b, isBoundary);
  }

  /** For an odd significand the number printed lies between the midpoints, which it may meet,
      unless the guard misled; then it is below by less than 2^-50 of its last place. */
  lemma OddPrints(c: Choice, lm: U128, um: U128, be: int, isBoundary: bool, exact: seq<U64>, base: seq<U64>)
    requires IsChoice(c, lm, um, be, true, isBoundary, exact, base)
    ensures Endpoint(lm, be) - B192 as real * LastPlace(c) < Printed(c) <= Endpoint(um, be)
    ensures !(ChunkSafe(c.l, c.u) && GuardMisleads(c.l, c.u, c.k, isBoundary)) ==>
      BinaryValue(lm, be) <= DecimalValue(c.n, c.b - c.k) <= BinaryValue(um, be)
  {
    hide *;
    ChoiceMeans(c, lm, um, be, true, isBoundary, exact, base);
    PrintedBounds(c, isBoundary);
    HitsUnlessMisled(c, isBoundary);
    OddEnds(c.l, c.u, c.b, lm, um, be);
    PrintedValues(c, lm, be);
    PrintedValues(c, um, be);
  }

  /** A comparison in units is one of values. */
  lemma AsValues(n: int, e: int, m: int, be: int)
    ensures Endpoint(m, be) <= DecimalPoint(n, e) <==> BinaryValue(m, be) <= DecimalValue(n, e)
    ensures DecimalPoint(n, e) <= Endpoint(m, be) <==> DecimalValue(n, e) <= BinaryValue(m, be)
  {
    hide Endpoint, BinaryValue, DecimalValue, Power;
    EndpointIs(m, be);
    OrderNamed(ONE as real, BinaryValue(m, be), DecimalValue(n, e), Endpoint(m, be), DecimalPoint(n, e));
    OrderNamed(ONE as real, DecimalValue(n, e), BinaryValue(m, be), DecimalPoint(n, e), Endpoint(m, be));
  }

  lemma HitsUnlessMisled(c: Choice, isBoundary: bool)
    requires Chosen(c, isBoundary)
    ensures Hits(c.l, c.u, ONE, c.k, c.n) <==> !(ChunkSafe(c.l, c.u) && GuardMisleads(c.l, c.u, c.k, isBoundary))
  {
  }

  lemma OddEnds(l: int, u: int, b: int, lm: U128, um: U128, be: int)
    requires Brackets(true, l, u, b, lm, um, be)
    ensures Endpoint(lm, be) <= l as real * Power(10, b) && u as real * Power(10, b) <= Endpoint(um, be)
  {
  }

  lemma PrintedValues(c: Choice, m: int, be: int)
    ensures Endpoint(m, be) <= Printed(c) <==> BinaryValue(m, be) <= DecimalValue(c.n, c.b - c.k)
    ensures Printed(c) <= Endpoint(m, be) <==> DecimalValue(c.n, c.b - c.k) <= BinaryValue(m, be)
  {
    hide Endpoint, BinaryValue, DecimalValue;
    AsValues(c.n, c.b - c.k, m, be);
  }

  /** For an even significand it lies between the midpoints widened by the slack of scaling,
      up to the same exception. */
  lemma EvenPrints(c: Choice, lm: U128, um: U128, be: int, isBoundary: bool, exact: seq<U64>, base: seq<U64>)
    requires IsChoice(c, lm, um, be, false, isBoundary, exact, base)
    ensures Endpoint(lm, be) - Slack(be) - B192 as real * LastPlace(c) < Printed(c) < Endpoint(um, be) + Slack(be)
    ensures !(ChunkSafe(c.l, c.u) && GuardMisleads(c.l, c.u, c.k, isBoundary)) ==> Endpoint(lm, be) - Slack(be) < Printed(c)
  {
    hide IsChoice, NoneBefore, ChunkSafe, GuardMisleads, Hits, IsNear, Pow, Power, Endpoint, Slack, Printed;
    ChoiceMeans(c, lm, um, be, false, isBoundary, exact, base);
    PrintedBounds(c, isBoundary);
  }

  /** Where the width is at most a seventh of the upper midpoint, the first four-digit step
      is safe. This leaves out only the six smallest subnormals of a format. */
  lemma NarrowIsSafe(l: int, u: int, b: int, lm: U128, um: U128, be: int, isOdd: bool)
    requires Brackets(isOdd, l, u, b, lm, um, be) && 0 < lm < um && -28738 < be < 28738
    requires ONE <= u < 10 * ONE && 7 * (um - lm) <= um
    ensures ChunkSafe(l, u)
  {
    hide Power, Endpoint, Slack, ChunkSafe;
    var t, x, y := Power(10, b), l as real * Power(10, b), u as real * Power(10, b);
    SlackSmall(um, be);
    SevenTimes(lm, um, be);
    assert 7.0 * (y - x) < y + 15.0 * Slack(be) && 1000.0 * Slack(be) <= y;
    WidthFrom(l, u, t, x, y);
  }

  lemma SlackSmall(um: U128, be: int)
    requires 0 < um && -28738 < be < 28738
    ensures 1001.0 * Slack(be) <= Endpoint(um, be) && 0.0 < Slack(be)
  {
    hide Power, DecimalExponent;
    DecimalExponentExact(be);
    PowerAdd(2, be, 114);
    TwoTo114();
    var p, q, w := Power(10, DecimalExponent(be)), Power(2, be), Power(2, 114);
    MulNamed(p, q, w, p * w, q * w);
    MulNamed(2002.0, w, p, 2002.0 * p, w * p);
    MulNamed(1.0, um as real, q * w, q * w, um as real * (q * w));
  }

  lemma SevenTimes(lm: U128, um: U128, be: int)
    requires 7 * (um - lm) <= um
    ensures 7.0 * (Endpoint(um, be) - Endpoint(lm, be)) <= Endpoint(um, be)
  {
    hide Power;
    var w := Power(2, be + 114);
    SevenTimesReal(lm as real, um as real, w, Endpoint(lm, be), Endpoint(um, be));
  }

  lemma SevenTimesReal(a: real, b: real, w: real, aw: real, bw: real)
    requires 7.0 * (b - a) <= b && 0.0 < w && aw == a * w && bw == b * w
    ensures 7.0 * (bw - aw) <= bw
  {
    MulNamed(7.0 * (b - a), b, w, 7.0 * (bw - aw), bw) by { assert 7.0 * (b - a) * w == 7.0 * (b * w - a * w); }
  }

  lemma WidthFrom(l: int, u: int, t: real, x: real, y: real)
    requires 0.0 < t && x == l as real * t && y == u as real * t && ONE <= u < 10 * ONE
    requires 7000.0 * (y - x) < 1015.0 * y
    ensures ChunkSafe(l, u)
  {
    DifferenceAtScale(l as real, u as real, t, x, y);
    OrderNamed(t, 7000.0 * (u as real - l as real), 1015.0 * u as real, 7000.0 * (y - x), 1015.0 * y);
    assert 7000 * (u - l) < 1015 * u;
  }

  lemma DifferenceAtScale(l: real, u: real, t: real, x: real, y: real)
    requires x == l * t && y == u * t
    ensures 7000.0 * (y - x) == 7000.0 * (u - l) * t && 1015.0 * y == 1015.0 * u * t
  {
  }

  /** For an even significand no decimal between the midpoints has fewer digits. */
  lemma EvenShortest(c: Choice, lm: U128, um: U128, be: int, isBoundary: bool, exact: seq<U64>, base: seq<U64>, m: nat, e: int)
    requires IsChoice(c, lm, um, be, false, isBoundary, exact, base) && ChunkSafe(c.l, c.u)
    requires 0 < m && BinaryValue(lm, be) <= DecimalValue(m, e) <= BinaryValue(um, be)
    ensures Pow(10, c.k) <= m
  {
    hide IsChoice, NoneBefore, ChunkSafe, GuardMisleads, Hits, IsNear, Pow, Power, Endpoint, Slack, BinaryValue, DecimalValue;
    ChoiceMeans(c, lm, um, be, false, isBoundary, exact, base);
    AsValues(m, e, lm, be);
    AsValues(m, e, um, be);
    if m < Pow(10, c.k) {
      FewerOutside(c.l, c.u, c.b, c.k, m, e);
    }
  }

  /** For an odd significand none does that keeps the slack of scaling from both. */
  lemma OddShortest(c: Choice, lm: U128, um: U128, be: int, isBoundary: bool, exact: seq<U64>, base: seq<U64>, m: nat, e: int)
    requires IsChoice(c, lm, um, be, true, isBoundary, exact, base) && ChunkSafe(c.l, c.u)
    requires 0 < m && Endpoint(lm, be) + Slack(be) <= DecimalPoint(m, e) <= Endpoint(um, be) - Slack(be)
    ensures Pow(10, c.k) <= m
  {
    hide IsChoice, NoneBefore, ChunkSafe, GuardMisleads, Hits, IsNear, Pow, Power, Endpoint, Slack, DecimalPoint;
    ChoiceMeans(c, lm, um, be, true, isBoundary, exact, base);
    if m < Pow(10, c.k) {
      FewerOutside(c.l, c.u, c.b, c.k, m, e);
    }
  }

  lemma WithSlack(p: real, m: real, s: real, x: real, y: real, x': real, y': real)
    requires x' - s < x < x' + s && y' - s < y < y' + s
    ensures -m <= 2.0 * p - (y + x) <= m ==> -m - 2.0 * s <= 2.0 * p - (y' + x') <= m + 2.0 * s
    ensures -m <= 3.0 * p - (y + 2.0 * x) <= m ==> -m - 3.0 * s <= 3.0 * p - (y' + 2.0 * x') <= m + 3.0 * s
  {
  }

  /** The number printed is as near to the exact one as its length allows: within half a
      unit of the last place, or two thirds where the exponent changes, up to the low limbs
      and the slack. The exact number is the middle of the midpoints, or a third up. */
  lemma NearestPrints(c: Choice, lm: U128, um: U128, be: int, isOdd: bool, isBoundary: bool, exact: seq<U64>, base: seq<U64>)
    requires IsChoice(c, lm, um, be, isOdd, isBoundary, exact, base) && ChunkSafe(c.l, c.u)
    ensures var p, s, t, x, y := Printed(c), Slack(be), LastPlace(c), Endpoint(lm, be), Endpoint(um, be);
      if isBoundary then
        -(2 * (ONE + B192)) as real * t - 3.0 * s <= 3.0 * p - (y + 2.0 * x) <= (2 * (ONE + B192)) as real * t + 3.0 * s
      else
        -(ONE + 2 * B192) as real * t - 2.0 * s <= 2.0 * p - (y + x) <= (ONE + 2 * B192) as real * t + 2.0 * s
  {
    hide IsChoice, ChunkSafe, Pow, Power, Endpoint, Slack, Printed, LastPlace, IsNear, NoneBefore, Hits, GuardMisleads;
    ChoiceMeans(c, lm, um, be, isOdd, isBoundary, exact, base);
    assert IsNear(c, isBoundary);
    hide Chosen;
    PrintedNear(c, isBoundary);
    SlackSmall(um, be);
    var x, y := c.l as real * Power(10, c.b), c.u as real * Power(10, c.b);
    var m := if isBoundary then (2 * (ONE + B192)) as real * LastPlace(c) else (ONE + 2 * B192) as real * LastPlace(c);
    WithSlack(Printed(c), m, Slack(be), x, y, Endpoint(lm, be), Endpoint(um, be));
  }

  // ---- the text ----

  function SignText(negative: bool): seq<char> { if negative then "-" else "" }

  /** The text of a choice. */
  function Text(c: Choice, negative: bool, force: bool): seq<char>
    requires 0 <= c.n && InRange(c.b)
  {
    SignText(negative) + Layout(Spell(c.n, c.k + 1), c.b, force)
  }

  /** The number a text stands for: a decimal after an optional minus. */
  ghost function ReadValue(text: seq<char>): real {
    var negative := text != [] && text[0] == '-';
    var d := Read(if negative then text[1..] else text);
    if negative then -DecimalValue(d.mantissa, d.exponent) else DecimalValue(d.mantissa, d.exponent)
  }

  ghost function Signed(negative: bool, x: real): real { if negative then -x else x }

  /** The text without its sign. */
  lemma PlainText(c: Choice, force: bool)
    requires 0 <= c.n < Pow(10, c.k + 1) && InRange(c.b)
    ensures var plain := Layout(Spell(c.n, c.k + 1), c.b, force);
      plain != [] && plain[0] != '-' && HasShape(plain, c.k + 1, c.b, force)
  {
    hide Layout, HasShape, Spell, Pow;
    var ds := Spell(c.n, c.k + 1);
    SpellReads(c.n, c.k + 1);
    LayoutShape(ds, c.b, force);
    ShapeShows(Layout(ds, c.b, force), c.k + 1, c.b, force);
  }

  lemma UnsignedReads(c: Choice, force: bool)
    requires 0 <= c.n < Pow(10, c.k + 1) && InRange(c.b)
    ensures var d := Read(Layout(Spell(c.n, c.k + 1), c.b, force));
      DecimalValue(d.mantissa, d.exponent) == DecimalValue(c.n, c.b - c.k)
  {
    hide Layout, DecimalValue, Read, Spell, Pow;
    var ds := Spell(c.n, c.k + 1);
    SpellReads(c.n, c.k + 1);
    LayoutReads(ds, c.b, force);
    SpellsSameValue(Read(Layout(ds, c.b, force)), Decimal(c.n, c.b - c.k));
  }

  /** The text reads back as the choice, below zero exactly if `negative`. */
  lemma TextReads(c: Choice, negative: bool, force: bool)
    requires 0 <= c.n < Pow(10, c.k + 1) && InRange(c.b)
    ensures ReadValue(Text(c, negative, force)) == Signed(negative, DecimalValue(c.n, c.b - c.k))
  {
    hide Layout, DecimalValue, Read, Spell, Pow, HasShape;
    var plain := Layout(Spell(c.n, c.k + 1), c.b, force);
    PlainText(c, force);
    UnsignedReads(c, force);
    assert ("-" + plain)[1..] == plain && "" + plain == plain;
  }

  /** The sign shows, and after it the text has the shape that the exponent and `force` ask
      for. */
  lemma TextShape(c: Choice, negative: bool, force: bool)
    requires 0 <= c.n < Pow(10, c.k + 1) && InRange(c.b)
    ensures var text := Text(c, negative, force);
      && text != [] && (text[0] == '-' <==> negative)
      && HasShape(if negative then text[1..] else text, c.k + 1, c.b, force)
  {
    hide Layout, Spell, HasShape, Pow;
    var plain := Layout(Spell(c.n, c.k + 1), c.b, force);
    PlainText(c, force);
    assert ("-" + plain)[1..] == plain && "" + plain == plain;
  }

  /** A choice has at most forty digits, so its text and terminator fit in 49 characters unless
      zeros before the point are added. */
  lemma TextShort(c: Choice, lm: U128, um: U128, be: int, isOdd: bool, negative: bool, isBoundary: bool, force: bool, exact: seq<U64>, base: seq<U64>)
    requires IsChoice(c, lm, um, be, isOdd, isBoundary, exact, base) && ChunkSafe(c.l, c.u) && InRange(c.b) && 0 <= c.n
    ensures c.k < 40
    ensures |Text(c, negative, force)| + 1 <= 49 || (!force && |Text(c, negative, force)| <= c.b + 4)
  {
    ChoiceMeans(c, lm, um, be, isOdd, isBoundary, exact, base);
    ProducedLength(c.l, c.u);
    assert c.k + 1 == |Produced(c.l, c.u).digits|;
    hide IsChoice, Chosen, Brackets, Layout;
    LayoutLength(Spell(c.n, c.k + 1), c.b, force);
  }

  /** The digits in the buffer after the adjustment, and what they stand for. */
  lemma AdjustedDigits(ds: seq<char>, r: nat)
    requires 0 < |ds| && AllDigits(ds) && r <= DigitOf(ds[|ds| - 1])
    ensures var ds' := ds[|ds| - 1 := DigitChar(DigitOf(ds[|ds| - 1]) - r)];
            AllDigits(ds') && Numeral(ds) >= r && ds' == Spell(Numeral(ds) - r, |ds|)
  {
    var ds' := ds[|ds| - 1 := DigitChar(DigitOf(ds[|ds| - 1]) - r)];
    NumeralLast(ds, DigitOf(ds[|ds| - 1]) - r);
    SpellUnique(ds');
  }

  /** Adjusts the last digit and lays out the text. */
  method FinishPrint(dest: array<char>, p: nat, first: nat, t: Fixed256, delta: Fixed256, isBoundary: bool, force: bool, e: int,
                     ghost was: seq<char>, ghost ds: seq<char>, ghost c: Choice)
    returns (r: nat)
    requires Written(dest, was, first, "0" + ds, p) && p < dest.Length && InRange(e) && 0 < |ds| && AllDigits(ds)
    requires t.Value() < ONE && t.Value() <= delta.Value() && LastOutweighs(ds, t.Value(), delta.Value())
    requires c == Adjusted(c.l, c.u, e, State(ds, t.Value(), delta.Value()), isBoundary)
    modifies dest
    ensures 0 <= c.n
    ensures var text := Layout(Spell(c.n, c.k + 1), e, force);
            if first + |text| + 1 > dest.Length then r == 0 && dest[0] == '\0'
            else && r == first + |text| && dest[..first] == was[..first] && dest[first..r] == text && dest[r] == '\0'
  {
    hide Fixed256.Value, Reduction, Layout, Spell, HasShape;
    var z := |ds| - 1;
    ghost var before := dest[..];
    assert before[first..p] == "0" + ds;
    assert before[first] == before[first..p][0] && before[first + 1..p] == before[first..p][1..] == ds;
    assert before[p - 1] == ds[z];
    Adjust(dest, p, t, delta, isBoundary);
    ghost var red := Reduction(DigitOf(ds[z]), delta.Value() / B192, t.Value() / B192, isBoundary);
    ghost var ds' := ds[z := DigitChar(DigitOf(ds[z]) - red)];
    AdjustedDigits(ds, red);
    assert dest[first + 1..p] == ds';
    r := FinishFormatting(dest, p, first, force, e);
  }

  /** The exponent stays within four digits. */
  lemma ExponentRange(be: int, b: int)
    requires -16500 <= be <= 16500 && DecimalExponent(be) - 81 <= b <= DecimalExponent(be)
    ensures InRange(b)
  {
  }

  lemma TextLong(c: Choice, negative: bool, force: bool)
    requires 0 <= c.n && InRange(c.b)
    ensures |SignText(negative)| + c.k + 2 <= |Text(c, negative, force)| && |SignText(negative)| + 3 <= |Text(c, negative, force)|
  {
    hide Layout;
    LayoutLength(Spell(c.n, c.k + 1), c.b, force);
  }

  /** The aligned interval is the scaled one. */
  lemma AlignedIsScaled(l: int, u: int, b: int, lm: U128, um: U128, be: int, isOdd: bool, exact: seq<U64>, base: seq<U64>)
    requires InTables(be, exact, base) && b <= DecimalExponent(be) && ONE <= u < 10 * ONE
    requires l == ScaledLow(lm, be, isOdd, exact, base) * Pow(10, DecimalExponent(be) - b)
    requires u == ScaledHigh(um, be, isOdd, exact, base) * Pow(10, DecimalExponent(be) - b)
    ensures IsScaled(l, u, b, lm, um, be, isOdd, exact, base)
  {
  }

  lemma TablesIn(be: int, exact: seq<U64>, base: seq<U64>)
    requires ExactTable(exact) && FloorTable(base) && -16500 <= be <= 16500
    ensures InTables(be, exact, base)
  {
  }

  lemma ChoiceReads(c: Choice, lm: U128, um: U128, be: int, isOdd: bool, isBoundary: bool, exact: seq<U64>, base: seq<U64>,
                    negative: bool, force: bool)
    requires IsChoice(c, lm, um, be, isOdd, isBoundary, exact, base) && 0 <= c.n && InRange(c.b)
    ensures ReadValue(Text(c, negative, force)) == Signed(negative, DecimalValue(c.n, c.b - c.k))
  {
    hide IsChoice, Brackets, ReadValue, Text, NoneBefore, Hits, IsNear, GuardMisleads, ChunkSafe;
    ChoiceMeans(c, lm, um, be, isOdd, isBoundary, exact, base);
    TextReads(c, negative, force);
  }

  /** Steps 3 to 6 and the choice they lead to. */
  method Prepare(lm: U128, um: U128, isBoundary: bool, isOdd: bool, be: int, exact: seq<U64>, base: seq<U64>)
    returns (l: Fixed256, u: Fixed256, base10Exponent: int, ghost c: Choice)
    requires 0 < lm < um && -16500 <= be <= 16500
    requires ExactTable(exact) && FloorTable(base) && NeverWraps(exact, base)
    ensures fresh(l) && fresh(u) && 0 < l.Value() < u.Value() < 10 * ONE
    ensures c == Choose(l.Value(), u.Value(), base10Exponent, isBoundary) && c.b == base10Exponent
    ensures IsChoice(c, lm, um, be, isOdd, isBoundary, exact, base) && 0 <= c.n && InRange(c.b)
  {
    hide Fixed256.Value, Brackets, ExactTable, FloorTable, NeverWraps, DecimalExponent, ScaledLow, ScaledHigh, Pow, IsScaled, Produced, Chosen, Adjusted;
    TablesIn(be, exact, base);
    var b;
    l, u, b := Scaling.Scale(lm, um, be, isOdd, exact, base);
    base10Exponent := Align(l, u, b);
    AlignedIsScaled(l.Value(), u.Value(), base10Exponent, lm, um, be, isOdd, exact, base);
    ScaledMeans(l.Value(), u.Value(), base10Exponent, lm, um, be, isOdd, exact, base);
    ExponentRange(be, base10Exponent);
    c := Choose(l.Value(), u.Value(), base10Exponent, isBoundary);
    ChooseParts(l.Value(), u.Value(), base10Exponent, isBoundary);
  }

  lemma ChooseParts(l: int, u: int, b: int, isBoundary: bool)
    requires 0 < l < u < 10 * ONE
    ensures var c, s := Choose(l, u, b, isBoundary), Produced(l, u);
      && c.l == l && c.u == u && c.b == b && 0 <= c.n && c.k + 1 == |s.digits|
      && c == Adjusted(c.l, c.u, b, s, isBoundary)
  {
    hide Produced, Numeral, Reduction;
    ChooseMeans(l, u, b, isBoundary);
  }

  lemma ProducedReady(l: int, u: int, ds: seq<char>, t: int, delta: int)
    requires 0 < l < u < 10 * ONE && State(ds, t, delta) == Produced(l, u)
    ensures 0 < |ds| && AllDigits(ds) && t < ONE && t <= delta && LastOutweighs(ds, t, delta)
  {
    ProducedDigits(l, u);
  }

  /** `_swift_dtoa_256bit_backend`: prints a number between the midpoints `lm` and `um`,
      both times two to the `be - 128`. The text is that of the choice made for it; zero is
      returned with an empty string exactly if text and terminator do not fit. */
  method Print(dest: array<char>, lm: U128, um: U128, negative: bool, isBoundary: bool, isOdd: bool, be: int,
               force: bool, exact: seq<U64>, base: seq<U64>)
    returns (r: nat, ghost c: Choice)
    requires 0 < dest.Length && 0 < lm < um && -16500 <= be <= 16500
    requires ExactTable(exact) && FloorTable(base) && NeverWraps(exact, base)
    modifies dest
    ensures IsChoice(c, lm, um, be, isOdd, isBoundary, exact, base) && 0 <= c.n && InRange(c.b)
    ensures var text := Text(c, negative, force);
      if |text| + 1 > dest.Length then r == 0 && dest[0] == '\0'
      else r == |text| && dest[..r] == text && dest[r] == '\0'
    ensures r != 0 ==> ReadValue(dest[..r]) == Signed(negative, DecimalValue(c.n, c.b - c.k))
  {
    hide Fixed256.Value, ExactTable, FloorTable, NeverWraps, IsChoice, Choose, Produced, Layout, Spell, LastOutweighs, HasShape, ReadValue;
    var l, u, base10Exponent;
    l, u, base10Exponent, c := Prepare(lm, um, isBoundary, isOdd, be, exact, base);
    ChooseParts(l.Value(), u.Value(), base10Exponent, isBoundary);
    TextLong(c, negative, force);
    ChoiceReads(c, lm, um, be, isOdd, isBoundary, exact, base, negative, force);
    if dest.Length < 4 {
      dest[0] := '\0';
      return 0, c;
    }
    var first := 0;
    if negative {
      dest[0] := '-';
      first := 1;
    }
    ghost var was := dest[..];
    var ok, p, t, delta, ds := Generate(dest, first, u, l);
    if !ok {
      dest[0] := '\0';
      return 0, c;
    }
    ProducedReady(l.Value(), u.Value(), ds, t.Value(), delta.Value());
    r := FinishPrint(dest, p, first, t, delta, isBoundary, force, base10Exponent, was, ds, c);
    if r != 0 {
      assert dest[..r] == dest[..first] + dest[first..r];
      assert was[..first] == SignText(negative);
    }
  }

  // ---- why the exceptions depend on the width ----

  const UNIT_117: int := 0x20_0000_0000_0000 * B64

  const EIGHTH: int := 0x2000_0000_0000_0000 * B64

  /** At binary exponent three the scale factor is one: scaling is exact. */
  lemma AtExponentThree(m: U128, isOdd: bool, exact: seq<U64>, base: seq<U64>)
    requires ExactTable(exact) && |base| == 716
    ensures DecimalExponent(3) == 0
    ensures ScaledLow(m, 3, isOdd, exact, base) == m * UNIT_117 == ScaledHigh(m, 3, isOdd, exact, base)
  {
    assert DecimalExponent(3) == 0 && PowerExponent(0) == 1 && Shift(3) == 10;
    OneExact(exact);
    var v := B128 * Exact(exact, 0);
    TenBits();
    hide Pow, Exact;
    var x := m * UNIT_117;
    assert v * m == B128 * (1024 * x);
    QuotientUnique(v * m, B128, 1024 * x, 0);
    QuotientUnique(v * m + (B128 - 1), B128, 1024 * x, B128 - 1);
    QuotientUnique(1024 * x, 1024, x, 0);
    QuotientUnique(1024 * x + 1023, 1024, x, 1023);
  }

  lemma TenBits()
    ensures Pow(2, 10) == 1024
  {
    PowersOfTwo();
    assert Pow(2, 2) == 4;
    PowAdd(2, 8, 2);
  }

  lemma OneExact(exact: seq<U64>)
    requires ExactTable(exact)
    ensures Exact(exact, 0) == 0x8000_0000_0000_0000 * B64
  {
    assert IsExact(exact, 0) && BinaryExponent(0) == 1;
    hide Power, Exact;
    PowerZero(10);
    var n := 127;
    PowersOfTwo();
    PowAdd(2, 64, 63);
    PowAdd(2, 63, 1);
    assert Pow(2, 1) == 2;
    PowerOfNat(2, n);
  }

  /** Midpoints that no number of either format has, for which the first four-digit step wraps:
      the digit seven lies between them, but five or more digits are printed. */
  lemma UnsafeMidpoints(isOdd: bool, isBoundary: bool, exact: seq<U64>, base: seq<U64>)
    requires ExactTable(exact) && FloorTable(base) && NeverWraps(exact, base)
    ensures var um := 7 * EIGHTH + 2; var lm := um - (0x4000 * EIGHTH / 10000 + 1);
      var l, u := lm * UNIT_117, um * UNIT_117;
      && 0 < lm < um < B128 && IsScaled(l, u, 0, lm, um, 3, isOdd, exact, base) && 0 < l < u && Hits(l, u, ONE, 0, 7)
      && !ChunkSafe(l, u) && 4 <= Choose(l, u, 0, isBoundary).k
  {
    hide IsScaled, Produced, Choose, ChunkSafe, Hits, ExactTable, FloorTable, NeverWraps;
    var w := 0x4000 * EIGHTH / 10000 + 1;
    var um := 7 * EIGHTH + 2;
    var lm := um - w;
    MidpointsScaled(lm, um, isOdd, exact, base);
    UnsafeAt(w, um * UNIT_117);
    SevenBetween(lm * UNIT_117, um * UNIT_117);
    ProducedUnsafe(lm * UNIT_117, um * UNIT_117);
    ChooseParts(lm * UNIT_117, um * UNIT_117, 0, isBoundary);
  }

  lemma MidpointsScaled(lm: U128, um: U128, isOdd: bool, exact: seq<U64>, base: seq<U64>)
    requires ExactTable(exact) && FloorTable(base) && EIGHTH <= um
    ensures IsScaled(lm * UNIT_117, um * UNIT_117, 0, lm, um, 3, isOdd, exact, base)
  {
    AtExponentThree(lm, isOdd, exact, base);
    AtExponentThree(um, isOdd, exact, base);
    assert Pow(10, 0) == 1;
    hide ScaledLow, ScaledHigh;
  }

  lemma SevenBetween(l: int, u: int)
    requires l <= 7 * ONE <= u
    ensures Hits(l, u, ONE, 0, 7)
  {
    assert Pow(10, 0) == 1;
  }

  lemma UnsafeAt(w: int, u: int)
    requires 0 < w * 10000 - 0x4000 * EIGHTH <= 10000 && u == (7 * EIGHTH + 2) * UNIT_117
    ensures !ChunkSafe(u - w * UNIT_117, u)
  {
    var r := w * 10000 - 0x4000 * EIGHTH;
    QuotientUnique(w * UNIT_117 * 10000, B256, 1, r * UNIT_117);
    QuotientUnique(u, ONE, 7, 2 * UNIT_117);
    QuotientUnique(2 * UNIT_117 * 10000, ONE, 0, 20000 * UNIT_117);
  }

  /** Midpoints that no number of either format has, for which the guard misleads: 2.3 is
      generated and lowered to 2.2, which lies below the lower midpoint. */
  lemma GuardMidpoints(exact: seq<U64>, base: seq<U64>)
    requires ExactTable(exact) && FloorTable(base) && NeverWraps(exact, base)
    ensures var um, lm := (23 * EIGHTH + 14) / 10, (22 * EIGHTH + 6) / 10;
      var c := Choice(lm * UNIT_117, um * UNIT_117, 0, 1, 22);
      && 0 < lm < um < B128 && 7 * (um - lm) <= um && IsChoice(c, lm, um, 3, true, false, exact, base)
      && DecimalValue(22, -1) < BinaryValue(lm, 3)
  {
    hide IsScaled, Choose, ExactTable, FloorTable, NeverWraps, DecimalValue, BinaryValue;
    var um, lm := (23 * EIGHTH + 14) / 10, (22 * EIGHTH + 6) / 10;
    MidpointsScaled(lm, um, true, exact, base);
    GuardProduced(lm * UNIT_117, um * UNIT_117);
    GuardBelow(lm, lm * UNIT_117);
  }

  lemma GuardProduced(l: int, u: int)
    requires 10 * u == 23 * ONE + 14 * UNIT_117 && 10 * l == 22 * ONE + 6 * UNIT_117
    ensures 0 < l < u < 10 * ONE && Choose(l, u, 0, false) == Choice(l, u, 0, 1, 22)
  {
    var s := First(l, u);
    QuotientUnique(u, ONE, 2, u - 2 * ONE);
    QuotientUnique(s.t * 10, ONE, 3, 14 * UNIT_117);
    QuotientUnique(s.delta * 10000, B256, 0, s.delta * 10000);
    var e := State(['2', '3'], 14 * UNIT_117, ONE + 8 * UNIT_117);
    assert s == State(['2'], u - 2 * ONE, u - l);
    assert FirstChunk(s) == s;
    assert Step(s, ONE) == e;
    Unfold(s, ONE);
    Stops(e, ONE);
    assert Produced(l, u) == e;
    QuotientUnique(e.delta, B192, ONE64, 8 * UNIT_117);
    QuotientUnique(e.t, B192, 0, e.t);
    assert Reduction(3, ONE64, 0, false) == 1;
    assert e.digits[..1] == ['2'];
    assert Numeral(['2']) == 2 && Numeral(e.digits) == 23;
  }

  lemma GuardBelow(lm: U128, l: int)
    requires l == lm * UNIT_117 && 10 * l == 22 * ONE + 6 * UNIT_117
    ensures DecimalValue(22, -1) < BinaryValue(lm, 3)
  {
    hide Power, DecimalValue, BinaryValue, Pow;
    var n := 117;
    TwoTo117(n);
    IntProduct(lm, UNIT_117);
    assert Endpoint(lm, 3) == l as real;
    Descale(l, 1, 22, 0);
    PowerZero(10);
    assert Pow(10, 1) == 10 by { PowersOfTen(); }
    AsValues(22, -1, lm, 3);
  }

  lemma TwoTo117(n: nat)
    requires n == 117
    ensures Power(2, n) == UNIT_117 as real
  {
    PowersOfTwo();
    assert Pow(2, 5) == 32;
    PowAdd(2, 32, 16);
    PowAdd(2, 48, 5);
    PowAdd(2, 53, 64);
  }
}
