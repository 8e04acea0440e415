/** Steps 3 to 6 of the 256-bit backend: the interval between the neighbouring
    midpoints, scaled to a number between one and ten with directed rounding. */
module Scaling {
  import opened Powers
  import opened RealPowers
  import opened Wide
  import opened Exponents
  import opened PowerOfTen

  // ---- directed rounding keeps the exact value on the intended side ----

  lemma FloorQuotient(x: int, d: int)
    requires 0 < d
    ensures (x / d) as real * d as real <= x as real < ((x / d) as real + 1.0) * d as real
  {
    var q := x / d;
    assert q * d <= x < (q + 1) * d;
    assert (q * d) as real == q as real * d as real;
    assert ((q + 1) * d) as real == (q as real + 1.0) * d as real;
  }

  /** Rounding down twice stays below the exact quotient and loses less than two. */
  lemma RoundDown(v: nat, m: U128, two: nat, x: real, xm: real, z: real, y: real)
    requires v as real <= x < v as real + 2.0 && 3 <= two
    requires xm == x * m as real && z == two as real * B128 as real && y * z == xm
    ensures var f := v * m / B128 / two; f as real <= y < f as real + 2.0
  {
    assert (v * m) as real == v as real * m as real;
    WithinTwo(v as real, x, m as real, (v * m) as real, xm);
    RoundDownProduct(v * m, m, two, xm, z, y);
  }

  lemma RoundDownProduct(a: int, m: U128, two: nat, xm: real, z: real, y: real)
    requires a as real <= xm <= a as real + 2.0 * m as real && 3 <= two
    requires z == two as real * B128 as real && y * z == xm
    ensures var f := a / B128 / two; f as real <= y < f as real + 2.0
  {
    var f1 := a / B128;
    FloorQuotient(a, B128);
    FloorQuotient(f1, two);
    DownBounds(f1 as real, (f1 / two) as real, two as real, B128 as real, z,
               a as real, m as real, xm, y);
  }

  lemma MulReal(a: real, b: real, c: real)
    requires a <= b && 0.0 <= c
    ensures a * c <= b * c
  {
  }

  // Products are named here: sums of products with a common factor would be refactored
  // by the solver and lose their shape.
  lemma WithinTwo(x: real, y: real, m: real, xm: real, ym: real)
    requires x <= y <= x + 2.0 && 0.0 <= m && xm == x * m && ym == y * m
    ensures xm <= ym <= xm + 2.0 * m
  {
    MulNamed(x, y, m, xm, ym);
    assert (x + 2.0) * m == x * m + 2.0 * m;
    MulNamed(y, x + 2.0, m, ym, (x + 2.0) * m);
  }

  lemma DownBounds(f1: real, f2: real, two: real, b: real, z: real, a: real, m: real, xm: real, y: real)
    requires f1 * b <= a < (f1 + 1.0) * b && f2 * two <= f1 < (f2 + 1.0) * two
    requires a <= xm <= a + 2.0 * m && 0.0 <= m <= b && 0.0 < b && 3.0 <= two && z == two * b && y * z == xm
    ensures f2 <= y < f2 + 2.0
  {
    assert 0.0 < z;
    ChainUp(f2, two, f1, b, z, xm);
    RealOrder(z, f2, y);
    assert (f1 + 3.0) * b == (f1 + 1.0) * b + 2.0 * b;
    assert (f2 + 2.0) * two == (f2 + 1.0) * two + two;
    ChainDown(f2 + 2.0, two, f1 + 3.0, b, z, xm);
    RealOrder(z, y, f2 + 2.0);
  }

  lemma ChainUp(f: real, two: real, g: real, b: real, z: real, x: real)
    requires f * two <= g && g * b <= x && 0.0 < b && z == two * b
    ensures f * z <= x
  {
    MulReal(f * two, g, b);
    assert (f * two) * b == f * z;
  }

  lemma ChainDown(f: real, two: real, g: real, b: real, z: real, x: real)
    requires g <= f * two && x <= g * b && 0.0 < b && z == two * b
    ensures x <= f * z
    ensures x < g * b ==> x < f * z
  {
    MulReal(g, f * two, b);
    assert (f * two) * b == f * z;
  }

  lemma CeilingQuotient(x: int, d: int)
    requires 0 < d
    ensures x as real <= ((x + (d - 1)) / d) as real * d as real < x as real + d as real
  {
    var q := (x + (d - 1)) / d;
    assert q * d <= x + (d - 1) < q * d + d;
    assert (q * d) as real == q as real * d as real;
  }

  /** Rounding up twice stays above it and gains less than two. */
  lemma RoundUp(v: nat, m: U128, two: nat, x: real, xm: real, z: real, y: real)
    requires x <= v as real <= x + 2.0 && 3 <= two
    requires xm == x * m as real && z == two as real * B128 as real && y * z == xm
    ensures var f := ((v * m + (B128 - 1)) / B128 + (two - 1)) / two; y <= f as real < y + 2.0
  {
    assert (v * m) as real == v as real * m as real;
    WithinTwo(x, v as real, m as real, xm, (v * m) as real);
    RoundUpProduct(v * m, m, two, xm, z, y);
  }

  lemma RoundUpProduct(a: int, m: U128, two: nat, xm: real, z: real, y: real)
    requires a as real - 2.0 * m as real <= xm <= a as real && 3 <= two
    requires z == two as real * B128 as real && y * z == xm
    ensures var f := ((a + (B128 - 1)) / B128 + (two - 1)) / two; y <= f as real < y + 2.0
  {
    var f1 := (a + (B128 - 1)) / B128;
    CeilingQuotient(a, B128);
    CeilingQuotient(f1, two);
    UpBounds(f1 as real, ((f1 + (two - 1)) / two) as real, two as real, B128 as real, z,
             a as real, m as real, xm, y);
  }

  lemma UpBounds(f1: real, f2: real, two: real, b: real, z: real, a: real, m: real, xm: real, y: real)
    requires a <= f1 * b < a + b && f1 <= f2 * two < f1 + two
    requires a - 2.0 * m <= xm <= a && 0.0 <= m <= b && 0.0 < b && 3.0 <= two && z == two * b && y * z == xm
    ensures y <= f2 < y + 2.0
  {
    assert 0.0 < z by { MulReal(3.0, two, b); }
    ChainDown(f2, two, f1, b, z, xm);
    UpBoundsAbove(f1, f2, two, b, z, xm);
    TwoMore(y, z, xm);
    OrderNamed(z, y, f2, xm, f2 * z);
    OrderNamed(z, f2, y + 2.0, f2 * z, xm + 2.0 * z);
  }

  lemma UpBoundsAbove(f1: real, f2: real, two: real, b: real, z: real, xm: real)
    requires f1 * b < xm + 3.0 * b && f2 * two < f1 + two && 0.0 < b && 3.0 <= two && z == two * b
    ensures f2 * z < xm + 2.0 * z
  {
    RealOrder(b, f2 * two, f1 + two);
    assert (f1 + two) * b == f1 * b + z;
    assert (f2 * two) * b == f2 * z;
    MulReal(3.0, two, b);
  }

  // ---- the exact interval and its scaled image ----

  /** The exact number `m` times two to the `be - 128`, in units of two to the -242. */
  ghost function Endpoint(m: int, be: int): real { m as real * Power(2, be + 114) }

  /** What scaling may lose at either end: two units. */
  ghost function Slack(be: int): real { 2.0 * Power(10, DecimalExponent(be)) }

  /** `[l, u]` times ten to the `b` lies inside the exact interval for an odd
      significand and contains it for an even one, and no end is off by the slack. */
  ghost predicate Brackets(isOdd: bool, l: int, u: int, b: int, lm: int, um: int, be: int) {
    var x, y := l as real * Power(10, b), u as real * Power(10, b);
    if isOdd then
      && Endpoint(lm, be) <= x < Endpoint(lm, be) + Slack(be)
      && Endpoint(um, be) - Slack(be) < y <= Endpoint(um, be)
    else
      && Endpoint(lm, be) - Slack(be) < x <= Endpoint(lm, be)
      && Endpoint(um, be) <= y < Endpoint(um, be) + Slack(be)
  }

  /** One unit of the midpoints after scaling by ten to the `p`. */
  ghost function Unit(be: int, p: int): real { Power(2, be + 114) * Power(10, p) }

  /** A midpoint after scaling. */
  ghost function Image(m: int, be: int, p: int): real { m as real * Unit(be, p) }

  lemma UnitRange(be: int)
    requires -28738 < be < 28738
    ensures var p := -DecimalExponent(be); Power(2, 114) <= Unit(be, p) < 10.0 * Power(2, 114)
  {
    hide Power;
    var b := DecimalExponent(be);
    var g := Power(2, be) * Power(10, -b);
    DecimalExponentExact(be);
    PowerAdd(10, b, -b);
    PowerAdd(10, b + 1, -b);
    PowerZero(10);
    OrderNamed(Power(10, -b), Power(10, b), Power(2, be), 1.0, g);
    OrderNamed(Power(10, -b), Power(2, be), Power(10, b + 1), g, 10.0);
    PowerAdd(2, be, 114);
    Rotate(Power(2, be), Power(2, 114), Power(10, -b));
    OrderNamed(Power(2, 114), 1.0, g, Power(2, 114), Unit(be, -b));
    OrderNamed(Power(2, 114), g, 10.0, Unit(be, -b), 10.0 * Power(2, 114));
  }

  lemma Rotate(a: real, b: real, c: real)
    ensures a * b * c == (a * c) * b
  {
  }

  lemma PowerInjective(m: int, n: int)
    ensures Power(2, m) < Power(2, n) ==> m < n
  {
    hide Power;
    if n <= m {
      PowerAdd(2, n, m - n);
      PowerAtLeastOne(m - n);
      RealOrder(Power(2, n), 1.0, Power(2, m - n));
    }
  }

  lemma PowerAtLeastOne(n: nat)
    ensures 1.0 <= Power(2, n)
  {
  }

  /** The fixed-point shift is between 9 and 13 bits. */
  lemma ShiftRange(be: int, e: int)
    requires -28738 < be < 28738 && Normalized(-DecimalExponent(be), e)
    ensures 1 <= be + e <= 5
  {
    hide Power;
    var p := -DecimalExponent(be);
    var x, w := Scaled(p, e), Unit(be, p);
    UnitRange(be);
    // x * 2^(be + e) == w * 2^142
    PowerAdd(2, 256 - e, be + e);
    PowerAdd(2, be + 114, 142);
    assert x * Power(2, be + e) == Power(10, p) * Power(2, be + 256) by {
      Associate(Power(10, p), Power(2, 256 - e), Power(2, be + e));
    }
    assert w * Power(2, 142) == Power(10, p) * Power(2, be + 256) by {
      Rotate(Power(2, be + 114), Power(10, p), Power(2, 142));
    }
    BoundExponent(x, w, Power(2, be + e));
    PowersNearZero();
    PowerInjective(0, be + e);
    PowerInjective(be + e, 6);
  }

  lemma PowersNearZero()
    ensures Power(2, 0) == 1.0 && Power(2, 6) == 64.0
    ensures Power(2, 254) * 4.0 == Power(2, 256) == Power(2, 114) * Power(2, 142)
  {
    SmallPowers();
    hide Power;
    PowerAdd(2, 254, 2);
    PowerAdd(2, 114, 142);
  }

  lemma SmallPowers()
    ensures Power(2, 0) == 1.0 && Power(2, 2) == 4.0 && Power(2, 6) == 64.0
  {
    assert Pow(2, 1) == 2 && Pow(2, 2) == 4 && Pow(2, 3) == 8 && Pow(2, 6) == 64;
  }

  lemma BoundExponent(x: real, w: real, t: real)
    requires Power(2, 254) <= x < Power(2, 256) && Power(2, 114) <= w < 10.0 * Power(2, 114)
    requires 0.0 < t && x * t == w * Power(2, 142)
    ensures 1.0 < t < 64.0
  {
    hide Power;
    PowersNearZero();
    var a, b := Power(2, 256), w * Power(2, 142);
    RealOrder(Power(2, 142), Power(2, 114), w);
    RealOrder(Power(2, 142), w, 10.0 * Power(2, 114));
    assert a <= b < 10.0 * a;
    RealOrder(x, 1.0, t);
    RealOrder(x, t, 64.0);
  }

  /** Scaling a midpoint by the exact power and shifting is multiplying by the unit. */
  lemma ScaledPoint(m: real, be: int, p: int, e: int, s: nat, z: real)
    requires s == 14 - (be + e) && z == Power(2, s) * Power(2, 128)
    ensures (m * Unit(be, p)) * z == Scaled(p, e) * m
  {
    hide Power;
    PowerAdd(2, be + 114, s);
    PowerAdd(2, be + 114 + s, 128);
    assert be + 114 + s + 128 == 256 - e;
    Regather(m, Power(2, be + 114), Power(10, p), Power(2, s), Power(2, 128), Power(2, be + 114 + s), Power(2, 256 - e));
  }

  lemma Regather(m: real, a: real, t: real, b: real, c: real, ab: real, abc: real)
    requires ab == a * b && abc == ab * c
    ensures (m * (a * t)) * (b * c) == (t * abc) * m
  {
    assert (m * (a * t)) * (b * c) == (m * t) * ((a * b) * c);
  }

  lemma Divisor(s: nat)
    requires 9 <= s
    ensures Power(2, s) * Power(2, 128) == Pow(2, s) as real * B128 as real && 3 <= Pow(2, s)
  {
    assert Power(2, s) == Pow(2, s) as real;
    PowMonotone(2, 2, s);
    assert Pow(2, 2) == 4;
    TwoTo128();
  }

  /** A midpoint times the scale factor, both roundings down, and both up. */
  function Down(v: int, m: int, s: nat): int { v * m / B128 / Pow(2, s) }

  function Up(v: int, m: int, s: nat): int { ((v * m + (B128 - 1)) / B128 + (Pow(2, s) - 1)) / Pow(2, s) }

  /** A midpoint scaled with the lower end of the power, rounding down. */
  lemma PointDown(v: nat, m: U128, be: int, p: int, e: int, s: nat)
    requires 9 <= s <= 13 && s == 14 - (be + e) && v as real <= Scaled(p, e) < v as real + 2.0
    ensures Down(v, m, s) as real <= Image(m, be, p) < Down(v, m, s) as real + 2.0
  {
    hide Unit, Scaled, Pow, Power;
    var z := Power(2, s) * Power(2, 128);
    Divisor(s);
    ScaledPoint(m as real, be, p, e, s, z);
    RoundDown(v, m, Pow(2, s), Scaled(p, e), Scaled(p, e) * m as real, z, m as real * Unit(be, p));
  }

  /** A midpoint scaled with the upper end of the power, rounding up. */
  lemma PointUp(v: nat, m: U128, be: int, p: int, e: int, s: nat)
    requires 9 <= s <= 13 && s == 14 - (be + e) && Scaled(p, e) <= v as real <= Scaled(p, e) + 2.0
    ensures Image(m, be, p) <= Up(v, m, s) as real < Image(m, be, p) + 2.0
  {
    hide Unit, Scaled, Pow, Power;
    var z := Power(2, s) * Power(2, 128);
    Divisor(s);
    ScaledPoint(m as real, be, p, e, s, z);
    RoundUp(v, m, Pow(2, s), Scaled(p, e), Scaled(p, e) * m as real, z, m as real * Unit(be, p));
  }

  /** Two scaled midpoints, each rounded by less than two, keep their order and range. */
  lemma OrderKept(l: int, u: int, lm: U128, um: U128, be: int, lw: real, uw: real)
    requires -28738 < be < 28738 && 0 < lm < um
    requires lw == Image(lm, be, -DecimalExponent(be)) && lw - 2.0 < l as real < lw + 2.0
    requires uw == Image(um, be, -DecimalExponent(be)) && uw - 2.0 < u as real < uw + 2.0
    ensures 0 < l < u < 10 * ONE && WIDTH <= u - l
  {
    hide Unit, Power, DecimalExponent;
    var w := Unit(be, -DecimalExponent(be));
    UnitRange(be);
    TwoTo114();
    MidpointsSpaced(lm, um, w, lw, uw);
    OrderFromBounds(l, u, lw, uw, B128 as real * w, w, Power(2, 114));
  }

  lemma MidpointsSpaced(lm: U128, um: U128, w: real, lw: real, uw: real)
    requires 0 < lm < um && 0.0 < w && lw == lm as real * w && uw == um as real * w
    ensures w <= lw && lw + w <= uw && uw + w <= B128 as real * w
  {
    Spaced(1.0, w, w, 0.0, 0.0);
    Spaced(lm as real, w, lw, 1.0, w);
    Spaced(um as real, w, uw, lm as real + 1.0, lw + w);
    Spaced(B128 as real, w, B128 as real * w, um as real + 1.0, uw + w);
  }

  lemma Spaced(b: real, w: real, bw: real, a: real, aw: real)
    requires a <= b && 0.0 < w && aw == a * w && bw == b * w
    ensures aw <= bw && (b + 1.0) * w == bw + w
  {
    MulNamed(a, b, w, aw, bw);
  }

  lemma OrderFromBounds(l: int, u: int, lw: real, uw: real, top: real, w: real, q: real)
    requires lw - 2.0 < l as real < lw + 2.0 && uw - 2.0 < u as real < uw + 2.0
    requires w <= lw && lw + w <= uw && uw + w <= top && q <= w < 10.0 * q && top == B128 as real * w
    requires q == 0x4_0000_0000_0000 as real * B64 as real
    ensures 0 < l < u < 10 * ONE && WIDTH <= u - l
  {
    assert top < B128 as real * (10.0 * q);
  }

  lemma TwoTo114()
    ensures Power(2, 114) == 0x4_0000_0000_0000 as real * B64 as real
  {
    PowersOfTwo();
    PowAdd(2, 16, 16);
    PowAdd(2, 32, 16);
    assert Pow(2, 2) == 4;
    PowAdd(2, 48, 2);
    PowAdd(2, 50, 64);
  }

  lemma Unscale(m: int, be: int, b: int)
    ensures Image(m, be, -b) * Power(10, b) == Endpoint(m, be)
  {
    hide Power;
    PowerAdd(10, -b, b);
    PowerZero(10);
    UndoFactor(m as real, Power(2, be + 114), Power(10, -b), Power(10, b));
  }

  lemma UndoFactor(m: real, a: real, t: real, t': real)
    requires t * t' == 1.0
    ensures (m * (a * t)) * t' == m * a
  {
    assert (m * (a * t)) * t' == (m * a) * (t * t');
  }

  /** A comparison of a scaled end with its exact point, undone. */
  lemma UnscaleOrder(x: int, m: int, be: int, b: int)
    ensures var w, e, s := Image(m, be, -b), Endpoint(m, be), 2.0 * Power(10, b); var y := x as real * Power(10, b);
      && (w <= x as real ==> e <= y) && (x as real <= w ==> y <= e)
      && (x as real < w + 2.0 ==> y < e + s) && (w - 2.0 < x as real ==> e - s < y)
  {
    hide Power, Image, Endpoint;
    Unscale(m, be, b);
    var p, w := Power(10, b), Image(m, be, -b);
    var e, y := Endpoint(m, be), x as real * Power(10, b);
    OrderNamed(p, w, x as real, e, y);
    OrderNamed(p, x as real, w, y, e);
    TwoMore(w, p, e);
    OrderNamed(p, x as real, w + 2.0, y, e + 2.0 * p);
    OrderNamed(p, w - 2.0, x as real, e - 2.0 * p, y);
  }

  lemma TwoMore(w: real, p: real, wp: real)
    requires wp == w * p
    ensures wp + 2.0 * p == (w + 2.0) * p && wp - 2.0 * p == (w - 2.0) * p
  {
  }

  lemma ScaledBrackets(isOdd: bool, l: int, u: int, b: int, lm: U128, um: U128, be: int)
    requires b == DecimalExponent(be)
    requires var lw, uw := Image(lm, be, -b), Image(um, be, -b);
             if isOdd then lw <= l as real < lw + 2.0 && uw - 2.0 < u as real <= uw
             else lw - 2.0 < l as real <= lw && uw <= u as real < uw + 2.0
    ensures Brackets(isOdd, l, u, b, lm, um, be)
  {
    hide Power, Image, Endpoint, DecimalExponent;
    UnscaleOrder(l, lm, be, b);
    UnscaleOrder(u, um, be, b);
  }

  // ---- scaling ----

  /** By how many bits the products are shifted: 14 integer bits less those there are. */
  function Shift(be: int): nat {
    var s := 14 - (be + PowerExponent(-DecimalExponent(be)));
    if s < 0 then 0 else s
  }

  predicate InTables(be: int, exact: seq<U64>, base: seq<U64>) {
    |exact| == 112 && |base| == 716 && -16500 <= be <= 16500
  }

  lemma TableRange(be: int)
    requires -16500 <= be <= 16500
    ensures -4984 <= -DecimalExponent(be) <= 5039
  {
  }

  /** The scaled interval of a number. */
  function ScaledLow(lm: U128, be: int, isOdd: bool, exact: seq<U64>, base: seq<U64>): int
    requires InTables(be, exact, base)
  {
    TableRange(be);
    var p := -DecimalExponent(be);
    if isOdd then Up(UpperPower(p, exact, base), lm, Shift(be)) else Down(LowerPower(p, exact, base), lm, Shift(be))
  }

  function ScaledHigh(um: U128, be: int, isOdd: bool, exact: seq<U64>, base: seq<U64>): int
    requires InTables(be, exact, base)
  {
    TableRange(be);
    var p := -DecimalExponent(be);
    if isOdd then Down(LowerPower(p, exact, base), um, Shift(be)) else Up(UpperPower(p, exact, base), um, Shift(be))
  }

  /** What scaling means: the interval has a positive width, stays below ten, and compares
      with the exact one as the parity of the significand asks for. */
  lemma ScaleMeans(lm: U128, um: U128, be: int, isOdd: bool, exact: seq<U64>, base: seq<U64>)
    requires ExactTable(exact) && FloorTable(base) && NeverWraps(exact, base)
    requires 0 < lm < um && -16500 <= be <= 16500
    ensures var l, u := ScaledLow(lm, be, isOdd, exact, base), ScaledHigh(um, be, isOdd, exact, base);
      && 0 < l < u < 10 * ONE && WIDTH <= u - l
      && Brackets(isOdd, l, u, DecimalExponent(be), lm, um, be)
  {
    assert InTables(be, exact, base);
    hide Power, Scaled, Image, ExactTable, FloorTable, NeverWraps, DecimalExponent, PowerExponent,
         LowerPower, UpperPower, Normalized, Brackets, Down, Up;
    var b := DecimalExponent(be);
    TableRange(be);
    var p, s := -b, Shift(be);
    var v, w := LowerPower(p, exact, base), UpperPower(p, exact, base);
    PowerEnds(p, exact, base);
    ShiftRange(be, PowerExponent(p));
    assert s == 14 - (be + PowerExponent(p));
    if isOdd {
      PointDown(v, um, be, p, PowerExponent(p), s);
      PointUp(w, lm, be, p, PowerExponent(p), s);
    } else {
      PointDown(v, lm, be, p, PowerExponent(p), s);
      PointUp(w, um, be, p, PowerExponent(p), s);
    }
    hide Shift;
    var l, u := ScaledLow(lm, be, isOdd, exact, base), ScaledHigh(um, be, isOdd, exact, base);
    OrderKept(l, u, lm, um, be, Image(lm, be, p), Image(um, be, p));
    ScaledBrackets(isOdd, l, u, b, lm, um, be);
  }

  /** Steps 3 to 5: the interval of midpoints `lm` and `um`, scaled. */
  method Scale(lm: U128, um: U128, be: int, isOdd: bool, exact: seq<U64>, base: seq<U64>)
    returns (l: Fixed256, u: Fixed256, base10Exponent: int)
    requires ExactTable(exact) && FloorTable(base) && NeverWraps(exact, base)
    requires 0 < lm < um && -16500 <= be <= 16500
    ensures fresh(l) && fresh(u) && l != u && base10Exponent == DecimalExponent(be)
    ensures l.Value() == ScaledLow(lm, be, isOdd, exact, base) && u.Value() == ScaledHigh(um, be, isOdd, exact, base)
    ensures 0 < l.Value() < u.Value() < 10 * ONE && WIDTH <= u.Value() - l.Value()
    ensures Brackets(isOdd, l.Value(), u.Value(), base10Exponent, lm, um, be)
  {
    hide Fixed256.Value, ExactTable, FloorTable, NeverWraps, DecimalExponent, PowerExponent, LowerPower, UpperPower, Normalized, Brackets, Pow;
    ScaleMeans(lm, um, be, isOdd, exact, base);
    TableRange(be);
    base10Exponent := DecimalExponent(be);
    var lower, upper, exponent := Interval(-base10Exponent, exact, base);
    ShiftRange(be, exponent);
    var shift := 14 - (be + exponent);
    assert shift == Shift(be);
    if isOdd {
      u := new Fixed256.Copy(lower);
      u.MultiplyDown(um);
      u.ShiftDown(shift);
      l := new Fixed256.Copy(upper);
      l.MultiplyUp(lm);
      l.ShiftUp(shift);
    } else {
      u := new Fixed256.Copy(upper);
      u.MultiplyUp(um);
      u.ShiftUp(shift);
      l := new Fixed256.Copy(lower);
      l.MultiplyDown(lm);
      l.ShiftDown(shift);
    }
  }

  // ---- aligning ----

  /** Moving digits into the number and lowering the exponent changes nothing. */
  lemma BracketsShifted(isOdd: bool, l: int, u: int, b: int, lm: int, um: int, be: int, j: nat)
    requires Brackets(isOdd, l, u, b, lm, um, be)
    ensures Brackets(isOdd, l * Pow(10, j), u * Pow(10, j), b - j, lm, um, be)
  {
    hide Power, Pow, Endpoint, DecimalExponent;
    PowerAdd(10, j, b - j);
    PowerOfNat(10, j);
    MoveDigits(l, Pow(10, j), Power(10, b - j), Power(10, b));
    MoveDigits(u, Pow(10, j), Power(10, b - j), Power(10, b));
  }

  lemma MoveDigits(x: int, n: int, t: real, t': real)
    requires t' == n as real * t
    ensures (x * n) as real * t == x as real * t'
  {
    IntProduct(x, n);
    Associate(x as real, n as real, t);
  }

  /** Step 6: aligns the first digit. */
  method Align(l: Fixed256, u: Fixed256, b: int) returns (base10Exponent: int)
    requires l != u && 0 < l.Value() < u.Value() < 10 * ONE
    modifies l, u
    ensures ONE <= u.Value() < 10 * ONE && b - 81 <= base10Exponent <= b
    ensures l.Value() == old(l.Value()) * Pow(10, b - base10Exponent)
    ensures u.Value() == old(u.Value()) * Pow(10, b - base10Exponent)
  {
    hide Fixed256.Value, Pow, MovedBy;
    base10Exponent := b;
    ghost var l0, u0 := l.Value(), u.Value();
    NotManyDigits(0);
    HighBelow(u);
    NotMoved(l0);
    NotMoved(u0);
    while u.high < 0x4_0000_0000_0000
      invariant 0 < l.Value() < u.Value() < 10 * ONE && base10Exponent <= b
      invariant MovedBy(l.Value(), l0, b - base10Exponent) && MovedBy(u.Value(), u0, b - base10Exponent)
      invariant u.high < 0x4_0000_0000_0000 <==> u.Value() < ONE
      invariant b - base10Exponent <= 81 && Pow(2, 3 * (b - base10Exponent)) <= u.Value()
      decreases ONE - u.Value()
    {
      NotManyDigits(b - base10Exponent);
      OneDigitMore(l.Value(), l0, b - base10Exponent);
      OneDigitMore(u.Value(), u0, b - base10Exponent);
      base10Exponent := base10Exponent - 1;
      TenTimes(l);
      TenTimes(u);
      HighBelow(u);
    }
    HasMoved(l.Value(), l0, b - base10Exponent);
    HasMoved(u.Value(), u0, b - base10Exponent);
  }

  /** Ten times a number below one does not wrap. */
  method TenTimes(x: Fixed256)
    requires x.Value() < ONE
    modifies x
    ensures x.Value() == old(x.Value()) * 10
  {
    hide Fixed256.Value;
    QuotientUnique(x.Value() * 10, B256, 0, x.Value() * 10);
    x.MultiplySmall(10);
  }

  /** `x` is `x0` with `j` digits moved in. */
  ghost predicate MovedBy(x: int, x0: int, j: nat) { x == x0 * Pow(10, j) }

  lemma NotMoved(x: int)
    ensures MovedBy(x, x, 0)
  {
    assert Pow(10, 0) == 1;
  }

  lemma HasMoved(x: int, x0: int, j: nat)
    requires MovedBy(x, x0, j)
    ensures x == x0 * Pow(10, j)
  {
  }

  lemma OneDigitMore(x: int, x0: int, j: nat)
    requires MovedBy(x, x0, j)
    ensures MovedBy(x * 10, x0, j + 1)
  {
    Associate3(x0, Pow(10, j), 10);
  }

  lemma Associate3(a: int, b: int, c: int)
    ensures a * b * c == a * (c * b)
  {
  }

  lemma OneIsPower(n: nat)
    requires n == 242
    ensures Pow(2, n) == ONE
  {
    hide Pow;
    PowersOfTwo();
    PowAdd(2, 16, 16);
    PowAdd(2, 32, 16);
    FourIsPower();
    PowAdd(2, 48, 2);
    PowAdd(2, 64, 64);
    PowAdd(2, 128, 64);
    PowAdd(2, 192, 50);
  }

  lemma FourIsPower()
    ensures Pow(2, 0) == 1 && Pow(2, 2) == 4 && Pow(2, 3) == 8
  {
    assert Pow(2, 1) == 2;
  }

  lemma NotManyDigits(k: nat)
    ensures Pow(2, 0) == 1 && Pow(2, 3 * (k + 1)) == 8 * Pow(2, 3 * k)
    ensures 81 <= k ==> ONE <= Pow(2, 3 * k)
  {
    hide Pow;
    FourIsPower();
    PowAdd(2, 3, 3 * k);
    OneIsPower(242);
    if 81 <= k { PowMonotone(2, 242, 3 * k); }
  }

  lemma HighBelow(u: Fixed256)
    ensures u.high < 0x4_0000_0000_0000 <==> u.Value() < ONE
  {
  }
}
