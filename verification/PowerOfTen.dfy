/** An interval around a power of ten, from a table of every 56th power. The literal
    tables are parameters; what is assumed of them is stated here. */
module PowerOfTen {
  import opened Powers
  import opened RealPowers
  import opened Wide
  import opened Exponents

  /** `powersOf10_Exact128`: entry `p` is ten to the `p` as a 128-bit fraction. */
  ghost predicate ExactTable(tab: seq<U64>) {
    |tab| == 112 && forall p | 0 <= p < 56 :: IsExact(tab, p)
  }

  ghost predicate IsExact(tab: seq<U64>, p: int)
    requires |tab| == 112 && 0 <= p < 56
  {
    Exact(tab, p) as real == Power(10, p) * Power(2, 128 - BinaryExponent(p))
  }

  function Exact(tab: seq<U64>, p: int): U128
    requires |tab| == 112 && 0 <= p < 56
  {
    tab[2 * p] + B64 * tab[2 * p + 1]
  }

  /** `powersOf10_Binary128`: entry `i` is ten to the `56i - 4984`, rounded down. */
  ghost predicate FloorTable(tab: seq<U64>) {
    |tab| == 716 && forall i | 0 <= i < 179 :: IsFloor(tab, i)
  }

  ghost predicate IsFloor(tab: seq<U64>, i: int)
    requires |tab| == 716 && 0 <= i < 179
  {
    var v, q := Join(tab[4 * i], tab[4 * i + 1], tab[4 * i + 2], tab[4 * i + 3]), 56 * i - 4984;
    v as real <= Scaled(q, BinaryExponent(q)) < v as real + 1.0
  }

  /** Ten to the `p` as a 256-bit fraction with binary exponent `e`. */
  ghost function Scaled(p: int, e: int): real { Power(10, p) * Power(2, 256 - e) }

  lemma ProductOfPowers(q: int, x: int, eq: int, ex: int)
    ensures Scaled(q + x, eq + ex) * Power(2, 128) == Scaled(q, eq) * (Power(10, x) * Power(2, 128 - ex))
  {
    hide Power;
    PowerAdd(10, q, x);
    PowerAdd(2, 256 - (eq + ex), 128);
    PowerAdd(2, 256 - eq, 128 - ex);
    assert 256 - (eq + ex) + 128 == 256 - eq + (128 - ex);
    Shuffle(Power(10, q), Power(10, x), Power(2, 256 - (eq + ex)), Power(2, 128), Power(2, 256 - eq), Power(2, 128 - ex));
  }

  lemma Shuffle(a: real, b: real, c: real, d: real, e: real, f: real)
    requires c * d == e * f
    ensures (a * b) * c * d == (a * e) * (b * f)
  {
    assert (a * b) * c * d == (a * b) * (c * d);
  }

  lemma TwoTo128()
    ensures Power(2, 128) == B128 as real && Power(2, 256) == B256 as real
  {
    PowersOfTwo();
    PowAdd(2, 64, 64);
    PowAdd(2, 128, 128);
  }

  /** One rounded-down product of a rounded-down factor and an exact one is less than
      two below the true value. */
  lemma TwoIsEnough(t: int, e: int, m: int, tr: real, x: real)
    requires 0 <= t && 0 <= e < m && t as real <= tr < t as real + 1.0 && x * m as real == tr * e as real
    ensures (t * e / m) as real <= x < (t * e / m) as real + 2.0
  {
    var lower := t * e / m;
    FloorBounds(t * e, m);
    IntProduct(lower, m);
    IntProduct(t, e);
    WithinOne(t as real, tr, e as real, (t * e) as real, tr * e as real);
    LessThanTwo(lower as real, m as real, x, (lower * m) as real, (t * e) as real, e as real, tr * e as real);
  }

  lemma WithinOne(t: real, tr: real, e: real, te: real, tre: real)
    requires t <= tr < t + 1.0 && 0.0 <= e && te == t * e && tre == tr * e
    ensures te <= tre <= te + e
  {
    MulNamed(t, tr, e, te, tre);
    OneMore(t, e, te, t + 1.0);
    MulNamed(tr, t + 1.0, e, tre, te + e);
  }

  lemma FloorBounds(z: int, m: int)
    requires 0 < m
    ensures (z / m * m) as real <= z as real < (z / m * m) as real + m as real
  {
    assert z / m * m <= z < z / m * m + m;
  }

  lemma OneMore(t: real, e: real, te: real, u: real)
    requires te == t * e && u == t + 1.0
    ensures te + e == u * e
  {
  }

  lemma SpreadTwo(l: real, y: real)
    ensures (l + 2.0) * y == l * y + 2.0 * y
  {
  }

  lemma LessThanTwo(l: real, y: real, x: real, ly: real, te: real, e: real, xy: real)
    requires 0.0 < y && ly == l * y && ly <= te < ly + y && xy == x * y && te <= xy <= te + e && e < y
    ensures l <= x < l + 2.0
  {
    var z := (l + 2.0) * y;
    SpreadTwo(l, y);
    OrderNamed(y, l, x, ly, xy);
    OrderNamed(y, x, l + 2.0, xy, z);
  }

  /** The scaled power fills the 256-bit fraction up to at most two leading zeros. */
  ghost predicate Normalized(p: int, e: int) {
    Power(2, 254) <= Scaled(p, e) < Power(2, 256)
  }

  lemma ExactNormalized(p: int)
    requires -8651 < p < 8651
    ensures Power(2, 255) <= Scaled(p, BinaryExponent(p)) < Power(2, 256)
  {
    hide Power;
    var e := BinaryExponent(p);
    BinaryExponentExact(p);
    PowerAdd(2, e - 1, 256 - e);
    PowerAdd(2, e, 256 - e);
    RealOrder(Power(2, 256 - e), Power(2, e - 1), Power(10, p));
    RealOrder(Power(2, 256 - e), Power(10, p), Power(2, e));
  }

  lemma ExtraRange(x: int)
    requires 0 <= x < 56
    ensures Power(2, 127) <= Power(10, x) * Power(2, 128 - BinaryExponent(x)) < Power(2, 128)
  {
    hide Power;
    var ex := BinaryExponent(x);
    ExactNormalized(x);
    PowerAdd(2, 128 - ex, 128);
    PowerAdd(2, 127, 128);
    PowerAdd(2, 128, 128);
    Associate(Power(10, x), Power(2, 128 - ex), Power(2, 128));
    RealOrder(Power(2, 128), Power(2, 127), Power(10, x) * Power(2, 128 - ex));
    RealOrder(Power(2, 128), Power(10, x) * Power(2, 128 - ex), Power(2, 128));
  }

  lemma ProductNormalized(q: int, x: int)
    requires -8651 < q < 8651 && 0 <= x < 56
    ensures Normalized(q + x, BinaryExponent(q) + BinaryExponent(x))
  {
    hide Power, Scaled, BinaryExponent;
    var eq, ex := BinaryExponent(q), BinaryExponent(x);
    ExactNormalized(q);
    ExtraRange(x);
    ProductOfPowers(q, x, eq, ex);
    PowerAdd(2, 254, 128);
    PowerAdd(2, 255, 127);
    ProductInRange(Power(2, 254), Power(2, 255), Power(2, 256), Power(2, 127), Power(2, 128),
                   Scaled(q, eq), Power(10, x) * Power(2, 128 - ex), Scaled(q + x, eq + ex));
  }

  lemma ProductInRange(a: real, b: real, c: real, d: real, e: real, s: real, y: real, z: real)
    requires 0.0 < a && 0.0 < b && 0.0 < d && 0.0 < e && a * e == b * d
    requires z * e == s * y && b <= s < c && d <= y < e
    ensures a <= z < c
  {
    RealProduct(b, s, d, y);
    RealProduct(s, c, y, e);
    OrderNamed(e, a, z, a * e, z * e);
    OrderNamed(e, z, c, z * e, c * e);
  }

  lemma RealProduct(a: real, a': real, b: real, b': real)
    requires 0.0 < a <= a' && 0.0 < b <= b'
    ensures a * b <= a' * b'
    ensures a < a' && b < b' ==> a * b < a' * b'
  {
    RealOrder(b, a, a');
    RealOrder(a', b, b');
  }

  /** The upper end is a true upper bound exactly when the low limb did not wrap. */
  lemma UpperEnd(v: nat, x: real)
    requires v as real <= x < v as real + 2.0
    ensures x <= Bump(v) as real <==> v % B64 < B64 - 2
  {
  }

  /** The lower end for a power outside the exact table. */
  function LowerEnd(p: int, exact: seq<U64>, base: seq<U64>): int
    requires |exact| == 112 && |base| == 716 && -4984 <= p <= 5039
  {
    var i, x := (p + 4984) / 56, (p + 4984) % 56;
    var t := base[4 * i] + B64 * base[4 * i + 1] + B128 * base[4 * i + 2] + B192 * base[4 * i + 3];
    if x > 0 then t * Exact(exact, x) / B128 else t
  }

  /** The least significant limb never wraps: a property of the literal tables. */
  ghost predicate NeverWraps(exact: seq<U64>, base: seq<U64>) {
    && |exact| == 112 && |base| == 716
    && forall p | -4984 <= p <= 5039 && !(0 <= p <= 55) :: LowerEnd(p, exact, base) % B64 < B64 - 2
  }

  /** Both ends of the interval around ten to the `p`, and their binary exponent. */
  function LowerPower(p: int, exact: seq<U64>, base: seq<U64>): int
    requires |exact| == 112 && |base| == 716 && -4984 <= p <= 5039
  {
    if 0 <= p <= 55 then B128 * Exact(exact, p) else LowerEnd(p, exact, base)
  }

  function UpperPower(p: int, exact: seq<U64>, base: seq<U64>): int
    requires |exact| == 112 && |base| == 716 && -4984 <= p <= 5039
  {
    if 0 <= p <= 55 then B128 * Exact(exact, p) else Bump(LowerEnd(p, exact, base))
  }

  function PowerExponent(p: int): int {
    var x := (p + 4984) % 56;
    if 0 <= p <= 55 then BinaryExponent(p)
    else BinaryExponent(p - x) + if x > 0 then BinaryExponent(x) else 0
  }

  /** What the interval promises for a power outside the exact table. */
  ghost predicate Encloses(p: int, exact: seq<U64>, base: seq<U64>, v: int, e: int)
    requires |exact| == 112 && |base| == 716 && -4984 <= p <= 5039
  {
    v == LowerEnd(p, exact, base) && v as real <= Scaled(p, e) < v as real + 2.0 && Normalized(p, e)
  }

  /** `intervalContainingPowerOf10_Binary128`. */
  method Interval(p: int, exact: seq<U64>, base: seq<U64>)
    returns (lower: Fixed256, upper: Fixed256, exponent: int)
    requires ExactTable(exact) && FloorTable(base) && -4984 <= p <= 5039
    ensures fresh(lower) && fresh(upper) && lower != upper && exponent == PowerExponent(p)
    ensures lower.Value() == LowerPower(p, exact, base) && upper.Value() == UpperPower(p, exact, base)
    ensures Normalized(p, exponent)
    ensures 0 <= p <= 55 ==> lower.Value() as real == Scaled(p, exponent) && upper.Value() == lower.Value()
    ensures !(0 <= p <= 55) ==> && lower.Value() == LowerEnd(p, exact, base)
                                && lower.Value() as real <= Scaled(p, exponent) < lower.Value() as real + 2.0
                                && upper.Value() == Bump(lower.Value())
  {
    hide Fixed256.Value, Scaled, IsFloor, IsExact, BinaryExponent, LowerEnd, Exact, Normalized;
    if 0 <= p <= 55 {
      lower := new Fixed256(exact[2 * p + 1], exact[2 * p], 0, 0);
      upper := new Fixed256.Copy(lower);
      exponent := BinaryExponent(p);
      ExactCase(p, exact);
      return;
    }
    var index := p + 4984;
    var i := index / 56;
    lower := new Fixed256(base[4 * i + 3], base[4 * i + 2], base[4 * i + 1], base[4 * i]);
    var extraPower := index % 56;
    exponent := BinaryExponent(p - extraPower);
    TableCase(p, i, extraPower, exact, base, lower.Value());
    if extraPower > 0 {
      lower.MultiplyDown(Exact(exact, extraPower));
      exponent := exponent + BinaryExponent(extraPower);
    }
    assert Encloses(p, exact, base, lower.Value(), exponent);
    upper := new Fixed256.Copy(lower);
    upper.BumpLow();
  }

  /** Both ends are within two of the power, on either side of it. */
  lemma PowerEnds(p: int, exact: seq<U64>, base: seq<U64>)
    requires ExactTable(exact) && FloorTable(base) && NeverWraps(exact, base) && -4984 <= p <= 5039
    ensures var x := Scaled(p, PowerExponent(p)); var v := LowerPower(p, exact, base); var w := UpperPower(p, exact, base);
      Normalized(p, PowerExponent(p)) && 0 <= v && 0 <= w
      && v as real <= x < v as real + 2.0 && x <= w as real <= x + 2.0
  {
    hide Scaled, IsFloor, IsExact, BinaryExponent, LowerEnd, Exact, Normalized;
    if 0 <= p <= 55 {
      ExactCase(p, exact);
    } else {
      var i, x := (p + 4984) / 56, (p + 4984) % 56;
      TableCase(p, i, x, exact, base, Join(base[4 * i], base[4 * i + 1], base[4 * i + 2], base[4 * i + 3]));
      assert LowerEnd(p, exact, base) % B64 < B64 - 2;
      LowerEndNatural(p, exact, base);
      UpperEnd(LowerEnd(p, exact, base), Scaled(p, PowerExponent(p)));
    }
  }

  lemma LowerEndNatural(p: int, exact: seq<U64>, base: seq<U64>)
    requires |exact| == 112 && |base| == 716 && -4984 <= p <= 5039
    ensures 0 <= LowerEnd(p, exact, base) && 0 <= Bump(LowerEnd(p, exact, base))
  {
    var i, x := (p + 4984) / 56, (p + 4984) % 56;
    var t := base[4 * i] + B64 * base[4 * i + 1] + B128 * base[4 * i + 2] + B192 * base[4 * i + 3];
    MulMonotone(0, 0, t, Exact(exact, x));
  }

  lemma ExactCase(p: int, exact: seq<U64>)
    requires ExactTable(exact) && 0 <= p < 56
    ensures (B128 * Exact(exact, p)) as real == Scaled(p, BinaryExponent(p))
    ensures Join(0, 0, exact[2 * p], exact[2 * p + 1]) == B128 * Exact(exact, p)
    ensures Normalized(p, BinaryExponent(p))
  {
    hide Power;
    var e := BinaryExponent(p);
    assert IsExact(exact, p);
    ExactNormalized(p);
    TwoTo128();
    PowerAdd(2, 128 - e, 128);
    Associate(Power(10, p), Power(2, 128 - e), Power(2, 128));
    PowerAdd(2, 254, 1);
    PowerZero(2);
  }

  lemma TableCase(p: int, i: int, x: int, exact: seq<U64>, base: seq<U64>, t: int)
    requires ExactTable(exact) && FloorTable(base) && 0 <= i < 179 && 0 <= x < 56 && p == 56 * i - 4984 + x
    requires t == Join(base[4 * i], base[4 * i + 1], base[4 * i + 2], base[4 * i + 3])
    ensures var q := p - x;
            var e := BinaryExponent(q) + (if x > 0 then BinaryExponent(x) else 0);
            var v := if x > 0 then t * Exact(exact, x) / B128 else t;
            Encloses(p, exact, base, v, e)
  {
    hide Power, Scaled, BinaryExponent, LowerEnd;
    var q := p - x;
    assert IsFloor(base, i);
    LowerEndIs(p, i, x, exact, base);
    if x > 0 {
      assert IsExact(exact, x);
      hide Exact, IsFloor, IsExact, Normalized, Join;
      ProductNormalized(q, x);
      ProductOfPowers(q, x, BinaryExponent(q), BinaryExponent(x));
      TwoTo128();
      TwoIsEnough(t, Exact(exact, x), B128, Scaled(q, BinaryExponent(q)), Scaled(p, BinaryExponent(q) + BinaryExponent(x)));
    } else {
      ExactNormalized(q);
      PowerAdd(2, 254, 1);
      PowerZero(2);
    }
  }

  lemma LowerEndIs(p: int, i: int, x: int, exact: seq<U64>, base: seq<U64>)
    requires |exact| == 112 && |base| == 716 && 0 <= i < 179 && 0 <= x < 56 && p == 56 * i - 4984 + x
    ensures var t := Join(base[4 * i], base[4 * i + 1], base[4 * i + 2], base[4 * i + 3]);
      LowerEnd(p, exact, base) == if x > 0 then t * Exact(exact, x) / B128 else t
  {
    QuotientUnique(p + 4984, 56, i, x);
  }
}
