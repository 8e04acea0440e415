/** The interval around a power of ten that binary64 uses, from a table of every 28th
    power. The literal tables are parameters; what is assumed of them is stated. */
module PowerOfTen64 {
  import opened Powers
  import opened RealPowers
  import opened Wide
  import opened Exponents
  import opened PowerOfTen
  import Product128

  /** Ten to the `p` as a 128-bit fraction with binary exponent `e`. */
  ghost function Scaled64(p: int, e: int): real { Power(10, p) * Power(2, 128 - e) }

  /** `powersOf10_Binary64`: entry `i` is ten to the `28i - 400`, rounded down. */
  ghost predicate FloorTable64(tab: seq<U64>) {
    |tab| == 58 && forall i | 0 <= i < 29 :: IsFloor64(tab, i)
  }

  ghost predicate IsFloor64(tab: seq<U64>, i: int)
    requires |tab| == 58 && 0 <= i < 29
  {
    var v, q := tab[2 * i] + B64 * tab[2 * i + 1], 28 * i - 400;
    v as real <= Scaled64(q, BinaryExponent(q)) < v as real + 1.0
  }

  /** The upper half of the entry for a small power is all of it. */
  lemma HighHalfExact(exact: seq<U64>, x: int)
    requires ExactTable(exact) && 0 <= x < 28
    ensures exact[2 * x] == 0 && exact[2 * x + 1] as real == Power(10, x) * Power(2, 64 - BinaryExponent(x))
  {
    hide Power, Pow, BinaryExponent, Exact;
    var e := BinaryExponent(x);
    SmallExponent(x);
    assert IsExact(exact, x);
    Multiple64(x, x + 64 - e, e);
    MoveUnit(x, e);
    var k := Pow(5, x) * Pow(2, x + 64 - e);
    assert Exact(exact, x) == k * B64;
    HighHalf(exact, x, k, Power(10, x) * Power(2, 64 - e));
  }

  lemma MoveUnit(x: int, e: int)
    ensures Power(10, x) * Power(2, 128 - e) == Power(10, x) * Power(2, 64 - e) * B64 as real
  {
    hide Power, Pow;
    PowersOfTwo();
    PowerAdd(2, 64 - e, 64);
    PowerOfNat(2, 64);
    Associate(Power(10, x), Power(2, 64 - e), Power(2, 64));
  }

  lemma SmallExponent(x: int)
    requires 0 <= x < 28
    ensures 0 <= x + 64 - BinaryExponent(x) <= 128 - BinaryExponent(x)
  {
  }

  lemma HighHalf(exact: seq<U64>, x: int, k: int, y: real)
    requires |exact| == 112 && 0 <= x < 56 && Exact(exact, x) == k * B64 && (k * B64) as real == y * B64 as real
    ensures exact[2 * x] == 0 && exact[2 * x + 1] as real == y
  {
    var low, high := exact[2 * x], exact[2 * x + 1];
    QuotientUnique(k * B64, B64, high, low);
    QuotientUnique(k * B64, B64, k, 0);
    CancelRight(high as real, y, B64 as real);
  }

  lemma Multiple64(x: nat, j: nat, e: int)
    requires j == x + 64 - e && 0 <= 128 - e
    ensures Power(10, x) * Power(2, 128 - e) == (Pow(5, x) * Pow(2, j) * B64) as real
  {
    hide Pow, Power;
    TenIsFiveTwo(x);
    PowersOfTwo();
    PowAdd(2, x, 128 - e);
    PowAdd(2, j, 64);
    assert x + (128 - e) == j + 64;
    PowerOfNat(10, x);
    PowerOfNat(2, 128 - e);
    MoveTwos(Pow(5, x), Pow(2, x), Pow(2, 128 - e), Pow(2, j));
  }

  lemma TenIsFiveTwo(x: nat)
    ensures Pow(10, x) == Pow(5, x) * Pow(2, x)
  {
    PowProduct(5, 2, x);
  }

  lemma MoveTwos(f: nat, t: nat, y: nat, z: nat)
    requires t * y == z * B64
    ensures (f * t) as real * y as real == (f * z * B64) as real
  {
    assert f * t * y == f * (t * y) && f * z * B64 == f * (z * B64);
    IntProduct(f * t, y);
  }

  lemma ProductOfPowers64(q: int, x: int, eq: int, ex: int)
    ensures Scaled64(q + x, eq + ex) * Power(2, 64) == Scaled64(q, eq) * (Power(10, x) * Power(2, 64 - ex))
  {
    hide Power;
    PowerAdd(10, q, x);
    PowerAdd(2, 128 - (eq + ex), 64);
    PowerAdd(2, 128 - eq, 64 - ex);
    assert 128 - (eq + ex) + 64 == 128 - eq + (64 - ex);
    Shuffle(Power(10, q), Power(10, x), Power(2, 128 - (eq + ex)), Power(2, 64), Power(2, 128 - eq), Power(2, 64 - ex));
  }

  /** What is added to the lower end: one where the table is used as it is, else two. */
  function Slack(p: int): int { if (p + 400) % 28 == 0 then 1 else 2 }

  lemma SlackCases(p: int)
    ensures Slack(p) == if (p + 400) % 28 == 0 then 1 else 2
  {
  }

  /** Adding to the low limb of `m` values gives an upper end exactly if it does not wrap. */
  lemma UpperEnd64(v: nat, x: real, d: int, m: int)
    requires 0 < d < m && v as real <= x < (v + d) as real
    ensures x <= (v - v % m + (v % m + d) % m) as real <==> v % m + d < m
  {
    if v % m + d < m {
      QuotientUnique(v % m + d, m, 0, v % m + d);
    } else {
      QuotientUnique(v % m + d, m, 1, v % m + d - m);
    }
  }

  /** The power lies less than `d` above `v`. */
  ghost predicate Encloses64(p: int, v: int, e: int, d: int) {
    v as real <= Scaled64(p, e) < (v + d) as real
  }

  lemma WholeUpperEnd(p: int, v: U128, e: int, d: int)
    requires 0 < d < B128 && Encloses64(p, v, e, d)
    ensures v as real <= Scaled64(p, e) < (v + d) as real
    ensures Scaled64(p, e) <= ((v + d) % B128) as real <==> v + d < B128
  {
    UpperEnd64(v, Scaled64(p, e), d, B128);
    QuotientUnique(v, B128, 0, v);
  }

  /** `intervalContainingPowerOf10_Binary64`. */
  method Interval64(p: int, exact: seq<U64>, base: seq<U64>) returns (lower: int, upper: int, exponent: int)
    requires ExactTable(exact) && FloorTable64(base) && -400 <= p < 412
    ensures 0 <= p <= 55 ==> lower as real == Scaled64(p, exponent) && upper == lower
    ensures !(0 <= p <= 55) ==> && lower as real <= Scaled64(p, exponent) < (lower + Slack(p)) as real
                                && upper == (lower + Slack(p)) % B128 && 0 <= lower < B128
    ensures lower as real <= Scaled64(p, exponent)
    ensures Scaled64(p, exponent) <= upper as real <==> 0 <= p <= 55 || lower + Slack(p) < B128
  {
    hide Power, Scaled64, IsFloor64, IsExact, BinaryExponent, Exact, Encloses64, Product128.MultiplyDown, Slack;
    SlackCases(p);
    if 0 <= p <= 55 {
      assert IsExact(exact, p);
      ExactIs(exact, p);
      lower := Exact(exact, p);
      upper := lower;
      exponent := BinaryExponent(p);
      return;
    }
    var index := p + 400;
    var mainPower := index / 28;
    var base_: U128 := base[2 * mainPower] + B64 * base[2 * mainPower + 1];
    var extraPower := index - mainPower * 28;
    assert extraPower == index % 28;
    exponent := BinaryExponent(p - extraPower);
    TableCase64(p, mainPower, extraPower, exact, base, base_);
    if extraPower == 0 {
      lower := base_;
      upper := (lower + 1) % B128;
    } else {
      var extra := exact[extraPower * 2 + 1];
      exponent := exponent + BinaryExponent(extraPower);
      lower := Product128.MultiplyDown(base_, extra);
      upper := (lower + 2) % B128;
    }
    WholeUpperEnd(p, lower, exponent, Slack(p));
  }

  lemma ExactIs(exact: seq<U64>, p: int)
    requires |exact| == 112 && 0 <= p < 56 && IsExact(exact, p)
    ensures Exact(exact, p) as real == Scaled64(p, BinaryExponent(p))
  {
  }

  lemma TableCase64(p: int, i: int, x: int, exact: seq<U64>, base: seq<U64>, t: U128)
    requires ExactTable(exact) && FloorTable64(base) && 0 <= i < 29 && 0 <= x < 28 && p == 28 * i - 400 + x
    requires t == base[2 * i] + B64 * base[2 * i + 1]
    ensures x == 0 ==> Encloses64(p, t, BinaryExponent(p - x), 1)
    ensures x > 0 ==> Encloses64(p, Product128.MultiplyDown(t, exact[2 * x + 1]), BinaryExponent(p - x) + BinaryExponent(x), 2)
  {
    hide Power, Scaled64, BinaryExponent, Product128.MultiplyDown;
    assert IsFloor64(base, i);
    if x > 0 {
      HighHalfExact(exact, x);
      ProductOfPowers64(p - x, x, BinaryExponent(p - x), BinaryExponent(x));
      PowersOfTwo();
      PowerOfNat(2, 64);
      TwoIsEnough(t, exact[2 * x + 1], B64, Scaled64(p - x, BinaryExponent(p - x)),
        Scaled64(p, BinaryExponent(p - x) + BinaryExponent(x)));
    }
  }
}
