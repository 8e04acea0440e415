/** Two rational bounds on the logarithm of two, 4647/15437 below and 4004/13301
    above. They are neighbours (their cross product differs by one), so they decide
    the integer part of every multiple of it up to 28737. */
module Logarithms {
  import opened Powers

  lemma {:induction false} PowMultiply(b: nat, m: nat, n: nat)
    ensures Pow(Pow(b, m), n) == Pow(b, m * n)
    decreases n
  {
    if n != 0 {
      PowMultiply(b, m, n - 1);
      assert m + m * (n - 1) == m * n;
      PowAdd(b, m, m * (n - 1));
    } else {
      assert m * n == 0;
    }
  }

  lemma {:induction false} PowBase(a: nat, b: nat, n: nat)
    ensures a <= b ==> Pow(a, n) <= Pow(b, n)
    ensures a < b && 0 < n ==> Pow(a, n) < Pow(b, n)
    decreases n
  {
    if n != 0 {
      PowBase(a, b, n - 1);
      if a < b {
        MulMonotone(a, Pow(a, n - 1), a, Pow(b, n - 1));
        MulOrder(Pow(b, n - 1), a, b);
        assert a * Pow(b, n - 1) < b * Pow(b, n - 1);
      }
    }
  }

  const S: nat := 1_000_000_000_000_000_000

  /** Two to the `q` is at most `hi / S` times ten to the `p`. */
  ghost predicate Above(q: nat, p: nat, hi: nat) { Pow(2, q) * S <= hi * Pow(10, p) }

  ghost predicate Below(q: nat, p: nat, lo: nat) { lo * Pow(10, p) <= Pow(2, q) * S }

  function Step(shift: nat): nat { if shift == 0 then 1 else if shift == 1 then 10 else 100 }

  lemma DoublePowers(q: nat, p: nat, bit: nat, shift: nat)
    requires bit < 2 && shift < 3
    ensures Pow(2, 2 * q + bit) == Pow(2, q) * Pow(2, q) * (1 + bit)
    ensures Pow(10, 2 * p + shift) == Pow(10, p) * Pow(10, p) * Step(shift)
  {
    assert Pow(2, 0) == 1 && Pow(2, 1) == 2 && Pow(10, 0) == 1 && Pow(10, 1) == 10 && Pow(10, 2) == 100;
    PowAdd(2, q, q);
    PowAdd(2, q + q, bit);
    PowAdd(10, p, p);
    PowAdd(10, p + p, shift);
  }

  lemma SquareBound(x: nat, y: nat, a: nat, b: nat, m: nat, z: nat, b': nat)
    requires x * S <= a * y && b == a * a * m && b <= b' * S * z
    ensures x * x * m * S <= b' * (y * y * z)
  {
    MulMonotone(x * S, x * S, a * y, a * y);
    assert (x * S) * (x * S) == x * x * S * S;
    assert (a * y) * (a * y) == (a * a) * (y * y);
    MulMonotone(x * x * S * S, m, (a * a) * (y * y), m);
    assert (a * a) * (y * y) * m == (a * a * m) * (y * y);
    MulMonotone(a * a * m, y * y, b' * S * z, y * y);
    assert (b' * S * z) * (y * y) == S * (b' * (y * y * z));
    assert x * x * S * S * m == S * (x * x * m * S);
    MulOrder(S, b' * (y * y * z), x * x * m * S);
  }

  lemma SquareBoundBelow(x: nat, y: nat, a: nat, b: nat, m: nat, z: nat, b': nat)
    requires a * y <= x * S && b == a * a * m && b' * S * z <= b
    ensures b' * (y * y * z) <= x * x * m * S
  {
    MulMonotone(a * y, a * y, x * S, x * S);
    assert (x * S) * (x * S) == x * x * S * S;
    assert (a * y) * (a * y) == (a * a) * (y * y);
    MulMonotone((a * a) * (y * y), m, x * x * S * S, m);
    assert (a * a) * (y * y) * m == (a * a * m) * (y * y);
    MulMonotone(b' * S * z, y * y, a * a * m, y * y);
    assert (b' * S * z) * (y * y) == S * (b' * (y * y * z));
    assert x * x * S * S * m == S * (x * x * m * S);
    MulOrder(S, x * x * m * S, b' * (y * y * z));
  }

  lemma DoubleAbove(q: nat, p: nat, hi: nat, bit: nat, shift: nat, hi': nat)
    requires Above(q, p, hi) && bit < 2 && shift < 3
    requires hi * hi * (1 + bit) <= hi' * S * Step(shift)
    ensures Above(2 * q + bit, 2 * p + shift, hi')
  {
    DoublePowers(q, p, bit, shift);
    SquareBound(Pow(2, q), Pow(10, p), hi, hi * hi * (1 + bit), 1 + bit, Step(shift), hi');
  }

  lemma DoubleBelow(q: nat, p: nat, lo: nat, bit: nat, shift: nat, lo': nat)
    requires Below(q, p, lo) && bit < 2 && shift < 3
    requires lo' * S * Step(shift) <= lo * lo * (1 + bit)
    ensures Below(2 * q + bit, 2 * p + shift, lo')
  {
    DoublePowers(q, p, bit, shift);
    SquareBoundBelow(Pow(2, q), Pow(10, p), lo, lo * lo * (1 + bit), 1 + bit, Step(shift), lo');
  }

  lemma Start()
    ensures Above(1, 0, 2 * S) && Below(1, 0, 2 * S)
  {
    assert Pow(2, 1) == 2 && Pow(10, 0) == 1;
  }

  lemma CancelScale(x: nat, y: nat, lo: nat)
    requires 0 < y && lo * y <= x * S && S < lo
    ensures y < x
  {
    MulOrder(y, S, lo);
    MulOrder(S, y, x);
  }

  lemma CancelScaleAbove(x: nat, y: nat, hi: nat)
    requires 0 < y && x * S <= hi * y && hi < 10 * S
    ensures x < 10 * y
  {
    MulOrder(y, hi, 10 * S);
    MulOrder(S, x, 10 * y);
  }

  lemma FinishAbove(q: nat, p: nat, hi: nat)
    requires Above(q, p, hi) && hi < 10 * S
    ensures Pow(2, q) < Pow(10, p + 1)
  {
    CancelScaleAbove(Pow(2, q), Pow(10, p), hi);
  }

  lemma FinishBelow(q: nat, p: nat, lo: nat)
    requires Below(q, p, lo) && S < lo
    ensures Pow(10, p) < Pow(2, q)
  {
    CancelScale(Pow(2, q), Pow(10, p), lo);
  }

  /** Both bounds keep a distance from the logarithm: raised to the `q`, a factor of one part
      in `GAP` fits between the powers. */
  const GAP: nat := 0x4000_0000

  lemma GapAbove(q: nat, p: nat, hi: nat)
    requires Above(q, p, hi) && hi * (GAP + 2 * q) <= 10 * S * GAP
    ensures Pow(2, q) * (GAP + 2 * q) <= Pow(10, p + 1) * GAP
  {
    GapAboveNamed(Pow(2, q), Pow(10, p), hi, GAP + 2 * q);
    assert Pow(10, p + 1) == 10 * Pow(10, p);
  }

  lemma GapAboveNamed(x: nat, y: nat, hi: nat, g: nat)
    requires x * S <= hi * y && hi * g <= 10 * S * GAP
    ensures x * g <= 10 * y * GAP
  {
    MulMonotone(x * S, g, hi * y, g);
    MulMonotone(hi * g, y, 10 * S * GAP, y);
    assert x * S * g == S * (x * g) && hi * y * g == hi * g * y && 10 * S * GAP * y == S * (10 * y * GAP);
    MulOrder(S, 10 * y * GAP, x * g);
  }

  lemma GapBelow(q: nat, p: nat, lo: nat)
    requires Below(q, p, lo) && S * (GAP + 2 * q) <= lo * GAP
    ensures Pow(10, p) * (GAP + 2 * q) <= Pow(2, q) * GAP
  {
    GapBelowNamed(Pow(2, q), Pow(10, p), lo, GAP + 2 * q);
  }

  lemma GapBelowNamed(x: nat, y: nat, lo: nat, g: nat)
    requires lo * y <= x * S && S * g <= lo * GAP
    ensures y * g <= x * GAP
  {
    MulMonotone(S * g, y, lo * GAP, y);
    MulMonotone(lo * y, GAP, x * S, GAP);
    assert S * g * y == S * (y * g) && lo * GAP * y == lo * y * GAP && x * S * GAP == S * (x * GAP);
    MulOrder(S, x * GAP, y * g);
  }

  /** The upper bound on the logarithm, by repeated squaring with directed rounding. */
  lemma UpperBound(q: nat, p: nat)
    requires q == 13301 && p == 4004
    ensures Pow(2, q) < Pow(10, p)
    ensures Pow(2, q) * (GAP + 2 * q) <= Pow(10, p) * GAP
  {
    hide Pow, Above;
    Start();
    DoubleAbove(1, 0, 2_000_000_000_000_000_000, 1, 0, 8_000_000_000_000_000_000);
    DoubleAbove(3, 0, 8_000_000_000_000_000_000, 0, 1, 6_400_000_000_000_000_000);
    DoubleAbove(6, 1, 6_400_000_000_000_000_000, 0, 1, 4_096_000_000_000_000_000);
    DoubleAbove(12, 3, 4_096_000_000_000_000_000, 1, 1, 3_355_443_200_000_000_000);
    DoubleAbove(25, 7, 3_355_443_200_000_000_000, 1, 1, 2_251_799_813_685_248_000);
    DoubleAbove(51, 15, 2_251_799_813_685_248_000, 1, 1, 1_014_120_480_182_583_522);
    DoubleAbove(103, 31, 1_014_120_480_182_583_522, 1, 0, 2_056_880_696_651_507_556);
    DoubleAbove(207, 62, 2_056_880_696_651_507_556, 1, 0, 8_461_516_400_515_182_094);
    DoubleAbove(415, 124, 8_461_516_400_515_182_094, 1, 2, 1_431_945_195_923_748_070);
    DoubleAbove(831, 250, 1_431_945_195_923_748_070, 0, 0, 2_050_467_044_129_101_247);
    DoubleAbove(1662, 500, 2_050_467_044_129_101_247, 1, 0, 8_408_830_198_119_067_282);
    DoubleAbove(3325, 1000, 8_408_830_198_119_067_282, 0, 1, 7_070_842_530_079_915_232);
    DoubleAbove(6650, 2001, 7_070_842_530_079_915_232, 1, 1, 9_999_362_817_037_387_389);
    FinishAbove(q, p - 1, 9_999_362_817_037_387_389);
    GapAbove(q, p - 1, 9_999_362_817_037_387_389);
  }

  lemma LowerBound(q: nat, p: nat)
    requires q == 15437 && p == 4647
    ensures Pow(10, p) < Pow(2, q)
    ensures Pow(10, p) * (GAP + 2 * q) <= Pow(2, q) * GAP
  {
    hide Pow, Below;
    Start();
    DoubleBelow(1, 0, 2_000_000_000_000_000_000, 1, 0, 8_000_000_000_000_000_000);
    DoubleBelow(3, 0, 8_000_000_000_000_000_000, 1, 2, 1_280_000_000_000_000_000);
    DoubleBelow(7, 2, 1_280_000_000_000_000_000, 1, 0, 3_276_800_000_000_000_000);
    DoubleBelow(15, 4, 3_276_800_000_000_000_000, 0, 1, 1_073_741_824_000_000_000);
    DoubleBelow(30, 9, 1_073_741_824_000_000_000, 0, 0, 1_152_921_504_606_846_976);
    DoubleBelow(60, 18, 1_152_921_504_606_846_976, 0, 0, 1_329_227_995_784_915_872);
    DoubleBelow(120, 36, 1_329_227_995_784_915_872, 1, 0, 3_533_694_129_556_768_654);
    DoubleBelow(241, 72, 3_533_694_129_556_768_654, 0, 1, 1_248_699_420_126_396_888);
    DoubleBelow(482, 145, 1_248_699_420_126_396_888, 0, 0, 1_559_250_241_823_999_841);
    DoubleBelow(964, 290, 1_559_250_241_823_999_841, 1, 0, 4_862_522_633_256_403_966);
    DoubleBelow(1929, 580, 4_862_522_633_256_403_966, 1, 1, 4_728_825_271_786_158_572);
    DoubleBelow(3859, 1161, 4_728_825_271_786_158_572, 0, 1, 2_236_178_845_108_343_648);
    DoubleBelow(7718, 2323, 2_236_178_845_108_343_648, 1, 1, 1_000_099_165_462_017_114);
    FinishBelow(q, p, 1_000_099_165_462_017_114);
    GapBelow(q, p, 1_000_099_165_462_017_114);
  }

  /** Two to the 16445 in units of ten to the 4950: the scale of the smallest numbers that
      are printed. */
  lemma SmallestScale(q: nat, p: nat)
    requires q == 16445 && p == 4950
    ensures 27433 * Pow(10, p) <= Pow(2, q) * 10000 <= 27434 * Pow(10, p)
  {
    hide Pow, Below, Above;
    SmallestBelow(q, p);
    SmallestAbove(q, p);
    RoundOut(q, p, 2_743_334_051_410_826_869, 2_743_334_051_410_827_554);
  }

  lemma SmallestBelow(q: nat, p: nat)
    requires q == 16445 && p == 4950
    ensures Below(q, p, 2_743_334_051_410_826_869)
  {
    hide Pow, Below;
    Start();
    DoubleBelow(1, 0, 2_000_000_000_000_000_000, 0, 0, 4_000_000_000_000_000_000);
    DoubleBelow(2, 0, 4_000_000_000_000_000_000, 0, 1, 1_600_000_000_000_000_000);
    DoubleBelow(4, 1, 1_600_000_000_000_000_000, 0, 0, 2_560_000_000_000_000_000);
    DoubleBelow(8, 2, 2_560_000_000_000_000_000, 0, 0, 6_553_600_000_000_000_000);
    DoubleBelow(16, 4, 6_553_600_000_000_000_000, 0, 1, 4_294_967_296_000_000_000);
    DoubleBelow(32, 9, 4_294_967_296_000_000_000, 0, 1, 1_844_674_407_370_955_161);
    DoubleBelow(64, 19, 1_844_674_407_370_955_161, 0, 0, 3_402_823_669_209_384_632);
    DoubleBelow(128, 38, 3_402_823_669_209_384_632, 0, 1, 1_157_920_892_373_161_952);
    DoubleBelow(256, 77, 1_157_920_892_373_161_952, 1, 0, 2_681_561_585_988_519_409);
    DoubleBelow(513, 154, 2_681_561_585_988_519_409, 1, 1, 1_438_154_507_889_852_714);
    DoubleBelow(1027, 309, 1_438_154_507_889_852_714, 1, 0, 4_136_576_777_127_808_864);
    DoubleBelow(2055, 618, 4_136_576_777_127_808_864, 1, 1, 3_422_253_486_614_618_017);
    DoubleBelow(4111, 1237, 3_422_253_486_614_618_017, 0, 1, 1_171_181_892_664_590_949);
    DoubleBelow(8222, 2475, 1_171_181_892_664_590_949, 1, 0, 2_743_334_051_410_826_869);
  }

  lemma SmallestAbove(q: nat, p: nat)
    requires q == 16445 && p == 4950
    ensures Above(q, p, 2_743_334_051_410_827_554)
  {
    hide Pow, Above;
    Start();
    DoubleAbove(1, 0, 2_000_000_000_000_000_000, 0, 0, 4_000_000_000_000_000_000);
    DoubleAbove(2, 0, 4_000_000_000_000_000_000, 0, 1, 1_600_000_000_000_000_000);
    DoubleAbove(4, 1, 1_600_000_000_000_000_000, 0, 0, 2_560_000_000_000_000_000);
    DoubleAbove(8, 2, 2_560_000_000_000_000_000, 0, 0, 6_553_600_000_000_000_000);
    DoubleAbove(16, 4, 6_553_600_000_000_000_000, 0, 1, 4_294_967_296_000_000_000);
    DoubleAbove(32, 9, 4_294_967_296_000_000_000, 0, 1, 1_844_674_407_370_955_162);
    DoubleAbove(64, 19, 1_844_674_407_370_955_162, 0, 0, 3_402_823_669_209_384_637);
    DoubleAbove(128, 38, 3_402_823_669_209_384_637, 0, 1, 1_157_920_892_373_161_956);
    DoubleAbove(256, 77, 1_157_920_892_373_161_956, 1, 0, 2_681_561_585_988_519_429);
    DoubleAbove(513, 154, 2_681_561_585_988_519_429, 1, 1, 1_438_154_507_889_852_736);
    DoubleAbove(1027, 309, 1_438_154_507_889_852_736, 1, 0, 4_136_576_777_127_808_991);
    DoubleAbove(2055, 618, 4_136_576_777_127_808_991, 1, 1, 3_422_253_486_614_618_228);
    DoubleAbove(4111, 1237, 3_422_253_486_614_618_228, 0, 1, 1_171_181_892_664_591_095);
    DoubleAbove(8222, 2475, 1_171_181_892_664_591_095, 1, 0, 2_743_334_051_410_827_554);
  }

  lemma RoundOut(q: nat, p: nat, lo: nat, hi: nat)
    requires Below(q, p, lo) && Above(q, p, hi) && 27433 * S <= lo * 10000 && hi * 10000 <= 27434 * S
    ensures 27433 * Pow(10, p) <= Pow(2, q) * 10000 <= 27434 * Pow(10, p)
  {
    RoundOutNamed(Pow(2, q), Pow(10, p), lo, hi);
  }

  lemma RoundOutNamed(x: nat, y: nat, lo: nat, hi: nat)
    requires lo * y <= x * S <= hi * y && 27433 * S <= lo * 10000 && hi * 10000 <= 27434 * S
    ensures 27433 * y <= x * 10000 <= 27434 * y
  {
    MulMonotone(27433 * S, y, lo * 10000, y);
    MulMonotone(hi * 10000, y, 27434 * S, y);
    assert lo * 10000 * y == lo * y * 10000 && hi * 10000 * y == hi * y * 10000;
    MulOrder(S, x * 10000, 27433 * y);
    MulOrder(S, 27434 * y, x * 10000);
  }
}
