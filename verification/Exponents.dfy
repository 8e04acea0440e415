/** The two linear estimates of exponents, shown to be exact logarithms over the
    whole range of binary128. */
module Exponents {
  import opened Powers
  import opened RealPowers
  import opened Logarithms

  /** An arithmetic right shift: division rounding towards minus infinity. */
  function ShiftRight(x: int, d: int): int
    requires 0 < d
  {
    x / d
  }

  /** `decimalExponentFor2ToThe`. */
  function DecimalExponent(e: int): int { ShiftRight(e * 20201781, 0x400_0000) }

  /** `binaryExponentFor10ToThe`. */
  function BinaryExponent(p: int): int { ShiftRight(p * 55732705, 0x100_0000) + 1 }

  /** If `m / f` is at most the lower bound, ten to the `m` is below two to the `f`. */
  lemma TenBelowTwo(m: nat, f: nat)
    requires 0 < f && m * 15437 <= f * 4647
    ensures Pow(10, m) < Pow(2, f)
  {
    hide Pow;
    LowerBound(15437, 4647);
    ComparePowers(10, m, 4647, 2, f, 15437, m * 15437, 4647 * f, 15437 * f);
  }

  lemma TwoBelowTen(f: nat, m: nat)
    requires 0 < f && f * 4004 <= m * 13301
    ensures Pow(2, f) < Pow(10, m)
  {
    hide Pow;
    UpperBound(13301, 4004);
    ComparePowersUp(2, f, 13301, 10, m, 4004, 4004 * f, m * 13301, 13301 * f);
  }

  predicate IsProduct(k: nat, m: nat, n: nat) { k == m * n }

  lemma PowPow(b: nat, m: nat, n: nat, k: nat)
    requires IsProduct(k, m, n)
    ensures Pow(Pow(b, m), n) == Pow(b, k) == Pow(Pow(b, n), m)
  {
    hide Pow;
    PowMultiply(b, m, n);
    PowMultiply(b, n, m);
    assert n * m == m * n;
  }

  /** From `a^p < b^q` and `m / f <= p / q` to `a^m < b^f`. */
  lemma ComparePowers(a: nat, m: nat, p: nat, b: nat, f: nat, q: nat, mq: nat, pf: nat, qf: nat)
    requires IsProduct(mq, m, q) && IsProduct(pf, p, f) && IsProduct(qf, q, f)
    requires 0 < a && 0 < f && 0 < q && mq <= pf && Pow(a, p) < Pow(b, q)
    ensures Pow(a, m) < Pow(b, f)
  {
    hide Pow, IsProduct;
    PowPow(a, m, q, mq);
    PowPow(a, p, f, pf);
    PowPow(b, q, f, qf);
    CompareRoots(Pow(a, m), Pow(b, f), q, Pow(a, p), Pow(b, q), f, a, mq, pf);
  }

  lemma CompareRoots(x: nat, y: nat, q: nat, v: nat, w: nat, f: nat, a: nat, mq: nat, pf: nat)
    requires 0 < a && 0 < f && 0 < q && mq <= pf && v < w
    requires Pow(x, q) == Pow(a, mq) && Pow(v, f) == Pow(a, pf) && Pow(w, f) == Pow(y, q)
    ensures x < y
  {
    hide Pow;
    PowMonotone(a, mq, pf);
    PowBase(v, w, f);
    PowBase(y, x, q);
  }

  /** From `a^q < b^p` and `f / m <= q / p` to `a^f < b^m`. */
  lemma ComparePowersUp(a: nat, f: nat, q: nat, b: nat, m: nat, p: nat, pf: nat, mq: nat, qf: nat)
    requires IsProduct(mq, m, q) && IsProduct(pf, p, f) && IsProduct(qf, q, f)
    requires 0 < b && 0 < f && 0 < q && pf <= mq && Pow(a, q) < Pow(b, p)
    ensures Pow(a, f) < Pow(b, m)
  {
    hide Pow, IsProduct;
    PowPow(a, q, f, qf);
    PowPow(b, p, f, pf);
    PowPow(b, m, q, mq);
    CompareRootsUp(Pow(a, f), Pow(b, m), q, Pow(a, q), Pow(b, p), f, b, pf, mq);
  }

  lemma CompareRootsUp(x: nat, y: nat, q: nat, v: nat, w: nat, f: nat, b: nat, pf: nat, mq: nat)
    requires 0 < b && 0 < f && 0 < q && pf <= mq && v < w
    requires Pow(x, q) == Pow(v, f) && Pow(w, f) == Pow(b, pf) && Pow(y, q) == Pow(b, mq)
    ensures x < y
  {
    hide Pow;
    PowMonotone(b, pf, mq);
    PowBase(v, w, f);
    PowBase(y, x, q);
  }

  /** The two bounds are neighbours: a fraction strictly between them has a denominator of
      at least the sum of theirs. */
  lemma Neighbours(e: int, d: int)
    requires 0 < e < 28738
    ensures d * 15437 <= e * 4647 || e * 4004 <= d * 13301
  {
    assert e == 13301 * (d * 15437 - e * 4647) + 15437 * (e * 4004 - d * 13301);
  }

  lemma NeighboursInverse(p: int, d: int)
    requires 0 < p < 8651
    ensures d * 4004 <= p * 13301 || p * 15437 <= d * 4647
  {
    assert p == 4647 * (d * 4004 - p * 13301) + 4004 * (p * 15437 - d * 4647);
  }

  /** So a multiple of the estimate between them compares with integers as a multiple of
      either bound does. */
  lemma DecimalSides(e: int, d: int)
    requires 0 < e < 28738
    ensures d * 0x400_0000 <= e * 20201781 ==> d * 15437 <= e * 4647
    ensures e * 20201781 <= d * 0x400_0000 ==> e * 4004 <= d * 13301
  {
    Neighbours(e, d);
    assert (e * 4004 - d * 13301) * 0x400_0000 == e * (4004 * 0x400_0000 - 13301 * 20201781) + 13301 * (e * 20201781 - d * 0x400_0000);
    assert (d * 15437 - e * 4647) * 0x400_0000 == e * (15437 * 20201781 - 4647 * 0x400_0000) + 15437 * (d * 0x400_0000 - e * 20201781);
  }

  lemma BinarySides(p: int, d: int)
    requires 0 < p < 8651
    ensures d * 0x100_0000 <= p * 55732705 ==> d * 4004 <= p * 13301
    ensures p * 55732705 <= d * 0x100_0000 ==> p * 15437 <= d * 4647
  {
    NeighboursInverse(p, d);
    assert (p * 15437 - d * 4647) * 0x100_0000 == p * (15437 * 0x100_0000 - 4647 * 55732705) + 4647 * (p * 55732705 - d * 0x100_0000);
    assert (d * 4004 - p * 13301) * 0x100_0000 == p * (4004 * 55732705 - 13301 * 0x100_0000) + 4004 * (d * 0x100_0000 - p * 55732705);
  }

  lemma DecimalNeighbours(e: int, d: int)
    requires -28738 < e < 28738 && d * 0x400_0000 <= e * 20201781 < (d + 1) * 0x400_0000
    ensures 0 < e ==> 0 <= d && d * 15437 <= e * 4647 && e * 4004 <= (d + 1) * 13301
    ensures e < 0 ==> d < 0 && (-d - 1) * 15437 <= -e * 4647 && -e * 4004 <= -d * 13301
  {
    if 0 < e {
      DecimalSides(e, d);
      DecimalSides(e, d + 1);
    } else if e < 0 {
      DecimalSides(-e, -d - 1);
      DecimalSides(-e, -d);
    }
  }

  lemma BinaryNeighbours(p: int, d: int)
    requires -8651 < p < 8651 && d * 0x100_0000 <= p * 55732705 < (d + 1) * 0x100_0000
    ensures 0 < p ==> 0 < d && d * 4004 <= p * 13301 && p * 15437 <= (d + 1) * 4647
    ensures p < 0 ==> d < -1 && -p * 15437 <= -d * 4647 && (-d - 1) * 4004 <= -p * 13301
  {
    if 0 < p {
      BinarySides(p, d);
      BinarySides(p, d + 1);
    } else if p < 0 {
      BinarySides(-p, -d - 1);
      BinarySides(-p, -d);
    }
  }

  lemma PowerReciprocal(a: nat, m: nat, b: nat, n: nat)
    requires 0 < a && 0 < b && Pow(a, m) < Pow(b, n)
    ensures Power(b, 0 - n) < Power(a, 0 - m)
  {
    hide Pow;
    PowStart(a);
    PowStart(b);
    Reciprocal(Pow(a, m) as real, Pow(b, n) as real);
  }

  /** The estimate of the decimal exponent is exact. */
  lemma DecimalExponentExact(e: int)
    requires -28738 < e < 28738
    ensures var d := DecimalExponent(e); Power(10, d) <= Power(2, e) < Power(10, d + 1)
  {
    hide Pow;
    var d := DecimalExponent(e);
    DecimalNeighbours(e, d);
    PowStart(10);
    PowStart(2);
    if e > 0 {
      TenBelowTwo(d, e);
      TwoBelowTen(e, d + 1);
    } else if e < 0 {
      TenBelowTwo(-d - 1, -e);
      TwoBelowTen(-e, -d);
      PowerReciprocal(2, -e, 10, -d);
      PowerReciprocal(10, -d - 1, 2, -e);
    }
  }

  lemma PowStart(b: nat)
    ensures Pow(b, 0) == 1 && Pow(b, 1) == b
  {
  }

  /** The binary exponent belongs to a normalized fraction. */
  lemma BinaryExponentExact(p: int)
    requires -8651 < p < 8651
    ensures var b := BinaryExponent(p); Power(2, b - 1) <= Power(10, p) < Power(2, b)
  {
    hide Pow;
    var d := BinaryExponent(p) - 1;
    BinaryNeighbours(p, d);
    PowStart(10);
    PowStart(2);
    if p > 0 {
      TwoBelowTen(d, p);
      TenBelowTwo(p, d + 1);
    } else if p < 0 {
      TenBelowTwo(-p, -d);
      TwoBelowTen(-d - 1, -p);
      PowerReciprocal(10, -p, 2, -d);
      PowerReciprocal(2, -d - 1, 10, -p);
    }
  }
}
