/** 256-bit fixed-point numbers stored as four 64-bit limbs and updated in place
    with 128-bit temporaries. Assigning to a `U64` or `U128` variable carries the
    obligation that nothing overflows. */
module Wide {
  import opened Powers

  const B32: int := 0x1_0000_0000
  const B64: int := 0x1_0000_0000_0000_0000
  const B128: int := 0x1_0000_0000_0000_0000_0000_0000_0000_0000
  const B192: int := 0x1_0000_0000_0000_0000_0000_0000_0000_0000_0000_0000_0000_0000
  const B256: int := 0x1_0000_0000_0000_0000_0000_0000_0000_0000_0000_0000_0000_0000_0000_0000_0000_0000

  type U32 = x: int | 0 <= x < 0x1_0000_0000
  type U64 = x: int | 0 <= x < 0x1_0000_0000_0000_0000
  type U128 = x: int | 0 <= x < 0x1_0000_0000_0000_0000_0000_0000_0000_0000

  /** The fixed-point unit: 14 integer bits and 242 fraction bits. */
  const ONE: int := 0x4_0000_0000_0000 * B192

  /** How wide the scaled interval of a number is at least: two to the 114, less four. */
  const WIDTH: int := 0x4_0000_0000_0000 * B64 - 4

  /** The number with these four limbs. */
  ghost function Join(a0: int, a1: int, a2: int, a3: int): int {
    a0 + B64 * a1 + B128 * a2 + B192 * a3
  }

  lemma JoinBound(a0: U64, a1: U64, a2: U64, a3: U64)
    ensures 0 <= Join(a0, a1, a2, a3) < B256
  {
  }

  /** The product of a four-limb and a two-limb number, by columns. */
  lemma ProductByColumns(a0: int, a1: int, a2: int, a3: int, b0: int, b1: int)
    ensures Join(a0, a1, a2, a3) * (b0 + B64 * b1)
            == a0 * b0 + B64 * (a0 * b1 + a1 * b0) + B128 * (a1 * b1 + a2 * b0)
               + B192 * (a2 * b1 + a3 * b0) + B256 * (a3 * b1)
  {
  }

  /** The columns with their carries, gathered. */
  lemma GatherColumns(p0: int, p1: int, p2: int, p3: int, p4: int, bias: int,
                      r0: int, r1: int, l0: int, l1: int, l2: int, l3: int, c1: int, c2: int, c3: int, c4: int)
    requires p0 + bias == r0 + B64 * c1 && c1 + p1 + bias == r1 + B64 * c2
    requires c2 + p2 == l0 + B64 * c3 && c3 + p3 == l1 + B64 * c4 && c4 + p4 == l2 + B64 * l3
    ensures p0 + B64 * p1 + B128 * p2 + B192 * p3 + B256 * p4 + (B64 + 1) * bias
            == r0 + B64 * r1 + B128 * Join(l0, l1, l2, l3)
  {
  }

  /** The differences with their borrows, gathered. */
  lemma GatherDifference(a0: int, a1: int, a2: int, a3: int, b0: int, b1: int, b2: int, b3: int,
                         l0: int, l1: int, l2: int, l3: int, c1: int, c2: int, c3: int, c4: int)
    requires a0 + (B64 - 1 - b0) + 1 == l0 + B64 * c1 && c1 + a1 + (B64 - 1 - b1) == l1 + B64 * c2
    requires c2 + a2 + (B64 - 1 - b2) == l2 + B64 * c3 && c3 + a3 + (B64 - 1 - b3) == l3 + B64 * c4
    ensures Join(a0, a1, a2, a3) - Join(b0, b1, b2, b3) == (c4 - 1) * B256 + Join(l0, l1, l2, l3)
  {
  }

  /** A product, by name. */
  ghost function Times(a: int, b: int): int { a * b }

  /** One limb shifted into the place of the one below it. */
  method ShiftStep(t: int, a: U64, rest: int) returns (limb: U64, next: int)
    requires 0 <= t <= B64 && 0 < rest <= B64 / 2
    ensures t + Times(a, rest) == limb + B64 * next && 0 <= next <= B64 / 2
  {
    MulMonotone(a, rest, B64 - 1, B64 / 2);
    var sum: U128 := t + a * rest;
    limb := sum % B64;
    next := sum / B64;
  }

  lemma JoinBias(a0: int, a1: int, a2: int, a3: int, bias: int)
    ensures Join(a0 + bias, a1, a2, a3) == Join(a0, a1, a2, a3) + bias
  {
  }

  /** The shifted limbs with their carries, gathered. */
  lemma GatherShift(q: int, p1: int, p2: int, p3: int, l0: int, l1: int, l2: int, l3: int, c1: int, c2: int)
    requires q + p1 == l0 + B64 * c1 && c1 + p2 == l1 + B64 * c2 && c2 + p3 == l2 + B64 * l3
    ensures q + Join(0, p1, p2, p3) / B64 == Join(l0, l1, l2, l3)
  {
  }

  lemma LimbProduct(a: U64, b: U64)
    ensures 0 <= a * b <= (B64 - 1) * (B64 - 1)
  {
    MulMonotone(a, b, B64 - 1, B64 - 1);
  }

  lemma SmallProduct(a: U64, b: U32)
    ensures 0 <= a * b <= (B64 - 1) * (B32 - 1)
  {
    MulMonotone(a, b, B64 - 1, B32 - 1);
  }

  lemma DistributeSmall(a0: int, a1: int, a2: int, a3: int, b: int)
    ensures Join(a0, a1, a2, a3) * b == Join(a0 * b, a1 * b, a2 * b, a3 * b)
  {
  }

  lemma ModuloUnique(x: int, q: int, r: int)
    requires x == q * B256 + r && 0 <= r < B256
    ensures x % B256 == r
  {
  }

  lemma ShiftFactors(shift: nat)
    requires 0 < shift < 31
    ensures Pow(2, shift) * Pow(2, 64 - shift) == B64
    ensures 2 <= Pow(2, shift) && 0 < Pow(2, 64 - shift) <= B64 / 2
  {
    PowersOfTwo();
    PowAdd(2, shift, 64 - shift);
    PowMonotone(2, 1, shift);
    PowMonotone(2, 64 - shift, 63);
    assert Pow(2, 64) == 2 * Pow(2, 63);
  }

  lemma QuotientBound(x: int, d: int, q: int)
    requires 2 <= d && 0 <= x < d * q + d
    ensures 0 <= x / d <= q
  {
    MulOrder(d, q, x / d);
  }

  /** Shifting drops the low limb's tail and scales the others exactly. */
  lemma ShiftQuotient(a0: int, a1: int, a2: int, a3: int, two: int, rest: int)
    requires 0 < two && two * rest == B64 && 0 <= a0
    ensures Join(a0, a1, a2, a3) / two == a0 / two + Join(0, Times(a1, rest), Times(a2, rest), Times(a3, rest)) / B64
  {
    var m := Join(0, a1, a2, a3) / B64;
    assert m == a1 + B64 * a2 + B128 * a3;
    assert Join(0, a1 * rest, a2 * rest, a3 * rest) == B64 * (rest * m);
    assert Join(a0, a1, a2, a3) == a0 + two * (rest * m);
    DivideMultiple(a0, two, rest * m);
  }

  lemma DivideByLimbs(x: int, r0: int, r1: int, q: int)
    requires x == r0 + B64 * r1 + B128 * q && 0 <= r0 < B64 && 0 <= r1 < B64
    ensures x / B128 == q
  {
  }

  /** One column of the product: a carry, two partial products and a rounding bias
      go in; the column's limb and the next carry come out. */
  method AddColumn(carry: U128, s: U128, t: U128, bias: U64) returns (limb: U64, next: U128)
    requires carry < 4 * B64
    ensures carry + s + t + bias == limb + B64 * next && next < 4 * B64
  {
    var current: U128 := carry;
    current := current + s % B64;
    next := s / B64;
    current := current + t % B64;
    next := next + t / B64;
    current := current + bias;
    limb := current % B64;
    next := next + current / B64;
  }

  /** The low limb plus two, modulo two to the 64. */
  function Bump(v: int): int {
    if v % B64 < B64 - 2 then v + 2 else v + 2 - B64
  }

  class Fixed256 {
    var low: U64
    var midlow: U64
    var midhigh: U64
    var high: U64

    ghost function Value(): (v: int)
      reads this
      ensures 0 <= v < B256
    {
      JoinBound(low, midlow, midhigh, high);
      Join(low, midlow, midhigh, high)
    }

    constructor (high: U64, midhigh: U64, midlow: U64, low: U64)
      ensures Value() == Join(low, midlow, midhigh, high)
      ensures this.high == high
    {
      this.low, this.midlow, this.midhigh, this.high := low, midlow, midhigh, high;
    }

    /** A copy of another number, as C copies a struct. */
    constructor Copy(x: Fixed256)
      ensures Value() == x.Value()
    {
      low, midlow, midhigh, high := x.low, x.midlow, x.midhigh, x.high;
    }

    method Assign(x: Fixed256)
      modifies this
      ensures Value() == old(x.Value())
    {
      low, midlow, midhigh, high := x.low, x.midlow, x.midhigh, x.high;
    }

    /** The product with a 128-bit fraction plus a bias below the last kept limb;
        each limb is overwritten only after its last use. */
    method MultiplyBiased(rhs: U128, bias: U64)
      requires bias == 0 || bias == B64 - 1
      modifies this
      ensures Value() == (old(Value()) * rhs + (B64 + 1) * bias) / B128
    {
      var b0: U64, b1: U64 := rhs % B64, rhs / B64;
      ghost var a0, a1, a2, a3 := low, midlow, midhigh, high;
      LimbProduct(low, b0); LimbProduct(low, b1); LimbProduct(midlow, b0); LimbProduct(midlow, b1);
      LimbProduct(midhigh, b0); LimbProduct(midhigh, b1); LimbProduct(high, b0); LimbProduct(high, b1);
      var current: U128 := low * b0 + bias;
      ghost var r0, c1 := current % B64, current / B64;
      var r1, carry := AddColumn(current / B64, low * b1, midlow * b0, bias);
      ghost var c2 := carry;
      low, carry := AddColumn(carry, midlow * b1, midhigh * b0, 0);
      ghost var c3 := carry;
      midlow, carry := AddColumn(carry, midhigh * b1, high * b0, 0);
      current := carry + high * b1;
      midhigh := current % B64;
      high := current / B64;
      GatherColumns(a0 * b0, a0 * b1 + a1 * b0, a1 * b1 + a2 * b0, a2 * b1 + a3 * b0, a3 * b1, bias,
                    r0, r1, low, midlow, midhigh, high, c1, c2, c3, carry);
      ProductByColumns(a0, a1, a2, a3, b0, b1);
      DivideByLimbs(Join(a0, a1, a2, a3) * rhs + (B64 + 1) * bias, r0, r1, Value());
    }

    /** `multiply256x128RoundingDown`: the floor of the scaled product. */
    method MultiplyDown(rhs: U128)
      modifies this
      ensures Value() == old(Value()) * rhs / B128
    {
      MultiplyBiased(rhs, 0);
    }

    /** `multiply256x128RoundingUp`: its ceiling. */
    method MultiplyUp(rhs: U128)
      modifies this
      ensures Value() == (old(Value()) * rhs + B128 - 1) / B128
    {
      MultiplyBiased(rhs, B64 - 1);
    }

    /** `multiply256xu32`: an integer product modulo two to the 256. */
    method MultiplySmall(rhs: U32)
      modifies this
      ensures Value() == old(Value()) * rhs % B256
    {
      ghost var a0, a1, a2, a3 := low, midlow, midhigh, high;
      SmallProduct(low, rhs); SmallProduct(midlow, rhs); SmallProduct(midhigh, rhs); SmallProduct(high, rhs);
      var t: U128 := low * rhs;
      low := t % B64;
      t := t / B64 + midlow * rhs;
      midlow := t % B64;
      t := t / B64 + midhigh * rhs;
      midhigh := t % B64;
      t := t / B64 + high * rhs;
      high := t % B64;
      DistributeSmall(a0, a1, a2, a3, rhs);
      ModuloUnique(Join(a0, a1, a2, a3) * rhs, t / B64, Value());
    }

    /** `low += 2`, which wraps within the low limb. */
    method BumpLow()
      modifies this
      ensures Value() == Bump(old(Value()))
    {
      low := (low + 2) % B64;
    }

    /** `subtract256x256`: the difference modulo two to the 256. */
    method Subtract(rhs: Fixed256)
      requires rhs != this   // the right operand is passed by value
      modifies this
      ensures Value() == (old(Value()) - rhs.Value()) % B256
    {
      hide Join;
      ghost var a0, a1, a2, a3 := low, midlow, midhigh, high;
      ghost var b0, b1, b2, b3 := rhs.low, rhs.midlow, rhs.midhigh, rhs.high;
      var t: U128 := low + (B64 - 1 - rhs.low) + 1;
      low := t % B64;
      ghost var c1 := t / B64;
      t := t / B64 + midlow + (B64 - 1 - rhs.midlow);
      midlow := t % B64;
      ghost var c2 := t / B64;
      t := t / B64 + midhigh + (B64 - 1 - rhs.midhigh);
      midhigh := t % B64;
      ghost var c3 := t / B64;
      t := t / B64 + high + (B64 - 1 - rhs.high);
      high := t % B64;
      GatherDifference(a0, a1, a2, a3, b0, b1, b2, b3, low, midlow, midhigh, high, c1, c2, c3, t / B64);
      ModuloUnique(Join(a0, a1, a2, a3) - Join(b0, b1, b2, b3), t / B64 - 1, Value());
    }

    /** `isLessThan256x256`. */
    predicate LessThan(rhs: Fixed256)
      reads this, rhs
    {
      || high < rhs.high
      || (high == rhs.high
          && (|| midhigh < rhs.midhigh
              || (midhigh == rhs.midhigh
                  && (|| midlow < rhs.midlow
                      || (midlow == rhs.midlow && low < rhs.low)))))
    }

    lemma LessThanCorrect(rhs: Fixed256)
      ensures LessThan(rhs) <==> Value() < rhs.Value()
    {
      assert high < rhs.high ==> B192 * high + B192 <= B192 * rhs.high;
      assert rhs.high < high ==> B192 * rhs.high + B192 <= B192 * high;
    }

    /** A right shift after adding a bias of less than the divisor. */
    method ShiftBiased(shift: nat, bias: nat)
      requires 0 < shift < 31 && bias < Pow(2, shift)
      modifies this
      ensures Value() == (old(Value()) + bias) / Pow(2, shift)
    {
      hide Join, Pow, Times;
      var two, rest := Pow(2, shift), Pow(2, 64 - shift);
      ShiftFactors(shift);
      ghost var sum := Value() + bias;
      ghost var a0, a1, a2, a3 := low, midlow, midhigh, high;
      QuotientBound(low + bias, two, rest);
      ghost var q := (low + bias) / two;
      var t := (low + bias) / two;
      low, t := ShiftStep(t, midlow, rest);
      ghost var c1 := t;
      midlow, t := ShiftStep(t, midhigh, rest);
      ghost var c2 := t;
      midhigh, t := ShiftStep(t, high, rest);
      high := t;
      GatherShift(q, Times(a1, rest), Times(a2, rest), Times(a3, rest), low, midlow, midhigh, high, c1, c2);
      ShiftQuotient(a0 + bias, a1, a2, a3, two, rest);
      JoinBias(a0, a1, a2, a3, bias);
    }

    /** `shiftRightRoundingDown256`. */
    method ShiftDown(shift: nat)
      requires 0 < shift < 31
      modifies this
      ensures Value() == old(Value()) / Pow(2, shift)
    {
      ShiftBiased(shift, 0);
    }

    /** `shiftRightRoundingUp256`. */
    method ShiftUp(shift: nat)
      requires 0 < shift < 31
      modifies this
      ensures Value() == (old(Value()) + (Pow(2, shift) - 1)) / Pow(2, shift)
    {
      ShiftBiased(shift, Pow(2, shift) - 1);
    }

    /** `extractIntegerPart256` with 14 integer bits: splits off the integer part. */
    method ExtractInteger() returns (n: nat)
      modifies this
      ensures old(Value()) == n * ONE + Value() && Value() < ONE && n < 0x4000
    {
      n := high / 0x4_0000_0000_0000;
      high := high % 0x4_0000_0000_0000;
    }
  }
}
