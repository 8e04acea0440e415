/** The adjustment of the last digit towards the exact value, done on the high 64
    bits only. */
module LastDigit {
  import opened Powers
  import opened Wide
  import opened DigitText
  import opened Shortest
  import opened DigitGeneration

  /** One, at the scale of the high limb. */
  const ONE64: int := 0x4_0000_0000_0000

  /** How far below the upper bound the exact value lies: half the width, or two
      thirds of it where the exponent changes. */
  function Target(width: int, isBoundary: bool): int {
    if isBoundary then width - width / 3 else width / 2
  }

  /** What is taken off the last digit `d`. */
  function Reduction(d: int, width: int, rest: int, isBoundary: bool): int {
    if width < rest + ONE64 then 0
    else
      var skew := Target(width, isBoundary) - rest;
      if skew % ONE64 == ONE64 / 2 then skew / ONE64 + (d - skew / ONE64) % 2
      else (skew + ONE64 / 2) / ONE64
  }

  /** The digit never goes below zero, so nothing is borrowed. */
  lemma NoBorrow(d: int, width: int, rest: int, isBoundary: bool)
    requires 0 <= rest < ONE64 && 0 <= width <= d * ONE64 + rest && 0 <= d < 10
    ensures 0 <= Reduction(d, width, rest, isBoundary) <= d
  {
  }

  /** The result is the decimal nearest to the exact value at the scale of the last digit, the
      one with an even last digit if two are as near. */
  lemma Nearest(d: int, width: int, rest: int, isBoundary: bool)
    requires 0 <= rest < ONE64 && rest + ONE64 <= width <= d * ONE64 + rest && 0 <= d < 10
    ensures var r := Reduction(d, width, rest, isBoundary);
            var miss := Target(width, isBoundary) - rest - r * ONE64;
            -(ONE64 / 2) <= miss <= ONE64 / 2 && (miss == ONE64 / 2 || miss == -(ONE64 / 2) ==> (d - r) % 2 == 0)
  {
  }

  /** Where the guard takes one off a digit that is already the lowest inside: in their high
      limbs width and remainder are one unit apart, in the low limbs ignored they are closer,
      and the exact value is nearer to the digit below, or as near and the digit is odd. */
  predicate Misleads(d: int, t: int, delta: int, isBoundary: bool) {
    var rest := t / B192;
    && delta / B192 == rest + ONE64 && delta % B192 < t % B192
    && if isBoundary then
         var skew := ONE64 - (rest + ONE64) / 3;
         skew > ONE64 / 2 || (skew == ONE64 / 2 && d % 2 == 1)
       else rest == 0 && d % 2 == 1
  }

  /** The reduction where the high limbs are one unit apart. */
  lemma AtOneUnit(d: int, rest: int, isBoundary: bool)
    requires 0 <= rest < ONE64 && 0 <= d
    ensures var r := Reduction(d, rest + ONE64, rest, isBoundary);
      r == if isBoundary then
          (var skew := ONE64 - (rest + ONE64) / 3; if skew > ONE64 / 2 || (skew == ONE64 / 2 && d % 2 == 1) then 1 else 0)
        else if rest == 0 && d % 2 == 1 then 1 else 0
  {
  }

  /** The high limbs and the numbers they are taken from. */
  lemma HighLimbs(t: int, delta: int)
    requires 0 <= t < ONE && t <= delta
    ensures 0 <= t / B192 < ONE64 && t / B192 <= delta / B192
    ensures t + ONE <= delta ==> t / B192 + ONE64 <= delta / B192
    ensures t / B192 + ONE64 < delta / B192 ==> t + ONE <= delta
    ensures t / B192 + ONE64 == delta / B192 ==> (t + ONE <= delta <==> t % B192 <= delta % B192)
    ensures delta / B192 < t / B192 + ONE64 ==> delta < t + ONE
  {
  }

  /** The lowered digit stays in the interval exactly where the guard does not mislead, and
      otherwise misses it by less than the low limbs weigh. */
  lemma StaysInside(d: int, t: int, delta: int, isBoundary: bool)
    requires 0 <= t < ONE && t <= delta < d * ONE + t && 0 <= d < 10
    ensures var r := Reduction(d, delta / B192, t / B192, isBoundary);
            && 0 <= r <= d
            && (t + r * ONE <= delta <==> !Misleads(d, t, delta, isBoundary))
            && t + r * ONE < delta + B192
  {
    var width, rest := delta / B192, t / B192;
    var r := Reduction(d, width, rest, isBoundary);
    HighLimbs(t, delta);
    HighLimb(d, t, delta);
    NoBorrow(d, width, rest, isBoundary);
    if width == rest + ONE64 {
      AtOneUnit(d, rest, isBoundary);
    } else if rest + ONE64 < width {
      FarInside(d, width, rest, isBoundary);
      InsideByLimbs(t, delta, r);
    }
  }

  /** With more than a unit to spare the nearest digit is inside. */
  lemma FarInside(d: int, width: int, rest: int, isBoundary: bool)
    requires 0 <= rest < ONE64 && rest + ONE64 < width <= d * ONE64 + rest && 0 <= d < 10
    ensures rest + Reduction(d, width, rest, isBoundary) * ONE64 < width
  {
    Nearest(d, width, rest, isBoundary);
  }

  lemma InsideByLimbs(t: int, delta: int, r: int)
    requires 0 <= t <= delta && t / B192 + r * ONE64 < delta / B192
    ensures t + r * ONE <= delta
  {
  }

  /** The exact value lies half the width below the upper end, two thirds where the exponent
      changes. The lowered digit is within half a unit of it, or two thirds of one, up to the
      weight of the low limbs. */
  lemma StaysNear(d: int, t: int, delta: int, isBoundary: bool)
    requires 0 <= t < ONE && t <= delta < d * ONE + t && 0 <= d < 10
    ensures var r := Reduction(d, delta / B192, t / B192, isBoundary);
      if isBoundary then -2 * (ONE + B192) <= 2 * delta - 3 * (t + r * ONE) <= 2 * (ONE + B192)
      else -(ONE + 2 * B192) <= delta - 2 * (t + r * ONE) <= ONE + 2 * B192
  {
    var width, rest := delta / B192, t / B192;
    var r := Reduction(d, width, rest, isBoundary);
    HighLimbs(t, delta);
    HighLimb(d, t, delta);
    if rest + ONE64 <= width {
      Nearest(d, width, rest, isBoundary);
      NearByLimbs(t, delta, r, isBoundary);
    } else {
      assert r == 0;
    }
  }

  lemma NearByLimbs(t: int, delta: int, r: int, isBoundary: bool)
    requires 0 <= t <= delta
    requires -(ONE64 / 2) <= Target(delta / B192, isBoundary) - t / B192 - r * ONE64 <= ONE64 / 2
    ensures if isBoundary then -2 * (ONE + B192) <= 2 * delta - 3 * (t + r * ONE) <= 2 * (ONE + B192)
      else -(ONE + 2 * B192) <= delta - 2 * (t + r * ONE) <= ONE + 2 * B192
  {
  }

  /** The number after the adjustment: it has as many digits, lies at most `u`, and is
      in the interval exactly where the guard does not mislead. */
  lemma AdjustedHits(l: int, u: int, ds: seq<char>, t: int, delta: int, isBoundary: bool)
    requires Tracking(l, u, ds, t, delta) && t <= delta && 0 < |ds| && LastOutweighs(ds, t, delta)
    requires ChunkSafe(l, u) || |ds| >= 5
    ensures var d := DigitOf(ds[|ds| - 1]);
            var r := Reduction(d, delta / B192, t / B192, isBoundary);
            var n := Numeral(ds) - r;
            && 0 <= r <= d
            && (Hits(l, u, ONE, |ds| - 1, n) <==> !(ChunkSafe(l, u) && Misleads(d, t, delta, isBoundary)))
            && l * Pow(10, |ds| - 1) - B192 < n * ONE <= u * Pow(10, |ds| - 1)
  {
    var p, d := Pow(10, |ds| - 1), DigitOf(ds[|ds| - 1]);
    var r := Reduction(d, delta / B192, t / B192, isBoundary);
    StateFacts(l, u, ds, t, delta);
    hide Reduction, Misleads, ChunkSafe, Tracking, Pow, Numeral, LastOutweighs;
    StaysBelow(ds, t, delta);
    StaysInside(d, t, delta, isBoundary);
    InInterval(l * p, u * p, Numeral(ds), t, r, delta, ChunkSafe(l, u), Misleads(d, t, delta, isBoundary));
  }

  lemma StaysBelow(ds: seq<char>, t: int, delta: int)
    requires 0 < |ds| && LastOutweighs(ds, t, delta)
    ensures delta < DigitOf(ds[|ds| - 1]) * ONE + t
  {
  }

  /** The interval at the scale of the last digit. */
  lemma StateFacts(l: int, u: int, ds: seq<char>, t: int, delta: int)
    requires 0 < |ds| && Tracking(l, u, ds, t, delta) && (ChunkSafe(l, u) || |ds| >= 5)
    ensures var lp, up := l * Pow(10, |ds| - 1), u * Pow(10, |ds| - 1);
      && Numeral(ds) * ONE + t == up && 0 <= t < ONE
      && if ChunkSafe(l, u) then delta == up - lp else 10 * ONE <= up - lp
  {
    hide Pow, Numeral, NoneBefore;
    Distribute(u, l, Pow(10, |ds| - 1));
    if !ChunkSafe(l, u) { WideWhenUnsafe(l, u, ds, t, delta); }
    hide ChunkSafe;
  }

  lemma InInterval(lp: int, up: int, n: int, t: int, r: int, delta: int, safe: bool, misled: bool)
    requires n * ONE + t == up && 0 <= t < ONE && 0 <= r < 10 && t + r * ONE < delta + B192
    requires t + r * ONE <= delta <==> !misled
    requires if safe then delta == up - lp else 10 * ONE <= up - lp
    ensures lp <= (n - r) * ONE <==> !(safe && misled)
    ensures lp - B192 < (n - r) * ONE <= up
  {
  }

  lemma Distribute(u: int, l: int, p: int)
    ensures (u - l) * p == u * p - l * p
  {
  }

  lemma WideWhenUnsafe(l: int, u: int, ds: seq<char>, t: int, delta: int)
    requires Tracking(l, u, ds, t, delta) && !ChunkSafe(l, u) && |ds| >= 5
    ensures 10 * ONE <= (u - l) * Pow(10, |ds| - 1)
  {
    PowMonotone(10, 4, |ds| - 1);
    PowersOfTen();
    MulMonotone(u - l, 10000, u - l, Pow(10, |ds| - 1));
  }

  /** Replaces the last digit of a numeral. */
  lemma NumeralLast(ds: seq<char>, e: nat)
    requires 0 < |ds| && e < 10
    ensures var ds' := ds[|ds| - 1 := DigitChar(e)];
            Numeral(ds') == Numeral(ds) - DigitOf(ds[|ds| - 1]) + e
  {
    var n := |ds| - 1;
    assert ds[n := DigitChar(e)][..n] == ds[..n];
  }

  /** Clearing the lowest bit of a digit's code makes the digit even. */
  lemma EvenDigit(d: int, a: int)
    requires 0 <= a <= d < 10
    ensures '0' as int + d - a - ('0' as int + d - a) % 2 == '0' as int + (d - (a + (d - a) % 2))
  {
  }

  /** The skew does not wrap below zero, and is at most the last digit. */
  lemma SkewRange(d: int, width: int, rest: int, isBoundary: bool)
    requires 0 <= rest < ONE64 && rest + ONE64 <= width <= d * ONE64 + rest && 0 <= d < 10
    ensures var skew := Target(width, isBoundary) - rest; 0 <= skew < d * ONE64 && 0 <= skew / ONE64 <= d
  {
  }

  /** How far the exact value lies below the digits generated. */
  method SkewOf(deltaHigh64: U64, tHigh64: U64, isBoundary: bool) returns (skew: int)
    ensures skew == Target(deltaHigh64, isBoundary) - tHigh64
  {
    if isBoundary {
      skew := deltaHigh64 - deltaHigh64 / 3 - tHigh64;
    } else {
      skew := deltaHigh64 / 2 - tHigh64;
    }
  }

  /** The new last character. */
  method AdjustChar(last: char, deltaHigh64: U64, tHigh64: U64, isBoundary: bool) returns (c: char)
    requires IsDigit(last) && tHigh64 < ONE64 && deltaHigh64 <= DigitOf(last) * ONE64 + tHigh64
    ensures var r := Reduction(DigitOf(last), deltaHigh64, tHigh64, isBoundary);
            0 <= r <= DigitOf(last) && c == DigitChar(DigitOf(last) - r)
  {
    hide Reduction, Target;
    ghost var d := DigitOf(last);
    NoBorrow(d, deltaHigh64, tHigh64, isBoundary);
    ReductionCases(d, deltaHigh64, tHigh64, isBoundary);
    ghost var r := Reduction(d, deltaHigh64, tHigh64, isBoundary);
    var code := last as int;
    if deltaHigh64 >= tHigh64 + ONE64 {
      SkewRange(d, deltaHigh64, tHigh64, isBoundary);
      var skew: U64 := SkewOf(deltaHigh64, tHigh64, isBoundary);
      var oneHalf := ONE64 / 2;
      if skew % ONE64 == oneHalf {
        var adjust := skew / ONE64;
        EvenDigit(d, adjust);
        code := code - adjust;
        code := code - code % 2;
      } else {
        var adjust := (skew + oneHalf) / ONE64;
        code := code - adjust;
      }
    }
    assert code == '0' as int + (d - r);
    c := code as char;
  }

  lemma ReductionCases(d: int, width: int, rest: int, isBoundary: bool)
    ensures width < rest + ONE64 ==> Reduction(d, width, rest, isBoundary) == 0
    ensures rest + ONE64 <= width ==>
      var skew := Target(width, isBoundary) - rest;
      Reduction(d, width, rest, isBoundary)
        == if skew % ONE64 == ONE64 / 2 then skew / ONE64 + (d - skew / ONE64) % 2 else (skew + ONE64 / 2) / ONE64
  {
  }

  lemma HighLimb(d: int, t: int, delta: int)
    requires 0 <= t < ONE && t <= delta < d * ONE + t
    ensures t / B192 < ONE64 && delta / B192 <= d * ONE64 + t / B192
  {
  }

  method Adjust(dest: array<char>, p: nat, t: Fixed256, delta: Fixed256, isBoundary: bool)
    requires 0 < p <= dest.Length && IsDigit(dest[p - 1]) && t.Value() < ONE
    requires t.Value() <= delta.Value() < DigitOf(dest[p - 1]) * ONE + t.Value()
    modifies dest
    ensures var d := old(DigitOf(dest[p - 1]));
            var r := Reduction(d, delta.Value() / B192, t.Value() / B192, isBoundary);
            && 0 <= r <= d
            && dest[..] == old(dest[..])[p - 1 := DigitChar(d - r)]
  {
    hide Reduction;
    HighLimb(DigitOf(dest[p - 1]), t.Value(), delta.Value());
    assert delta.high == delta.Value() / B192 && t.high == t.Value() / B192;
    var c := AdjustChar(dest[p - 1], delta.high, t.high, isBoundary);
    dest[p - 1] := c;
  }
}
