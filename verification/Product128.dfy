/** The 128x64-bit fraction products of the binary64 formatter, in both forms. */
module Product128 {
  import opened Wide
  import opened Narrow

  lemma SplitProduct(lhs: U128, rhs: U64)
    ensures lhs * rhs == (lhs / B64) * rhs * B64 + (lhs % B64) * rhs
    ensures 0 <= (lhs / B64) * rhs <= (B64 - 1) * (B64 - 1) && 0 <= (lhs % B64) * rhs <= (B64 - 1) * (B64 - 1)
  {
    var h, l := lhs / B64, lhs % B64;
    assert lhs == h * B64 + l;
    assert (h * B64 + l) * rhs == h * rhs * B64 + l * rhs;
    LimbProduct(h, rhs);
    LimbProduct(l, rhs);
  }

  /** `multiply128x64RoundingDown` with a 128-bit integer type. */
  function MultiplyDown(lhs: U128, rhs: U64): (r: U128)
    ensures r == lhs * rhs / B64
  {
    SplitProduct(lhs, rhs);
    (lhs / B64) * rhs + (lhs % B64) * rhs / B64
  }

  /** `multiply128x64RoundingUp` with a 128-bit integer type. */
  function MultiplyUp(lhs: U128, rhs: U64): (r: U128)
    ensures r == (lhs * rhs + B64 - 1) / B64
  {
    SplitProduct(lhs, rhs);
    (lhs / B64) * rhs + ((lhs % B64) * rhs + (B64 - 1)) / B64
  }

  lemma Product42(l0: U32, l1: U32, l2: U32, l3: U32, r0: U32, r1: U32)
    ensures Join4(l0, l1, l2, l3) * (r0 + B32 * r1)
            == Join4(l0 * r0, l1 * r0 + l0 * r1, l2 * r0 + l1 * r1, l3 * r0 + l2 * r1) + B128 * (l3 * r1)
    ensures 0 <= l0 * r0 <= (B32 - 1) * (B32 - 1) && 0 <= l1 * r0 <= (B32 - 1) * (B32 - 1)
    ensures 0 <= l2 * r0 <= (B32 - 1) * (B32 - 1) && 0 <= l3 * r0 <= (B32 - 1) * (B32 - 1)
    ensures 0 <= l0 * r1 <= (B32 - 1) * (B32 - 1) && 0 <= l1 * r1 <= (B32 - 1) * (B32 - 1)
    ensures 0 <= l2 * r1 <= (B32 - 1) * (B32 - 1) && 0 <= l3 * r1 <= (B32 - 1) * (B32 - 1)
  {
    Product44(l0, l1, l2, l3, r0, r1, 0, 0);
    LimbProduct32(l0, r0); LimbProduct32(l1, r0); LimbProduct32(l2, r0); LimbProduct32(l3, r0);
    LimbProduct32(l0, r1); LimbProduct32(l1, r1); LimbProduct32(l2, r1); LimbProduct32(l3, r1);
  }

  /** The columns above the two dropped ones. */
  method UpperColumns(carry: U64, low: U32, b: U32, c: U32, high: U32, rhs0: U32, rhs1: U32)
    returns (r0: U32, r1: U32, r2: U32, r3: U32)
    requires carry <= 2 * (B32 - 1)
    ensures Join4(r0, r1, r2, r3)
            == carry + (c * rhs0 + b * rhs1) + B32 * (high * rhs0 + c * rhs1) + B64 * (high * rhs1)
  {
    Product42(low, b, c, high, rhs0, rhs1);
    var t: U64 := carry;
    t := t + (c * rhs0) % B32 + (b * rhs1) % B32;
    r0 := t % B32;
    t := t / B32;
    t := t + (c * rhs0) / B32 + (b * rhs1) / B32;
    t := t + (high * rhs0) % B32 + (c * rhs1) % B32;
    r1 := t % B32;
    t := t / B32;
    t := t + (high * rhs0) / B32 + (c * rhs1) / B32;
    t := t + high * rhs1;
    r2 := t % B32;
    r3 := t / B32;
  }

  /** `multiply128x64RoundingDown` on 32-bit limbs. */
  method MultiplyDown32(low: U32, b: U32, c: U32, high: U32, rhs: U64)
    returns (r0: U32, r1: U32, r2: U32, r3: U32)
    ensures Join4(r0, r1, r2, r3) == Join4(low, b, c, high) * rhs / B64
  {
    var rhs0: U32, rhs1: U32 := rhs % B32, rhs / B32;
    Product42(low, b, c, high, rhs0, rhs1);
    var t: U64 := low * rhs0;
    ghost var tail0 := t % B32;
    t := t / B32;
    t := t + b * rhs0 + (low * rhs1) % B32;
    ghost var tail1 := t % B32;
    t := t / B32;
    t := t + (low * rhs1) / B32;
    r0, r1, r2, r3 := UpperColumns(t, low, b, c, high, rhs0, rhs1);
    assert Join4(low, b, c, high) * rhs == tail0 + B32 * tail1 + B64 * Join4(r0, r1, r2, r3);
  }

  /** `multiply128x64RoundingUp` on 32-bit limbs. */
  method MultiplyUp32(low: U32, b: U32, c: U32, high: U32, rhs: U64)
    returns (r0: U32, r1: U32, r2: U32, r3: U32)
    ensures Join4(r0, r1, r2, r3) == (Join4(low, b, c, high) * rhs + B64 - 1) / B64
  {
    var rhs0: U32, rhs1: U32 := rhs % B32, rhs / B32;
    Product42(low, b, c, high, rhs0, rhs1);
    var t: U64 := low * rhs0 + (B32 - 1);
    ghost var tail0 := t % B32;
    t := t / B32;
    t := t + (b * rhs0) % B32 + (low * rhs1) % B32 + (B32 - 1);
    ghost var tail1 := t % B32;
    t := t / B32;
    t := t + (b * rhs0) / B32 + (low * rhs1) / B32;
    r0, r1, r2, r3 := UpperColumns(t, low, b, c, high, rhs0, rhs1);
    assert Join4(low, b, c, high) * rhs + B64 - 1 == tail0 + B32 * tail1 + B64 * Join4(r0, r1, r2, r3);
  }
}
