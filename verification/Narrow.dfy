/** The same 256-bit product on eight 32-bit limbs with 64-bit temporaries, updated
    in place; compiled where no 128-bit integer type exists. */
module Narrow {
  import opened Powers
  import opened Wide

  const B96: int := 0x1_0000_0000 * B64

  /** The number with these four limbs. */
  ghost function Join4(x0: int, x1: int, x2: int, x3: int): int {
    x0 + B32 * x1 + B64 * x2 + B96 * x3
  }

  ghost function Value8(s: seq<U32>): int
    requires |s| == 8
  {
    Join4(s[0], s[1], s[2], s[3]) + B128 * Join4(s[4], s[5], s[6], s[7])
  }

  lemma Row(a0: int, a1: int, a2: int, a3: int, b: int)
    ensures Join4(a0, a1, a2, a3) * b == Join4(a0 * b, a1 * b, a2 * b, a3 * b)
  {
  }

  lemma Rows(x: int, b0: int, b1: int, b2: int, b3: int)
    ensures x * Join4(b0, b1, b2, b3) == Join4(x * b0, x * b1, x * b2, x * b3)
  {
  }

  /** The product of two four-limb numbers, by columns. */
  lemma Product44(a0: int, a1: int, a2: int, a3: int, b0: int, b1: int, b2: int, b3: int)
    ensures Join4(a0, a1, a2, a3) * Join4(b0, b1, b2, b3)
            == Join4(a0 * b0, a0 * b1 + a1 * b0, a0 * b2 + a1 * b1 + a2 * b0, a0 * b3 + a1 * b2 + a2 * b1 + a3 * b0)
               + B128 * Join4(a1 * b3 + a2 * b2 + a3 * b1, a2 * b3 + a3 * b2, a3 * b3, 0)
  {
    Rows(Join4(a0, a1, a2, a3), b0, b1, b2, b3);
    Row(a0, a1, a2, a3, b0);
    Row(a0, a1, a2, a3, b1);
    Row(a0, a1, a2, a3, b2);
    Row(a0, a1, a2, a3, b3);
  }

  lemma LimbProduct32(a: U32, b: U32)
    ensures 0 <= a * b <= (B32 - 1) * (B32 - 1)
  {
    MulMonotone(a, b, B32 - 1, B32 - 1);
  }

  /** One column: a carry, up to four partial products and a rounding bias; `m` bounds
      how many limbs' worth of carry the column can produce. */
  method AddColumn32(carry: U64, a: U64, b: U64, c: U64, d: U64, bias: U32, ghost m: nat)
    returns (limb: U32, t: U64)
    requires carry <= 4 * (B32 - 1) && carry + a + b + c + d + bias <= m * (B32 * (B32 - 1)) && m <= 4
    ensures carry + a + b + c + d + bias == limb + B32 * t && t <= m * (B32 - 1)
  {
    t := carry;
    t := t + a % B32 + b % B32 + c % B32 + d % B32 + bias;
    limb := t % B32;
    t := t / B32;
    t := t + a / B32 + b / B32 + c / B32 + d / B32;
  }

  /** The eleven columns of the product of an eight-limb and a four-limb number. */
  lemma Product84(s: seq<U32>, b0: int, b1: int, b2: int, b3: int)
    requires |s| == 8
    ensures Value8(s) * Join4(b0, b1, b2, b3)
            == Join4(s[0] * b0, s[0] * b1 + s[1] * b0, s[0] * b2 + s[1] * b1 + s[2] * b0, Column(s, 0, b0, b1, b2, b3))
               + B128 * Join4(Column(s, 1, b0, b1, b2, b3), Column(s, 2, b0, b1, b2, b3),
                              Column(s, 3, b0, b1, b2, b3), Column(s, 4, b0, b1, b2, b3))
               + B256 * Join4(s[5] * b3 + s[6] * b2 + s[7] * b1, s[6] * b3 + s[7] * b2, s[7] * b3, 0)
  {
    var x, y, z := Join4(s[0], s[1], s[2], s[3]), Join4(s[4], s[5], s[6], s[7]), Join4(b0, b1, b2, b3);
    assert (x + B128 * y) * z == x * z + B128 * (y * z);
    Product44(s[0], s[1], s[2], s[3], b0, b1, b2, b3);
    Product44(s[4], s[5], s[6], s[7], b0, b1, b2, b3);
  }

  /** A full column of four partial products, starting at limb `i`. */
  ghost function Column(s: seq<U32>, i: nat, b0: int, b1: int, b2: int, b3: int): int
    requires |s| == 8 && i + 3 < 8
  {
    s[i] * b3 + s[i + 1] * b2 + s[i + 2] * b1 + s[i + 3] * b0
  }

  /** The first `i` of four limbs, and a carry above them. */
  ghost function Partial(i: nat, x0: int, x1: int, x2: int, x3: int, t: int): int {
    (if i > 0 then x0 else 0) + (if i > 1 then B32 * x1 else 0)
    + (if i > 2 then B64 * x2 else 0) + (if i > 3 then B96 * x3 else 0)
    + (if i == 0 then t else if i == 1 then B32 * t else if i == 2 then B64 * t
       else if i == 3 then B96 * t else B128 * t)
  }

  /** Four columns with their carries, gathered. */
  lemma GatherTail(c0: int, c1: int, c2: int, c3: int, bias: int, r0: int, r1: int, r2: int, r3: int,
                   t1: int, t2: int, t3: int, t: int)
    requires c0 + bias == r0 + B32 * t1 && t1 + c1 + bias == r1 + B32 * t2
    requires t2 + c2 + bias == r2 + B32 * t3 && t3 + c3 + bias == r3 + B32 * t
    ensures Join4(c0, c1, c2, c3) + Join4(bias, bias, bias, bias) == r0 + B32 * r1 + B64 * (r2 + B32 * r3) + B128 * t
  {
  }

  method DroppedColumns(elt: array<U32>, low: U32, b: U32, c: U32, high: U32, bias: U32)
    returns (t: U64, ghost tail0: U64, ghost tail1: U64)
    requires elt.Length == 8
    ensures t <= 4 * (B32 - 1)
    ensures Join4(elt[0] * low, elt[0] * b + elt[1] * low, elt[0] * c + elt[1] * b + elt[2] * low,
                  Column(elt[..], 0, low, b, c, high)) + Join4(bias, bias, bias, bias)
            == tail0 + B64 * tail1 + B128 * t
  {
    LimbProduct32(elt[0], low); LimbProduct32(elt[0], b); LimbProduct32(elt[0], c); LimbProduct32(elt[0], high);
    LimbProduct32(elt[1], low); LimbProduct32(elt[1], b); LimbProduct32(elt[1], c);
    LimbProduct32(elt[2], low); LimbProduct32(elt[2], b); LimbProduct32(elt[3], low);
    var r0, r1, r2, r3;
    r0, t := AddColumn32(0, elt[0] * low + bias, 0, 0, 0, 0, 1);
    ghost var t1 := t;
    r1, t := AddColumn32(t, elt[0] * b, elt[1] * low, 0, 0, bias, 2);
    ghost var t2 := t;
    r2, t := AddColumn32(t, elt[0] * c, elt[1] * b, elt[2] * low, 0, bias, 3);
    ghost var t3 := t;
    r3, t := AddColumn32(t, elt[0] * high, elt[1] * c, elt[2] * b, elt[3] * low, bias, 4);
    tail0, tail1 := r0 + B32 * r1, r2 + B32 * r3;
    GatherTail(elt[0] * low, elt[0] * b + elt[1] * low, elt[0] * c + elt[1] * b + elt[2] * low,
               Column(elt[..], 0, low, b, c, high), bias, r0, r1, r2, r3, t1, t2, t3, t);
  }

  /** The four full columns; each overwrites the limb it no longer reads. */
  method MiddleColumns(elt: array<U32>, low: U32, b: U32, c: U32, high: U32, carry: U64) returns (t: U64)
    requires elt.Length == 8 && carry <= 4 * (B32 - 1)
    modifies elt
    ensures t <= 4 * (B32 - 1) && elt[4..] == old(elt[4..])
    ensures Join4(elt[0], elt[1], elt[2], elt[3]) + B128 * t
            == carry + Join4(Column(old(elt[..]), 1, low, b, c, high), Column(old(elt[..]), 2, low, b, c, high),
                             Column(old(elt[..]), 3, low, b, c, high), Column(old(elt[..]), 4, low, b, c, high))
  {
    ghost var s := elt[..];
    ghost var c1, c2, c3, c4 := Column(s, 1, low, b, c, high), Column(s, 2, low, b, c, high),
                                Column(s, 3, low, b, c, high), Column(s, 4, low, b, c, high);
    t := carry;
    var i := 0;
    while i < 4
      invariant 0 <= i <= 4 && t <= 4 * (B32 - 1)
      invariant forall j | i <= j < 8 :: elt[j] == s[j]
      invariant Partial(i, elt[0], elt[1], elt[2], elt[3], t) == carry + Partial(i, c1, c2, c3, c4, 0)
    {
      LimbProduct32(elt[i + 1], high); LimbProduct32(elt[i + 2], c);
      LimbProduct32(elt[i + 3], b); LimbProduct32(elt[i + 4], low);
      var limb;
      limb, t := AddColumn32(t, elt[i + 1] * high, elt[i + 2] * c, elt[i + 3] * b, elt[i + 4] * low, 0, 4);
      elt[i] := limb;
      i := i + 1;
    }
  }

  method LastColumns(elt: array<U32>, b: U32, c: U32, high: U32, carry: U64)
    requires elt.Length == 8 && carry <= 4 * (B32 - 1)
    modifies elt
    ensures elt[..4] == old(elt[..4])
    ensures Join4(elt[4], elt[5], elt[6], elt[7])
            == carry + Join4(old(elt[5] * high + elt[6] * c + elt[7] * b), old(elt[6] * high + elt[7] * c),
                             old(elt[7] * high), 0)
  {
    LimbProduct32(elt[5], high); LimbProduct32(elt[6], c); LimbProduct32(elt[7], b);
    LimbProduct32(elt[6], high); LimbProduct32(elt[7], c); LimbProduct32(elt[7], high);
    var limb, t := AddColumn32(carry, elt[5] * high, elt[6] * c, elt[7] * b, 0, 0, 4);
    elt[4] := limb;
    limb, t := AddColumn32(t, elt[6] * high, elt[7] * c, 0, 0, 0, 3);
    elt[5] := limb;
    t := t + elt[7] * high;
    elt[6] := t % B32;
    elt[7] := t / B32;
  }

  /** `multiply256x128RoundingDown` and `multiply256x128RoundingUp`: the bias is zero in
      the former and one less than the base, in each dropped column, in the latter. */
  method MultiplyBiased32(elt: array<U32>, low: U32, b: U32, c: U32, high: U32, bias: U32)
    requires elt.Length == 8
    modifies elt
    ensures Value8(elt[..])
            == (Value8(old(elt[..])) * Join4(low, b, c, high) + Join4(bias, bias, bias, bias)) / B128
  {
    ghost var s := elt[..];
    Product84(s, low, b, c, high);
    var t, tail0, tail1 := DroppedColumns(elt, low, b, c, high, bias);
    t := MiddleColumns(elt, low, b, c, high, t);
    assert forall j | 4 <= j < 8 :: elt[j] == elt[4..][j - 4] == s[4..][j - 4] == s[j];
    label middle:
    LastColumns(elt, b, c, high, t);
    assert forall j | 0 <= j < 4 :: elt[j] == elt[..4][j] == old@middle(elt[..4])[j] == old@middle(elt[j]);
    DivideByLimbs(Value8(s) * Join4(low, b, c, high) + Join4(bias, bias, bias, bias),
                  tail0, tail1, Value8(elt[..]));
  }

  method MultiplyDown32(elt: array<U32>, low: U32, b: U32, c: U32, high: U32)
    requires elt.Length == 8
    modifies elt
    ensures Value8(elt[..]) == Value8(old(elt[..])) * Join4(low, b, c, high) / B128
  {
    MultiplyBiased32(elt, low, b, c, high, 0);
  }

  method MultiplyUp32(elt: array<U32>, low: U32, b: U32, c: U32, high: U32)
    requires elt.Length == 8
    modifies elt
    ensures Value8(elt[..]) == (Value8(old(elt[..])) * Join4(low, b, c, high) + B128 - 1) / B128
  {
    MultiplyBiased32(elt, low, b, c, high, B32 - 1);
  }
}
