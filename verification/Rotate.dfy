/** `array_rotate`: rotation in place along the cycles of a step, and the `gcd` it uses. */
module Rotate {
  import opened Options
  import opened Integers

  import opened Powers

  ghost predicate Divides(d: int, x: int)
    requires d != 0
  {
    x % d == 0
  }

  /** `g` is a combination of `a` and `b`, so every common divisor divides it. */
  ghost predicate Combines(g: int, a: int, b: int, x: int, y: int) { g == a * x + b * y }

  /** `gcd`, for the operands it is called with. */
  method Gcd(a0: nat, b0: nat) returns (a: nat, ghost x: int, ghost y: int)
    requires 0 < a0
    ensures 0 < a && Divides(a, a0) && Divides(a, b0) && Combines(a, a0, b0, x, y)
  {
    a := a0;
    var b := b0;
    x, y := 1, 0;
    ghost var x', y' := 0, 1;    // b == a0 * x' + b0 * y'
    while b != 0
      invariant 0 < a && 0 <= b
      invariant a == a0 * x + b0 * y && b == a0 * x' + b0 * y'
      invariant forall d: int | 0 < d && Divides(d, a) && Divides(d, b) :: Divides(d, a0) && Divides(d, b0)
      decreases b
    {
      var t := b;
      ghost var q := a / b;
      Combine(a, b, q, a0, b0, x, y, x', y');
      ghost var d0 := a;
      b := a % b;
      a := t;
      CommonDivisors(d0, t, q, b, a0, b0);
      x, y, x', y' := x', y', x - q * x', y - q * y';
    }
    assert Divides(a, a) && Divides(a, 0);
  }

  lemma Combine(a: int, b: int, q: int, a0: int, b0: int, x: int, y: int, x': int, y': int)
    requires 0 < b && q == a / b && a == a0 * x + b0 * y && b == a0 * x' + b0 * y'
    ensures a % b == a0 * (x - q * x') + b0 * (y - q * y')
  {
    assert a % b == a - q * b;
    assert q * (a0 * x' + b0 * y') == a0 * (q * x') + b0 * (q * y');
    assert a0 * (x - q * x') == a0 * x - a0 * (q * x');
    assert b0 * (y - q * y') == b0 * y - b0 * (q * y');
  }

  lemma CommonDivisors(a: int, b: int, q: int, r: int, a0: int, b0: int)
    requires a == q * b + r
    requires forall d: int | 0 < d && Divides(d, a) && Divides(d, b) :: Divides(d, a0) && Divides(d, b0)
    ensures forall d: int | 0 < d && Divides(d, b) && Divides(d, r) :: Divides(d, a0) && Divides(d, b0)
  {
    forall d: int | 0 < d && Divides(d, b) && Divides(d, r) ensures Divides(d, a0) && Divides(d, b0) {
      var m, n := b / d, r / d;
      assert a == d * (q * m + n) by { assert q * (d * m) == d * (q * m); }
      QuotientUnique(a, d, q * m + n, 0);
    }
  }

  // ---- the cycles of x -> (x + d) % n ----

  /** Where `m` steps lead from `i`. */
  function At(n: nat, d: nat, i: nat, m: nat): (r: nat)
    requires 0 < n
    ensures r < n
  {
    (i + m * d) % n
  }

  /** The step `d` in a circle of `n`, split by `g` into cycles of length `len`. */
  ghost predicate Circle(n: nat, d: nat, g: nat, len: nat, x: int, y: int) {
    0 < n && d < n && 0 < g && n == g * len && Divides(g, d) && Combines(g, n, d, x, y)
  }

  lemma ModAdd(n: int, a: int, q: int)
    requires 0 < n
    ensures (a + n * q) % n == a % n
  {
    QuotientUnique(a + n * q, n, a / n + q, a % n);
  }

  lemma Step(n: nat, d: nat, i: nat, m: nat)
    requires 0 < n
    ensures At(n, d, i, m + 1) == (At(n, d, i, m) + d) % n
  {
    var a := i + m * d;
    assert (m + 1) * d == m * d + d;
    StepMod(n, a, d);
  }

  lemma StepMod(n: int, a: int, d: int)
    requires 0 < n
    ensures (a + d) % n == (a % n + d) % n
  {
    assert a == n * (a / n) + a % n;
    ModAdd(n, a % n + d, a / n);
  }

  lemma Returns(n: nat, d: nat, g: nat, len: nat, x: int, y: int, i: nat)
    requires Circle(n, d, g, len, x, y) && i < n
    ensures At(n, d, i, len) == i && At(n, d, i, 0) == i
  {
    var e := d / g;
    assert 0 < n && n == g * len && d == g * e;
    hide Circle, At;
    WholeCycle(n, d, g, len, e);
    AtValue(n, d, i, len, i, e);
    AtValue(n, d, i, 0, i, 0);
  }

  lemma AtValue(n: nat, d: nat, i: nat, m: nat, r: nat, q: int)
    requires r < n && i + m * d == r + n * q
    ensures At(n, d, i, m) == r
  {
    QuotientUnique(i + m * d, n, q, r);
  }

  lemma WholeCycle(n: int, d: int, g: int, len: int, e: int)
    requires n == g * len && d == g * e
    ensures len * d == n * e
  {
    assert len * (g * e) == (g * len) * e;
  }

  /** A step count that leads back is a multiple of the cycle length. */
  lemma NoShortcut(n: nat, d: nat, g: nat, len: nat, x: int, y: int, k: nat, q: int)
    requires Circle(n, d, g, len, x, y) && 0 < k && k * d == n * q
    ensures len <= k
  {
    assert k * g == n * (k * x + q * y) by {
      assert k * (n * x + d * y) == n * (k * x) + (k * d) * y;
      assert (n * q) * y == n * (q * y);
    }
    MulOrder(n, 0, k * x + q * y);
    assert 0 < k * g;
    MulOrder(g, k, len);
    if k < len {
      MulOrder(n, k * x + q * y, 1);
    }
  }

  lemma Distinct(n: nat, d: nat, g: nat, len: nat, x: int, y: int, i: nat, m: nat, m': nat)
    requires Circle(n, d, g, len, x, y) && m < m' < len
    ensures At(n, d, i, m) != At(n, d, i, m')
  {
    if At(n, d, i, m) == At(n, d, i, m') {
      var a, b := i + m * d, i + m' * d;
      assert (m' - m) * d == b - a == n * (b / n - a / n);
      NoShortcut(n, d, g, len, x, y, m' - m, b / n - a / n);
      assert false;
    }
  }

  lemma SameClass(n: nat, d: nat, g: nat, len: nat, x: int, y: int, i: nat, m: nat)
    requires Circle(n, d, g, len, x, y) && i < g
    ensures At(n, d, i, m) % g == i
  {
    var a, e := i + m * d, d / g;
    assert a % n == i + g * (m * e - len * (a / n)) by {
      assert d == g * e;
      assert m * (g * e) == g * (m * e);
      assert (g * len) * (a / n) == g * (len * (a / n));
    }
    QuotientUnique(a % n, g, m * e - len * (a / n), i);
  }

  /** Every place of a class is on its cycle. */
  lemma Covered(n: nat, d: nat, g: nat, len: nat, x: int, y: int, i: nat, z: nat) returns (m: nat)
    requires Circle(n, d, g, len, x, y) && i < g && z < n && z % g == i
    ensures m < len && At(n, d, i, m) == z
  {
    hide Circle, At, Combines;
    var q, e := z / g, d / g;
    CircleParts(n, d, g, len, x, y, z);
    m := (q * y) % len;
    WalkTo(n, d, g, len, x, y, q, e, m, q * y, i, z);
  }

  lemma CircleParts(n: nat, d: nat, g: nat, len: nat, x: int, y: int, z: nat)
    requires Circle(n, d, g, len, x, y)
    ensures 0 < g && 0 < len && n == g * len && d == g * (d / g) && z == g * (z / g) + z % g && Combines(g, n, d, x, y)
  {
  }

  lemma WalkTo(n: nat, d: nat, g: nat, len: nat, x: int, y: int, q: int, e: int, m: nat, qy: int, i: nat, z: nat)
    requires 0 < len && n == g * len && d == g * e && Combines(g, n, d, x, y)
    requires qy == q * y && m == qy % len && z == g * q + i && z < n
    ensures At(n, d, i, m) == z
  {
    var c := qy / len;
    Walk(n, d, g, len, x, y, q, e, m, c);
    AtValue(n, d, i, m, z, -(q * x) - c * e);
  }

  lemma Walk(n: int, d: int, g: int, len: int, x: int, y: int, q: int, e: int, m: int, c: int)
    requires n == g * len && d == g * e && g == n * x + d * y && m == q * y - len * c
    ensures m * d == q * g + n * (-(q * x) - c * e)
  {
    WholeCycle(n, d, g, len, e);
    Regroup(q, y, d);
    Regroup(c, len, d);
    Regroup(n, c, e);
    Regroup(n, q, x);
    assert m * d == (q * y) * d - (len * c) * d;
    assert q * (n * x + d * y) == q * (n * x) + q * (d * y);
    assert n * (-(q * x) - c * e) == -(n * (q * x)) - n * (c * e);
  }

  lemma Regroup(a: int, b: int, c: int)
    ensures a * b * c == a * (b * c) == b * (a * c) == (b * a) * c == a * (c * b) == c * (a * b)
  {
  }

  // ---- the rotation ----

  /** The array after a rotation by `amount`, in either direction. */
  function Rotated<T>(s: seq<T>, amount: int): (r: seq<T>)
    ensures |r| == |s|
  {
    if |s| == 0 then s else seq(|s|, i requires 0 <= i < |s| => s[(i + amount) % |s|])
  }

  /** The remainder of C, which takes the sign of the dividend. */
  function Remainder(a: int, b: int): int
    requires 0 < b
  {
    if 0 <= a then a % b else -((-a) % b)
  }

  lemma NormalizedStep(a: int, n: int)
    requires 0 < n
    ensures var r := Remainder(a, n); (if r < 0 then r + n else r) == a % n
  {
    if a < 0 {
      var q, r := (-a) / n, (-a) % n;
      if r == 0 {
        QuotientUnique(a, n, -q, 0);
      } else {
        assert a == n * (-q - 1) + (n - r);
        QuotientUnique(a, n, -q - 1, n - r);
      }
    }
  }

  lemma SameStep(n: int, amount: int, i: int)
    requires 0 < n
    ensures (i + amount % n) % n == (i + amount) % n
  {
    ModAdd(n, i + amount % n, amount / n);
  }

  /** The place `d` further on. */
  function Ahead(n: nat, d: nat, z: nat): (r: nat)
    requires 0 < n
    ensures r < n
  {
    (z + d) % n
  }

  function Class(g: nat, z: nat): (r: nat)
    requires 0 < g
    ensures r < g
  {
    z % g
  }

  /** Place `z` has been passed in the first `m` steps from `i`. */
  ghost predicate Passed(n: nat, d: nat, i: nat, m: nat, z: nat)
    requires 0 < n
  {
    exists k: nat :: k < m && At(n, d, i, k) == z
  }

  lemma CircleFacts(n: nat, d: nat, g: nat, len: nat, x: int, y: int, i: nat)
    requires Circle(n, d, g, len, x, y) && i < g
    ensures 0 < n && d < n && g <= n && 0 < len && At(n, d, i, 0) == i
  {
    hide At, Divides, Combines;
    CircleParts(n, d, g, len, x, y, i);
    MulMonotone(g, 1, g, len);
    Returns(n, d, g, len, x, y, i);
  }

  lemma AheadByHand(n: nat, d: nat, j: nat)
    requires d < n && j < n
    ensures Ahead(n, d, j) == if j + d >= n then j + d - n else j + d
  {
    QuotientUnique(j + d, n, if j + d >= n then 1 else 0, if j + d >= n then j + d - n else j + d);
  }

  /** One cycle: every place of the class of `i` takes the element `d` further on. */
  method RotateCycle<T>(a: array<T>, i: nat, d: nat, ghost g: nat, ghost len: nat, ghost x: int, ghost y: int)
    requires Circle(a.Length, d, g, len, x, y) && i < g
    modifies a
    ensures forall z | 0 <= z < a.Length ::
              a[z] == if Class(g, z) == i then old(a[..])[Ahead(a.Length, d, z)] else old(a[..])[z]
  {
    hide Circle, At, Ahead, Class, Passed;
    var n := a.Length;
    ghost var s := a[..];
    CircleFacts(n, d, g, len, x, y, i);
    var t := a[i];
    var j := i;
    ghost var m: nat := 0;
    forall z: nat | z < n ensures !Passed(n, d, i, 0, z) { NothingPassed(n, d, i, z); }
    while true
      invariant m < len && j < n && j == At(n, d, i, m)
      invariant forall z | 0 <= z < n :: a[z] == if Passed(n, d, i, m, z) then s[Ahead(n, d, z)] else s[z]
      decreases len - m
    {
      var k := j + d;
      if k >= n {
        k := k - n;
      }
      AheadByHand(n, d, j);
      NextAt(n, d, i, m);
      if k == i {
        CycleClosed(n, d, g, len, x, y, i, m);
        break;
      }
      CycleOpen(n, d, g, len, x, y, i, m);
      NotPassed(n, d, g, len, x, y, i, m, m + 1);
      forall z: nat | z < n ensures Passed(n, d, i, m + 1, z) <==> z == j || Passed(n, d, i, m, z) {
        PassedMore(n, d, i, m, z);
      }
      a[j] := a[k];
      j := k;
      m := m + 1;
    }
    forall z: nat | z < n ensures Class(g, z) == i <==> z == j || Passed(n, d, i, m, z) {
      PassedMore(n, d, i, m, z);
      PassedAll(n, d, g, len, x, y, i, z);
    }
    a[j] := t;
  }

  lemma NothingPassed(n: nat, d: nat, i: nat, z: nat)
    requires 0 < n
    ensures !Passed(n, d, i, 0, z)
  {
  }

  lemma NextAt(n: nat, d: nat, i: nat, m: nat)
    requires 0 < n
    ensures At(n, d, i, m + 1) == Ahead(n, d, At(n, d, i, m))
  {
    Step(n, d, i, m);
  }

  lemma PassedMore(n: nat, d: nat, i: nat, m: nat, z: nat)
    requires 0 < n
    ensures Passed(n, d, i, m + 1, z) <==> z == At(n, d, i, m) || Passed(n, d, i, m, z)
  {
    hide At;
    if Passed(n, d, i, m, z) {
      var k: nat :| k < m && At(n, d, i, k) == z;
      assert k < m + 1;
    }
    assert m < m + 1;
  }

  lemma NotPassed(n: nat, d: nat, g: nat, len: nat, x: int, y: int, i: nat, m: nat, k: nat)
    requires Circle(n, d, g, len, x, y) && m <= k < len
    ensures 0 < n && !Passed(n, d, i, m, At(n, d, i, k))
  {
    assert 0 < n;
    hide Circle, At;
    forall k': nat | k' < m ensures At(n, d, i, k') != At(n, d, i, k) {
      Distinct(n, d, g, len, x, y, i, k', k);
    }
  }

  lemma CycleClosed(n: nat, d: nat, g: nat, len: nat, x: int, y: int, i: nat, m: nat)
    requires Circle(n, d, g, len, x, y) && m < len && i < n && At(n, d, i, m + 1) == i
    ensures m + 1 == len
  {
    hide At;
    Returns(n, d, g, len, x, y, i);
    if m + 1 < len {
      Distinct(n, d, g, len, x, y, i, 0, m + 1);
      assert false;
    }
  }

  lemma CycleOpen(n: nat, d: nat, g: nat, len: nat, x: int, y: int, i: nat, m: nat)
    requires Circle(n, d, g, len, x, y) && m < len && i < n && At(n, d, i, m + 1) != i
    ensures m + 1 < len
  {
    hide At;
    Returns(n, d, g, len, x, y, i);
  }

  lemma PassedAll(n: nat, d: nat, g: nat, len: nat, x: int, y: int, i: nat, z: nat)
    requires Circle(n, d, g, len, x, y) && i < g && z < n
    ensures Passed(n, d, i, len, z) <==> Class(g, z) == i
  {
    assert 0 < n;
    hide At;
    if z % g == i {
      var m := Covered(n, d, g, len, x, y, i, z);
      assert m < len && At(n, d, i, m) == z;
    }
    if Passed(n, d, i, len, z) {
      var k: nat :| k < len && At(n, d, i, k) == z;
      SameClass(n, d, g, len, x, y, i, k);
    }
  }

  /** The classes below `i` have been rotated. */
  ghost predicate RotatedBelow<T>(s: seq<T>, r: seq<T>, d: nat, g: nat, i: nat) {
    && 0 < |s| == |r| && 0 < g
    && forall z | 0 <= z < |s| :: r[z] == if Class(g, z) < i then s[Ahead(|s|, d, z)] else s[z]
  }

  /** All cycles, one after the other. */
  method RotateCycles<T>(a: array<T>, d: nat)
    requires d < a.Length
    modifies a
    ensures forall z | 0 <= z < a.Length :: a[z] == old(a[..])[Ahead(a.Length, d, z)]
  {
    hide Circle, Ahead, Class, Combines, Divides;
    var N, x, y := Gcd(a.Length, d);
    ghost var len := a.Length / N;
    ghost var s := a[..];
    MakeCircle(a.Length, d, N, x, y);
    var i := 0;
    while i < N
      invariant 0 <= i <= N && RotatedBelow(s, a[..], d, N, i)
    {
      ghost var before := a[..];
      RotateCycle(a, i, d, N, len, x, y);
      CycleAdvances(s, before, a[..], d, N, len, x, y, i);
      i := i + 1;
    }
  }

  /** How far to rotate: the argument as an `int`, or without one by one. */
  function Amount(arg: Option<Int64>): int {
    match arg
    case None => 1
    case Some(amount) => ToInt(amount)
  }

  /** `array_rotate`. */
  method RotateArray<T>(a: array<T>, arg: Option<Int64>)
    modifies a
    ensures a[..] == Rotated(old(a[..]), Amount(arg))
    ensures arg.None? && 0 < a.Length ==> a[..] == old(a[..])[1..] + old(a[..])[..1]
    ensures arg.Some? && 0 <= arg.value <= a.Length <= INT_MAX ==> a[..] == old(a[..])[arg.value..] + old(a[..])[..arg.value]
  {
    hide Ahead, Remainder, Rotated;
    var n := a.Length;
    var d := Amount(arg);
    if 0 <= d <= n { RotatedSlices(a[..], d); }
    if n == 0 {
      RotatedEmpty(a[..], d);
      return;
    }
    d := Remainder(d, n);
    if d < 0 {
      d := d + n;
    }
    NormalizedStep(Amount(arg), n);
    RotateCycles(a, d);
    AllAhead(old(a[..]), a[..], Amount(arg));
  }

  /** Rotating by no more than the length moves that many items from the front to the back. */
  lemma RotatedSlices<T>(s: seq<T>, k: nat)
    requires k <= |s|
    ensures Rotated(s, k) == s[k..] + s[..k]
  {
    forall i | 0 <= i < |s| ensures Rotated(s, k)[i] == (s[k..] + s[..k])[i] {
      QuotientUnique(i + k, |s|, if i + k < |s| then 0 else 1, if i + k < |s| then i + k else i + k - |s|);
    }
  }

  /** The conversion of the argument does no harm to arrays of `n` items exactly when it
      changes it by a multiple of `n`. */
  lemma ConversionHarmless(n: nat, amount: Int64)
    requires 0 < n
    ensures (forall s: seq<int> | |s| == n :: Rotated(s, Amount(Some(amount))) == Rotated(s, amount))
      <==> (amount - ToInt(amount)) % n == 0
  {
    hide Rotated, ToInt;
    var d := ToInt(amount);
    if (amount - d) % n == 0 {
      forall s: seq<int> | |s| == n ensures Rotated(s, d) == Rotated(s, amount) {
        SameRotation(s, d, amount);
      }
    } else {
      var s := seq(n, i => i);
      RotatedAt(s, d, 0);
      RotatedAt(s, amount, 0);
      SameIndex(n, 0, d, amount);
      assert Rotated(s, d)[0] != Rotated(s, amount)[0];
    }
  }

  lemma SameRotation(s: seq<int>, d: int, amount: int)
    requires 0 < |s| && (amount - d) % |s| == 0
    ensures Rotated(s, d) == Rotated(s, amount)
  {
    hide Rotated;
    forall z: nat | z < |s| ensures Rotated(s, d)[z] == Rotated(s, amount)[z] {
      RotatedAt(s, d, z);
      RotatedAt(s, amount, z);
      SameIndex(|s|, z, d, amount);
    }
  }

  lemma SameIndex(n: int, z: int, d: int, amount: int)
    requires 0 < n
    ensures (z + d) % n == (z + amount) % n <==> (amount - d) % n == 0
  {
    if (amount - d) % n == 0 {
      WholeMultiple(n, amount - d);
      ModAdd(n, z + d, (amount - d) / n);
    } else if (z + d) % n == (z + amount) % n {
      ModDifference(n, z + d, z + amount);
    }
  }

  lemma WholeMultiple(n: int, x: int)
    requires 0 < n && x % n == 0
    ensures x == n * (x / n)
  {
  }

  lemma ModDifference(n: int, x: int, y: int)
    requires 0 < n && x % n == y % n
    ensures (y - x) % n == 0
  {
    assert y - x == 0 + n * (y / n - x / n) by {
      assert x == n * (x / n) + x % n && y == n * (y / n) + y % n;
      assert n * (y / n) - n * (x / n) == n * (y / n - x / n);
    }
    ModAdd(n, 0, y / n - x / n);
  }

  /** Rotating three items by 2^32 leaves them in place, although 2^32 is not a multiple of
      three. */
  lemma ConversionExample(s: seq<int>)
    requires |s| == 3
    ensures Rotated(s, Amount(Some(0x1_0000_0000))) == s && (0x1_0000_0000 - ToInt(0x1_0000_0000)) % 3 != 0
  {
  }

  /** The sums of an index and the amount that a rotation forms stay within `int` exactly when
      the largest of them does. */
  lemma SumsFit(n: nat, d: nat, g: nat, len: nat, x: int, y: int)
    requires Circle(n, d, g, len, x, y)
    ensures (forall i: nat, m: nat | i < g && m < len :: At(n, d, i, m) + d <= INT_MAX) <==> n - 1 + d <= INT_MAX
  {
    var last := (n - 1) % g;
    var m := Covered(n, d, g, len, x, y, last, n - 1);
    assert At(n, d, last, m) == n - 1;
  }

  /** Rotating 2^30 + 1 items by minus one: the second step adds beyond `int`. */
  lemma SumOverflows()
    ensures var n := 0x4000_0001; var d := Amount(Some(-1)) % n; At(n, d, 0, 1) + d > INT_MAX
  {
  }

  lemma RotatedEmpty<T>(s: seq<T>, amount: int)
    requires |s| == 0
    ensures Rotated(s, amount) == s
  {
  }

  lemma AllAhead<T>(s: seq<T>, r: seq<T>, amount: int)
    requires 0 < |s| == |r| && forall z | 0 <= z < |s| :: r[z] == s[Ahead(|s|, amount % |s|, z)]
    ensures r == Rotated(s, amount)
  {
    hide Ahead;
    forall z | 0 <= z < |s| ensures r[z] == Rotated(s, amount)[z] {
      AheadIsRotated(|s|, amount, z);
    }
  }

  lemma MakeCircle(n: nat, d: nat, g: nat, x: int, y: int)
    requires d < n && 0 < g && Divides(g, n) && Divides(g, d) && Combines(g, n, d, x, y)
    ensures Circle(n, d, g, n / g, x, y)
  {
  }

  lemma AheadIsRotated(n: nat, amount: int, z: nat)
    requires 0 < n
    ensures Ahead(n, amount % n, z) == (z + amount) % n
  {
    SameStep(n, amount, z);
  }

  /** The classes done so far grow by one. */
  lemma CycleAdvances<T>(s: seq<T>, before: seq<T>, after: seq<T>, d: nat, g: nat, len: nat, x: int, y: int, i: nat)
    requires |before| == |after| && Circle(|s|, d, g, len, x, y) && i < g && RotatedBelow(s, before, d, g, i)
    requires forall z | 0 <= z < |s| :: after[z] == if Class(g, z) == i then before[Ahead(|s|, d, z)] else before[z]
    ensures RotatedBelow(s, after, d, g, i + 1)
  {
    forall z: nat | z < |s| && Class(g, z) == i ensures Class(g, Ahead(|s|, d, z)) == i {
      AheadSameClass(|s|, d, g, len, x, y, i, z);
    }
  }

  lemma AheadSameClass(n: nat, d: nat, g: nat, len: nat, x: int, y: int, i: nat, z: nat)
    requires Circle(n, d, g, len, x, y) && z < n && Class(g, z) == i
    ensures Class(g, Ahead(n, d, z)) == i
  {
    var m := Covered(n, d, g, len, x, y, i, z);
    NextAt(n, d, i, m);
    SameClass(n, d, g, len, x, y, i, m + 1);
  }

  /** Rotations add up; in particular rotating back restores the array. */
  lemma RotatedTwice<T>(s: seq<T>, a: int, b: int)
    ensures Rotated(Rotated(s, a), b) == Rotated(s, a + b)
  {
    hide Rotated, Ahead;
    var n := |s|;
    if n == 0 {
      RotatedEmpty(s, a);
      RotatedEmpty(s, b);
      RotatedEmpty(s, a + b);
    } else {
      var r := Rotated(s, a);
      forall z: nat | z < n ensures Rotated(r, b)[z] == Rotated(s, a + b)[z] {
        RotatedAt(r, b, z);
        RotatedAt(s, a + b, z);
        RotatedAt(s, a, Ahead(n, b % n, z));
        AheadIsRotated(n, b, z);
        SumOfSteps(n, z, a, b);
      }
    }
  }

  lemma RotatedAt<T>(s: seq<T>, a: int, z: nat)
    requires z < |s|
    ensures Rotated(s, a)[z] == s[(z + a) % |s|]
  {
  }

  lemma SumOfSteps(n: int, z: int, a: int, b: int)
    requires 0 < n
    ensures ((z + b) % n + a) % n == (z + (a + b)) % n
  {
    ModAdd(n, (z + b) % n + a, (z + b) / n);
  }
}
