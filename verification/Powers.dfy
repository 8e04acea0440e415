/** Natural powers, and the few facts about multiplication and division by a
    variable that the solver does not find by itself. */
module Powers {

  function Pow(b: nat, n: nat): (r: nat)
    ensures 0 < b ==> 0 < r
  {
    if n == 0 then 1 else b * Pow(b, n - 1)
  }

  lemma {:induction false} PowAdd(b: nat, m: nat, n: nat)
    ensures Pow(b, m + n) == Pow(b, m) * Pow(b, n)
    decreases m
  {
    if m != 0 {
      PowAdd(b, m - 1, n);
      var x, y := Pow(b, m - 1), Pow(b, n);
      assert b * (x * y) == b * x * y;
    }
  }

  lemma {:induction false} PowProduct(x: nat, y: nat, n: nat)
    ensures Pow(x * y, n) == Pow(x, n) * Pow(y, n)
    decreases n
  {
    if n != 0 {
      PowProduct(x, y, n - 1);
      Interchange(x, y, Pow(x, n - 1), Pow(y, n - 1));
    }
  }

  lemma Interchange(x: int, y: int, a: int, b: int)
    ensures x * y * (a * b) == x * a * (y * b)
  {
  }

  lemma PowMonotone(b: nat, m: nat, n: nat)
    requires 0 < b && m <= n
    ensures 0 < Pow(b, m) <= Pow(b, n)
  {
    PowAdd(b, m, n - m);
    MulMonotone(Pow(b, m), 1, Pow(b, m), Pow(b, n - m));
  }

  lemma PowersOfTwo()
    ensures Pow(2, 4) == 0x10 && Pow(2, 8) == 0x100 && Pow(2, 16) == 0x1_0000
    ensures Pow(2, 32) == 0x1_0000_0000 && Pow(2, 64) == 0x1_0000_0000_0000_0000
  {
    assert Pow(2, 1) == 2 && Pow(2, 2) == 4 && Pow(2, 3) == 8 && Pow(2, 4) == 16;
    PowAdd(2, 4, 4);
    PowAdd(2, 8, 8);
    PowAdd(2, 16, 16);
    PowAdd(2, 32, 32);
  }

  lemma PowersOfTen()
    ensures Pow(10, 1) == 10 && Pow(10, 2) == 100 && Pow(10, 4) == 10000 && Pow(10, 8) == 100000000
  {
    assert Pow(10, 1) == 10;
    PowAdd(10, 1, 1);
    PowAdd(10, 2, 2);
    PowAdd(10, 4, 4);
  }

  lemma MulMonotone(a: int, b: int, a': int, b': int)
    requires 0 <= a <= a' && 0 <= b <= b'
    ensures 0 <= a * b <= a' * b'
  {
    assert a * b <= a * b' <= a' * b';
  }

  lemma MulOrder(d: int, a: int, b: int)
    requires 0 < d
    ensures a < b <==> d * a < d * b
    ensures a < b ==> d * a + d <= d * b
  {
    if a < b {
      MulMonotone(d, 1, d, b - a);
      assert d * (b - a) == d * b - d * a;
    } else {
      MulMonotone(d, 0, d, a - b);
      assert d * (a - b) == d * a - d * b;
    }
  }

  lemma QuotientUnique(x: int, d: int, q: int, r: int)
    requires 0 < d && x == d * q + r && 0 <= r < d
    ensures x / d == q && x % d == r
  {
    MulOrder(d, q, x / d);
    MulOrder(d, x / d, q);
  }

  lemma DivideMultiple(a: int, d: int, m: int)
    requires 0 < d
    ensures (a + d * m) / d == a / d + m
  {
    assert a + d * m == d * (a / d + m) + a % d;
    QuotientUnique(a + d * m, d, a / d + m, a % d);
  }
}
