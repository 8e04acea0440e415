/** Powers with any integer exponent, as reals. */
module RealPowers {
  import opened Powers

  /** A power with any integer exponent. */
  function Power(b: nat, e: int): (r: real)
    requires 0 < b
    ensures 0.0 < r
  {
    if 0 <= e then Pow(b, e) as real else 1.0 / Pow(b, -e) as real
  }

  lemma PowerNext(b: nat, e: int)
    requires 0 < b
    ensures Power(b, e + 1) == Power(b, e) * b as real
  {
    if e < 0 {
      var x := Pow(b, -e - 1);
      assert Pow(b, -e) == b * x;
      Cancel(b as real, x as real);
    }
  }

  lemma Cancel(b: real, x: real)
    requires 0.0 < b && 0.0 < x
    ensures 0.0 < b * x && 1.0 / (b * x) * b == 1.0 / x
  {
    var y := 1.0 / (b * x);
    assert y * (b * x) == 1.0;
    assert (y * b) * x == 1.0;
    assert (1.0 / x) * x == 1.0;
  }

  lemma {:induction false} PowerAdd(b: nat, m: int, n: int)
    requires 0 < b
    ensures Power(b, m + n) == Power(b, m) * Power(b, n)
    decreases if n < 0 then -n else n
  {
    hide Power;
    if n == 0 {
      PowerZero(b);
    } else if 0 < n {
      PowerAdd(b, m, n - 1);
      PowerNext(b, m + n - 1);
      PowerNext(b, n - 1);
      Associate(Power(b, m), Power(b, n - 1), b as real);
    } else {
      PowerAdd(b, m, n + 1);
      PowerNext(b, m + n);
      PowerNext(b, n);
      Associate(Power(b, m), Power(b, n), b as real);
      CancelRight(Power(b, m + n), Power(b, m) * Power(b, n), b as real);
    }
  }

  lemma PowerZero(b: nat)
    requires 0 < b
    ensures Power(b, 0) == 1.0 && Power(b, 1) == b as real
  {
  }

  lemma PowerOfNat(b: nat, n: nat)
    requires 0 < b
    ensures Power(b, n) == Pow(b, n) as real
  {
  }

  lemma IntProduct(x: int, y: int)
    ensures (x * y) as real == x as real * y as real
  {
  }

  lemma Associate(x: real, y: real, z: real)
    ensures x * (y * z) == x * y * z
  {
  }

  lemma CancelRight(x: real, y: real, z: real)
    requires x * z == y * z && z != 0.0
    ensures x == y
  {
    assert (x - y) * z == 0.0;
  }

  lemma RealOrder(c: real, a: real, b: real)
    requires 0.0 < c
    ensures a < b <==> a * c < b * c
    ensures a <= b <==> a * c <= b * c
    ensures a * c == c * a && b * c == c * b
  {
    if a < b {
      assert (b - a) * c > 0.0;
    } else if b < a {
      assert (a - b) * c > 0.0;
    }
  }

  /** The same with the products named: the solver would refactor a comparison of two
      products with a common factor. */
  lemma OrderNamed(c: real, a: real, b: real, ac: real, bc: real)
    requires 0.0 < c && ac == a * c && bc == b * c
    ensures a < b <==> ac < bc
    ensures a <= b <==> ac <= bc
  {
    RealOrder(c, a, b);
  }

  lemma Reciprocal(x: real, y: real)
    requires 0.0 < x < y
    ensures 1.0 / y < 1.0 / x
  {
    var a, b := 1.0 / x, 1.0 / y;
    assert a * x == 1.0 && b * y == 1.0;
    RealOrder(x, a, b);
    RealOrder(b, x, y);
  }

  lemma MulNamed(a: real, b: real, c: real, ac: real, bc: real)
    requires a <= b && 0.0 <= c && ac == a * c && bc == b * c
    ensures ac <= bc
  {
  }
}
