/** What digit generation is for: the shortest decimal in an interval. The bounds
    `l` and `u` are fixed-point numbers with unit `w`. */
module Shortest {
  import opened Powers

  /** The decimal `m` times ten to the minus `k` lies in `[l, u]`. */
  ghost predicate Hits(l: int, u: int, w: int, k: nat, m: int) {
    l * Pow(10, k) <= m * w <= u * Pow(10, k)
  }

  /** No decimal with `k` fraction digits lies in `[l, u]`. */
  ghost predicate NoneAt(l: int, u: int, w: int, k: nat) {
    forall m: int :: !Hits(l, u, w, k, m)
  }

  /** A decimal written with fewer fraction digits also has longer spellings. */
  lemma Lengthen(l: int, u: int, w: int, k: nat, j: nat, m: int)
    requires Hits(l, u, w, k, m)
    ensures Hits(l, u, w, k + j, m * Pow(10, j))
  {
    PowAdd(10, k, j);
    ScaleBounds(l, u, w, Pow(10, k), Pow(10, j), m);
  }

  lemma Regroup(a: int, b: int, c: int)
    ensures a * b * c == a * (b * c) == a * c * b
  {
  }

  lemma Scale(x: int, y: int, b: int)
    requires x <= y && 0 <= b
    ensures x * b <= y * b
  {
  }

  lemma ScaleBounds(l: int, u: int, w: int, a: int, b: int, m: int)
    requires l * a <= m * w <= u * a && 0 <= b
    ensures l * (a * b) <= m * b * w <= u * (a * b)
  {
    Scale(l * a, m * w, b);
    Scale(m * w, u * a, b);
    Regroup(l, a, b);
    Regroup(u, a, b);
    Regroup(m, w, b);
  }

  lemma NoneBelow(l: int, u: int, w: int, i: nat, k: nat)
    requires i <= k && NoneAt(l, u, w, k)
    ensures NoneAt(l, u, w, i)
  {
    forall m: int ensures !Hits(l, u, w, i, m) {
      if Hits(l, u, w, i, m) {
        Lengthen(l, u, w, i, k - i, m);
        assert false;
      }
    }
  }

  /** The first `k` fraction digits of `u` make up `n`, and `t` is what they leave. */
  ghost predicate Leaves(u: int, w: int, k: nat, n: int, t: int) {
    n * w + t == u * Pow(10, k) && 0 <= t < w
  }

  /** The stop test: the digits so far denote a number in the interval exactly when
      their remainder is at most the interval's width. */
  lemma StopTest(l: int, u: int, w: int, k: nat, n: int, t: int)
    requires l <= u && Leaves(u, w, k, n, t)
    ensures (u - l) * Pow(10, k) >= t ==> Hits(l, u, w, k, n)
    ensures (u - l) * Pow(10, k) < t ==> NoneAt(l, u, w, k)
  {
    var p := Pow(10, k);
    assert (u - l) * p == u * p - l * p;
    if (u - l) * p < t {
      forall m: int ensures !Hits(l, u, w, k, m) {
        MulOrder(w, n, m);
        MulOrder(w, m, n);
      }
    }
  }

  /** The next `j` digits. */
  lemma MoreDigits(u: int, w: int, k: nat, n: int, t: int, j: nat, d: int, t': int)
    requires Leaves(u, w, k, n, t) && t * Pow(10, j) == d * w + t' && 0 <= t' < w
    ensures Leaves(u, w, k + j, n * Pow(10, j) + d, t')
    ensures 0 <= d < Pow(10, j)
  {
    PowAdd(10, k, j);
    Regroup(u, Pow(10, k), Pow(10, j));
    ScaleRemainder(n, w, t, Pow(10, j), d, t');
    DigitRange(w, t, Pow(10, j), d, t');
  }

  lemma ScaleRemainder(n: int, w: int, t: int, b: int, d: int, t': int)
    requires t * b == d * w + t'
    ensures (n * b + d) * w + t' == (n * w + t) * b
  {
    Regroup(n, w, b);
    assert (n * w + t) * b == n * w * b + t * b;
    assert (n * b + d) * w == n * b * w + d * w;
  }

  lemma DigitRange(w: int, t: int, b: int, d: int, t': int)
    requires 0 < b && 0 <= t < w && t * b == d * w + t' && 0 <= t' < w
    ensures 0 <= d < b
  {
    MulOrder(b, t, w);
    MulOrder(b, -1, t);
    MulOrder(w, d, b);
    MulOrder(w, d, 0);
    assert t * b >= 0;
  }

  /** The shortest decimal: no decimal of at most `k` significant digits, wherever its
      point, lies in the interval. */
  lemma FewestDigits(l: int, u: int, w: int, k: nat, m: nat, j: nat)
    requires 0 < w <= u && 0 < l && (forall i: nat | i < k :: NoneAt(l, u, w, i))
    requires 0 < m < Pow(10, k)
    ensures !Hits(l, u, w, j, m)
  {
    assert 0 < k ==> NoneAt(l, u, w, 0);
    if j < k {
      assert NoneAt(l, u, w, j);
    } else if Hits(l, u, w, j, m) {
      // the decimal is below one, so one itself lies in the interval
      PowMonotone(10, k, j);
      BelowOne(l, w, Pow(10, j), m);
      assert Hits(l, u, w, 0, 1);
      assert false;
    }
  }

  lemma BelowOne(l: int, w: int, p: int, m: int)
    requires 0 < p && 0 <= m <= p && 0 < w && l * p <= m * w
    ensures l <= w
  {
    Scale(m, p, w);
    MulOrder(p, w, l);
  }
}
