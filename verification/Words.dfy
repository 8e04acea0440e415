/** Words over bytes: occurrences, periods, and the two lexicographic orders on
    suffixes that the substring search relies on. */
module Words {

  newtype Byte = x: int | 0 <= x < 256

  /** The needle `n` occurs in `h` at index `i`. */
  ghost predicate OccursAt(h: seq<Byte>, n: seq<Byte>, i: int) {
    0 <= i && i + |n| <= |h| && forall j | 0 <= j < |n| :: h[i + j] == n[j]
  }

  /** `i` is the first index at or after `from` where `n` occurs. */
  ghost predicate IsFirst(h: seq<Byte>, n: seq<Byte>, from: int, i: int) {
    from <= i && OccursAt(h, n, i) && forall j | from <= j < i :: !OccursAt(h, n, j)
  }

  ghost predicate NoneFrom(h: seq<Byte>, n: seq<Byte>, from: int) {
    forall j | from <= j :: !OccursAt(h, n, j)
  }

  /** `s` is a period of `x[from..]`. */
  ghost predicate PeriodFrom(x: seq<Byte>, from: nat, s: nat) {
    forall i, j | from <= i && j == i + s && j < |x| :: x[i] == x[j]
  }

  /** `p` is the least period of `x[from..]`. */
  ghost predicate LeastPeriodFrom(x: seq<Byte>, from: nat, p: nat) {
    && 0 < p <= |x| - from && PeriodFrom(x, from, p)
    && forall q | 0 < q < p :: !PeriodFrom(x, from, q)
  }

  /** `s` is the length of a repetition centred at position `c` of `x`; letters
      that would fall outside `x` on either side are not compared. */
  ghost predicate LocalRepetition(x: seq<Byte>, c: nat, s: nat) {
    forall i, j | 0 <= i && c - s <= i < c && j == i + s && j < |x| :: x[i] == x[j]
  }

  /** The comparison of one scan, or of the other one when `rev`. */
  predicate Below(rev: bool, a: Byte, b: Byte) {
    if rev then b < a else a < b
  }

  /** `x[i..]` and `x[j..]` agree on `e` letters, after which `x[i..]` has ended
      or has a smaller letter. */
  ghost predicate SplitsAt(rev: bool, x: seq<Byte>, i: nat, j: nat, e: nat) {
    && i + e <= |x| && j + e < |x|
    && (forall u, v | i <= u < i + e && v == u + (j - i) :: x[u] == x[v])
    && (i + e == |x| || Below(rev, x[i + e], x[j + e]))
  }

  /** `x[i..]` is lexicographically smaller than `x[j..]`. */
  ghost predicate SuffixLess(rev: bool, x: seq<Byte>, i: nat, j: nat) {
    exists e: nat :: SplitsAt(rev, x, i, j, e)
  }

  /** `x[c..]` is the greatest suffix of `x`. */
  ghost predicate MaxSuffix(rev: bool, x: seq<Byte>, c: nat) {
    c < |x| && forall i: nat | i < |x| && i != c :: SuffixLess(rev, x, i, c)
  }

  lemma SuffixLessTransitive(rev: bool, x: seq<Byte>, i: nat, j: nat, k: nat)
    requires SuffixLess(rev, x, i, j) && SuffixLess(rev, x, j, k)
    ensures SuffixLess(rev, x, i, k)
  {
    var e: nat :| SplitsAt(rev, x, i, j, e);
    var f: nat :| SplitsAt(rev, x, j, k, f);
    if e < f {
      AgreeTransitive(rev, x, i, j, k, e, f, e);
      assert SplitsAt(rev, x, i, k, e);
    } else {
      AgreeTransitive(rev, x, i, j, k, e, f, f);
      assert SplitsAt(rev, x, i, k, f);
    }
  }

  lemma AgreeTransitive(rev: bool, x: seq<Byte>, i: nat, j: nat, k: nat, e: nat, f: nat, g: nat)
    requires SplitsAt(rev, x, i, j, e) && SplitsAt(rev, x, j, k, f) && g <= e && g <= f
    ensures forall u, v | i <= u < i + g && v == u + (k - i) :: x[u] == x[v]
  {
    forall u, v | i <= u < i + g && v == u + (k - i) ensures x[u] == x[v] {
      var w := u + (j - i);
      assert x[u] == x[w] && x[w] == x[v];
    }
  }

  lemma SuffixLessAsymmetric(rev: bool, x: seq<Byte>, i: nat, j: nat)
    requires SuffixLess(rev, x, i, j)
    ensures !SuffixLess(rev, x, j, i)
  {
    var e: nat :| SplitsAt(rev, x, i, j, e);
    forall f: nat ensures !SplitsAt(rev, x, j, i, f) {
      if f < e {
        assert x[i + f] == x[i + f + (j - i)];
      } else if e < f && i + e < |x| {
        assert x[j + e] != x[j + e + (i - j)];
      }
    }
  }

  /** A period may be taken any number of times. */
  lemma {:induction false} PeriodMultiple(x: seq<Byte>, from: nat, s: nat, q: nat, j: nat)
    requires PeriodFrom(x, from, s) && from <= j && j + q * s < |x|
    ensures x[j] == x[j + q * s]
    decreases q
  {
    if q != 0 {
      assert j + s + (q - 1) * s == j + q * s;
      assert (q - 1) * s >= 0;
      PeriodMultiple(x, from, s, q - 1, j + s);
    }
  }
}
