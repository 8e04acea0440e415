/** The two scans of the needle (Crochemore and Perrin's maximal suffix). */
module MaximalSuffix {
  import opened Words

  /** The suffix at `i` falls below the suffix at `j` at an index before `lim`. */
  ghost predicate SplitsBefore(rev: bool, x: seq<Byte>, i: nat, j: nat, lim: int) {
    exists e: nat :: i + e < lim && SplitsAt(rev, x, i, j, e)
  }

  /** Every suffix starting inside `x[a..b]` falls below it within it. */
  ghost predicate Lyndon(rev: bool, x: seq<Byte>, a: nat, b: nat) {
    forall i: nat | a < i < b :: SplitsBefore(rev, x, i, a, b)
  }

  /** `x[a..t]` consists of copies of the block `x[a..a+p]`, the last one possibly
      cut short. */
  ghost predicate Blocks(rev: bool, x: seq<Byte>, a: nat, p: nat, t: nat) {
    && 0 < p && a + p <= t <= |x|
    && Lyndon(rev, x, a, a + p)
    && (forall u, v | a <= u && v == u + p && v < t :: x[u] == x[v])
  }

  ghost predicate BeatsEarlier(rev: bool, x: seq<Byte>, a: nat) {
    forall i: nat | i < a :: SuffixLess(rev, x, i, a)
  }

  /** Up to `t`, the suffix at `i` repeats the candidate. */
  ghost predicate Repeats(x: seq<Byte>, a: nat, i: nat, t: nat) {
    a <= i <= t <= |x| && forall u, v | i <= u < t && v == u + (a - i) :: x[u] == x[v]
  }

  /** A suffix at `i` either falls below the candidate before `t`, or repeats it up
      to `t`; then the letter the blocks predict at `t` is at most the candidate's. */
  lemma {:induction false} Compare(rev: bool, x: seq<Byte>, a: nat, p: nat, t: nat, i: nat)
    requires Blocks(rev, x, a, p, t) && a < i <= t
    ensures SplitsBefore(rev, x, i, a, t)
            || (Repeats(x, a, i, t)
                && (x[t - p] == x[t - (i - a)] || Below(rev, x[t - p], x[t - (i - a)])))
    decreases i
  {
    if i < a + p {
      assert SplitsBefore(rev, x, i, a, a + p);
      var e: nat :| i + e < a + p && SplitsAt(rev, x, i, a, e);
      assert i + e < t;
    } else if a + p == i {
      forall m | i <= m < t ensures x[m] == x[m + (a - i)] {
        assert x[m - p] == x[m - p + p];
      }
    } else {
      Compare(rev, x, a, p, t, i - p);
      if SplitsBefore(rev, x, i - p, a, t) {
        var e: nat :| i - p + e < t && SplitsAt(rev, x, i - p, a, e);
        CompareOneBlockOn(rev, x, a, p, t, i, e);
      } else {
        forall u, v | i <= u < t && v == u + (a - i) ensures x[u] == x[v] {
          assert x[u] == x[u - p] && x[u - p] == x[v];
        }
      }
    }
  }

  /** A split of the suffix one block earlier carries over, as far as `t` allows. */
  lemma CompareOneBlockOn(rev: bool, x: seq<Byte>, a: nat, p: nat, t: nat, i: nat, e: nat)
    requires Blocks(rev, x, a, p, t) && a + p < i <= t && i - p + e < t && SplitsAt(rev, x, i - p, a, e)
    ensures if i + e < t then SplitsAt(rev, x, i, a, e)
            else Repeats(x, a, i, t) && (x[t - p] == x[t - (i - a)] || Below(rev, x[t - p], x[t - (i - a)]))
  {
    forall u, v | i <= u < i + e && u < t && v == u + (a - i) ensures x[u] == x[v] {
      assert x[u] == x[u - p] && x[u - p] == x[v];
    }
  }

  /** A smaller letter makes all of `x[a..t+1]` one block. */
  lemma SmallerLetter(rev: bool, x: seq<Byte>, a: nat, p: nat, t: nat)
    requires Blocks(rev, x, a, p, t) && t < |x| && Below(rev, x[t], x[t - p])
    ensures Blocks(rev, x, a, t + 1 - a, t + 1)
  {
    var t' := t + 1;
    forall i: nat | a < i < t' ensures SplitsBefore(rev, x, i, a, t') {
      Compare(rev, x, a, p, t, i);
      if SplitsBefore(rev, x, i, a, t) {
        var e: nat :| i + e < t && SplitsAt(rev, x, i, a, e);
        assert i + e < t';
      } else {
        assert SplitsAt(rev, x, i, a, t - i);
      }
    }
  }

  /** A greater letter beats the candidate and every suffix before the last copy at `b`. */
  lemma GreaterLetter(rev: bool, x: seq<Byte>, a: nat, p: nat, b: nat, t: nat, i: nat)
    requires Blocks(rev, x, a, p, t) && a < b <= t < b + p && t < |x| && Repeats(x, a, b, t)
    requires x[a + (t - b)] == x[t - p] && Below(rev, x[t - p], x[t]) && a <= i < b
    ensures SuffixLess(rev, x, i, b)
  {
    forall m | a <= m < a + (t - b) ensures x[m] == x[m + (b - a)] {
      assert x[m + (b - a)] == x[m + (b - a) + (a - b)];
    }
    assert SplitsAt(rev, x, a, b, t - b);
    if a < i {
      Compare(rev, x, a, p, t, i);
      if SplitsBefore(rev, x, i, a, t) {
        SuffixLessTransitive(rev, x, i, a, b);
      } else {
        forall m | i <= m < i + (t - b) ensures x[m] == x[m + (b - i)] {
          assert x[m + (b - i)] == x[m + (b - i) + (a - b)];
          assert x[m] == x[m + (a - i)];
        }
        assert x[i + (t - b)] == x[i + (t - b) + (a - i)];
        assert SplitsAt(rev, x, i, b, t - b);
      }
    }
  }

  /** When the blocks reach the end, the candidate beats every later suffix and no
      shorter period generates it. */
  lemma ScanDone(rev: bool, x: seq<Byte>, a: nat, p: nat)
    requires Blocks(rev, x, a, p, |x|) && BeatsEarlier(rev, x, a)
    ensures MaxSuffix(rev, x, a) && LeastPeriodFrom(x, a, p)
  {
    forall i: nat | i < |x| && i != a ensures SuffixLess(rev, x, i, a) {
      if a < i {
        Compare(rev, x, a, p, |x|, i);
        if !SplitsBefore(rev, x, i, a, |x|) {
          assert SplitsAt(rev, x, i, a, |x| - i);
        }
      }
    }
    forall q | 0 < q < p ensures !PeriodFrom(x, a, q) {
      assert SplitsBefore(rev, x, a + q, a, a + p);
      var e: nat :| a + q + e < a + p && SplitsAt(rev, x, a + q, a, e);
      assert x[a + e] != x[a + e + q];
    }
  }

  /** The state of the scan: the candidate starts after `ip`, and `k - 1` letters of
      the copy of the block that starts after `jp` have been read. */
  ghost predicate Scanning(rev: bool, x: seq<Byte>, ip: int, jp: int, k: nat, p: nat) {
    && -1 <= ip < jp && 1 <= k <= p <= jp - ip && jp + k <= |x|
    && Blocks(rev, x, ip + 1, p, jp + k)
    && Repeats(x, ip + 1, jp + 1, jp + k)
    && Repeats(x, ip + 1, jp + 1 - p, jp + 1)
    && BeatsEarlier(rev, x, ip + 1)
  }

  /** The letter compared is the one the blocks predict. */
  lemma Predicted(rev: bool, x: seq<Byte>, ip: int, jp: int, k: nat, p: nat)
    requires Scanning(rev, x, ip, jp, k, p)
    ensures x[ip + k] == x[jp + k - p]
  {
    assert x[jp + k - p] == x[jp + k - p + (ip + 1 - (jp + 1 - p))];
  }

  lemma ScanStart(rev: bool, x: seq<Byte>)
    requires 0 < |x|
    ensures Scanning(rev, x, -1, 0, 1, 1)
  {
  }

  lemma ReadEqual(rev: bool, x: seq<Byte>, ip: int, jp: int, k: nat, p: nat)
    requires Scanning(rev, x, ip, jp, k, p) && jp + k < |x| && x[ip + k] == x[jp + k]
    ensures k == p ==> Scanning(rev, x, ip, jp + p, 1, p)
    ensures k < p ==> Scanning(rev, x, ip, jp, k + 1, p)
  {
    Predicted(rev, x, ip, jp, k, p);
  }

  lemma ReadSmaller(rev: bool, x: seq<Byte>, ip: int, jp: int, k: nat, p: nat)
    requires Scanning(rev, x, ip, jp, k, p) && jp + k < |x| && Below(rev, x[jp + k], x[ip + k])
    ensures Scanning(rev, x, ip, jp + k, 1, jp + k - ip)
  {
    Predicted(rev, x, ip, jp, k, p);
    SmallerLetter(rev, x, ip + 1, p, jp + k);
  }

  lemma ReadGreater(rev: bool, x: seq<Byte>, ip: int, jp: int, k: nat, p: nat)
    requires Scanning(rev, x, ip, jp, k, p) && jp + k < |x| && Below(rev, x[ip + k], x[jp + k])
    ensures Scanning(rev, x, jp, jp + 1, 1, 1)
  {
    Predicted(rev, x, ip, jp, k, p);
    var b := jp + 1;
    forall i: nat | i < b ensures SuffixLess(rev, x, i, b) {
      GreaterLetter(rev, x, ip + 1, p, b, jp + k, if i < ip + 1 then ip + 1 else i);
      if i < ip + 1 { SuffixLessTransitive(rev, x, i, ip + 1, b); }
    }
  }

  /** One scan: `n[ip+1..]` is the greatest suffix of the needle and `p` its least period. */
  method Scan(n: seq<Byte>, rev: bool) returns (ip: int, p: nat)
    requires 0 < |n|
    ensures -1 <= ip && MaxSuffix(rev, n, ip + 1) && LeastPeriodFrom(n, ip + 1, p)
  {
    hide Scanning, MaxSuffix, LeastPeriodFrom;
    var jp, k := 0, 1;
    ip, p := -1, 1;
    ScanStart(rev, n);
    while jp + k < |n|
      invariant -1 <= ip < jp && 1 <= k <= p <= jp - ip && jp + k <= |n|
      invariant Scanning(rev, n, ip, jp, k, p)
      decreases |n| - ip, |n| - (jp + k)
    {
      if n[ip + k] == n[jp + k] {
        ReadEqual(rev, n, ip, jp, k, p);
        if k == p {
          jp := jp + p;
          k := 1;
        } else {
          k := k + 1;
        }
      } else if Below(rev, n[jp + k], n[ip + k]) {
        ReadSmaller(rev, n, ip, jp, k, p);
        jp := jp + k;
        k := 1;
        p := jp - ip;
      } else {
        ReadGreater(rev, n, ip, jp, k, p);
        ip := jp;
        jp := jp + 1;
        k := 1;
        p := 1;
      }
    }
    ScanEnd(rev, n, ip, jp, k, p);
  }

  lemma ScanEnd(rev: bool, x: seq<Byte>, ip: int, jp: int, k: nat, p: nat)
    requires Scanning(rev, x, ip, jp, k, p) && jp + k == |x|
    ensures -1 <= ip && MaxSuffix(rev, x, ip + 1) && LeastPeriodFrom(x, ip + 1, p)
  {
    ScanDone(rev, x, ip + 1, p);
  }
}
