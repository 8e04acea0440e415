/** The critical factorization argument behind the two-way search. */
module CriticalFactorization {
  import opened Words

  /** At the later of the two maximal suffixes only periods of the whole word
      repeat, and they are longer than the part to the left. */
  lemma CriticalPosition(rev: bool, x: seq<Byte>, c: nat, c': nat, s: nat)
    requires MaxSuffix(rev, x, c) && MaxSuffix(!rev, x, c') && c' <= c
    requires 0 < s && LocalRepetition(x, c, s)
    ensures c < s && PeriodFrom(x, 0, s)
  {
    if s <= c {
      RepetitionMovesRight(rev, x, c, s);
      SuffixLessAsymmetric(rev, x, c, c + s);
      assert false;
    } else if c + s < |x| {
      RepetitionIsPeriod(rev, x, c, c', s);
    }
  }

  /** A repetition inside the left part would make `x[c..]` smaller than a suffix
      further right. */
  lemma RepetitionMovesRight(rev: bool, x: seq<Byte>, c: nat, s: nat)
    requires 0 < s <= c && LocalRepetition(x, c, s) && SuffixLess(rev, x, c - s, c)
    ensures c + s < |x| && SuffixLess(rev, x, c, c + s)
  {
    var e: nat :| SplitsAt(rev, x, c - s, c, e);
    assert s <= e;
    assert SplitsAt(rev, x, c, c + s, e - s);
  }

  lemma RepetitionIsPeriod(rev: bool, x: seq<Byte>, c: nat, c': nat, s: nat)
    requires MaxSuffix(rev, x, c) && MaxSuffix(!rev, x, c') && c' <= c < s && c + s < |x|
    requires LocalRepetition(x, c, s)
    ensures PeriodFrom(x, 0, s)
  {
    assert SuffixLess(rev, x, c + s, c);
    assert SuffixLess(!rev, x, c' + s, c');
    var e: nat :| SplitsAt(rev, x, c + s, c, e);
    var f: nat :| SplitsAt(!rev, x, c' + s, c', f);
    forall j | c <= j < c + e ensures x[j] == x[j + s] {
      assert x[j + s] == x[j + s + (c - (c + s))];
    }
    if c + e + s < |x| {
      SplitIsFirstBreak(!rev, x, c', s, f, c + e);
      assert false;
    }
  }

  /** The place where `x[c + s..]` and `x[c..]` split is the first to break the period `s`. */
  lemma SplitIsFirstBreak(rev: bool, x: seq<Byte>, c: nat, s: nat, e: nat, m: nat)
    requires SplitsAt(rev, x, c + s, c, e)
    requires c <= m < |x| - s && x[m] != x[m + s] && forall j | c <= j < m :: x[j] == x[j + s]
    ensures c + e == m && Below(rev, x[m + s], x[m])
  {
  }

  /** If the least period `p` of the right part does not extend to the whole
      word, no period of the whole word is as short as the right part. */
  lemma LongPeriod(rev: bool, x: seq<Byte>, c: nat, c': nat, p: nat, s: nat)
    requires MaxSuffix(rev, x, c) && MaxSuffix(!rev, x, c') && c' <= c
    requires LeastPeriodFrom(x, c, p)
    requires 0 < s <= |x| - c && PeriodFrom(x, 0, s)
    ensures PeriodFrom(x, 0, p) && x[..c] == x[p..p + c]
  {
    CriticalPosition(rev, x, c, c', s);
    assert p <= s by { assert PeriodFrom(x, c, s); }
    var q, r := s / p, s % p;
    if r != 0 {
      RemainderRepeats(x, c, p, s, q, r);
      CriticalPosition(rev, x, c, c', r);
      assert PeriodFrom(x, c, r);
      assert false;
    }
    ShorterPeriod(x, c, p, s, q);
  }

  lemma RemainderRepeats(x: seq<Byte>, c: nat, p: nat, s: nat, q: nat, r: nat)
    requires PeriodFrom(x, c, p) && PeriodFrom(x, 0, s) && c < s <= |x| - c
    requires s == q * p + r && r < p
    ensures LocalRepetition(x, c, r)
  {
    forall i, j | 0 <= i && c - r <= i < c && j == i + r && j < |x| ensures x[i] == x[j] {
      assert x[i] == x[i + s];
      PeriodMultiple(x, c, p, q, j);
    }
  }

  lemma ShorterPeriod(x: seq<Byte>, c: nat, p: nat, s: nat, q: nat)
    requires c < s <= |x| - c && PeriodFrom(x, 0, s)
    requires 0 < p && PeriodFrom(x, c, p) && s == q * p
    ensures PeriodFrom(x, 0, p)
  {
    assert 0 < q;
    assert (q - 1) * p == s - p;
    forall j | 0 <= j < |x| - p ensures x[j] == x[j + p] {
      if j < c {
        assert x[j] == x[j + s];
        if c <= j + p {
          PeriodMultiple(x, c, p, q - 1, j + p);
        } else {
          assert x[j + p] == x[j + p + s];
          assert x[j + s] == x[j + s + p];
        }
      }
    }
  }
}
