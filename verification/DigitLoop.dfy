/** The digit loops as one state machine: the digits so far, the remainder they leave of
    the upper end, and the interval's width at their scale. Digits taken in chunks are
    compared with digits taken one at a time. */
module DigitLoop {
  import opened Powers
  import opened DigitText
  import opened Format
  import opened Shortest

  /** The digits so far, the remainder they leave and the interval's width at their scale. */
  datatype State = State(digits: seq<char>, t: int, delta: int)

  predicate Running(s: State, w: int) { 0 < w && 0 <= s.t < w && 0 < s.delta }

  lemma DigitBound(t: int, w: int, m: int)
    requires 0 <= t < w && 0 < m
    ensures 0 <= t * m / w < m
  {
    MulOrder(m, t, w);
    MulMonotone(t, m, w, m);
    DigitRange(w, t, m, t * m / w, t * m % w);
  }

  /** One digit more. */
  function Step(s: State, w: int): (r: State)
    requires Running(s, w)
    ensures Running(r, w)
  {
    DigitBound(s.t, w, 10);
    State(s.digits + [DigitChar(s.t * 10 / w)], s.t * 10 % w, s.delta * 10)
  }

  /** The reference: one digit at a time until the remainder is within the width. */
  function OneByOne(s: State, w: int): (r: State)
    requires Running(s, w)
    ensures Running(r, w) && r.t <= r.delta && |s.digits| <= |r.digits|
    decreases if s.delta < w then w - s.delta else 0
  {
    if s.delta < s.t then OneByOne(Step(s, w), w) else s
  }

  /** The number `n` in `j` digits. */
  function Spell(n: nat, j: nat): (ds: seq<char>)
    ensures |ds| == j
  {
    if j == 0 then [] else Spell(n / 10, j - 1) + [DigitChar(n % 10)]
  }

  /** `j` digits more at once. */
  function Chunk(s: State, w: int, j: nat): (r: State)
    requires Running(s, w)
    ensures Running(r, w)
  {
    DigitBound(s.t, w, Pow(10, j));
    MulMonotone(1, 1, s.delta, Pow(10, j));
    State(s.digits + Spell(s.t * Pow(10, j) / w, j), s.t * Pow(10, j) % w, s.delta * Pow(10, j))
  }

  lemma ChunkNone(s: State, w: int)
    requires Running(s, w)
    ensures Chunk(s, w, 0) == s
  {
    assert Pow(10, 0) == 1 && s.t * 1 == s.t && s.delta * 1 == s.delta;
    QuotientUnique(s.t, w, 0, s.t);
    assert s.digits + [] == s.digits;
  }

  /** A chunk of `j + 1` digits is a chunk of `j` and one more digit. */
  lemma ChunkNext(s: State, w: int, j: nat)
    requires Running(s, w)
    ensures Chunk(s, w, j + 1) == Step(Chunk(s, w, j), w)
  {
    hide Chunk, Step, Pow, Spell;
    var q, r := Divided(s.t * Pow(10, j), w);
    ChunkIs(s, w, j, q, r);
    var d, r' := StepParts(Chunk(s, w, j), w);
    Carry(s.t * Pow(10, j), w, q, r, d, r');
    OneMorePower(s.t, j);
    OneMorePower(s.delta, j);
    ChunkIs(s, w, j + 1, 10 * q + d, r');
    SpellNext(q, d, j);
    assert s.digits + (Spell(q, j) + [DigitChar(d)]) == s.digits + Spell(q, j) + [DigitChar(d)];
  }

  lemma OneMorePower(x: int, j: nat)
    ensures x * Pow(10, j) * 10 == x * Pow(10, j + 1)
  {
    Regroup(x, Pow(10, j), 10);
  }

  lemma Carry(x: int, w: int, q: int, r: int, d: int, r': int)
    requires x == q * w + r && r * 10 == d * w + r'
    ensures x * 10 == (10 * q + d) * w + r'
  {
    Regroup(q, w, 10);
    assert (10 * q + d) * w == 10 * q * w + d * w;
  }

  lemma SpellNext(q: nat, d: nat, j: nat)
    requires d < 10
    ensures Spell(10 * q + d, j + 1) == Spell(q, j) + [DigitChar(d)]
  {
    assert (10 * q + d) / 10 == q && (10 * q + d) % 10 == d;
  }

  /** Once the remainder is within the width it stays there. */
  lemma StopsStay(s: State, w: int)
    requires Running(s, w) && s.t <= s.delta
    ensures Step(s, w).t <= Step(s, w).delta
  {
    DigitBound(s.t, w, 10);
    MulMonotone(0, 0, s.t * 10 / w, w);
  }

  /** A chunk before whose last digit the remainder exceeds the width is part of the
      reference's output: same digits, same remainder, same width. */
  lemma {:induction false} ChunkRuns(s: State, w: int, j: nat)
    requires Running(s, w) && (j == 0 || Chunk(s, w, j - 1).delta < Chunk(s, w, j - 1).t)
    ensures OneByOne(s, w) == OneByOne(Chunk(s, w, j), w)
  {
    if j == 0 {
      ChunkNone(s, w);
    } else {
      ChunkNext(s, w, j - 1);
      if j > 1 {
        ChunkNext(s, w, j - 2);
        if Chunk(s, w, j - 2).t <= Chunk(s, w, j - 2).delta {
          StopsStay(Chunk(s, w, j - 2), w);
        }
      }
      hide Chunk;
      ChunkRuns(s, w, j - 1);
    }
  }

  /** The same when even the chunk's last digit leaves a remainder beyond the width. */
  lemma ChunkRunsOn(s: State, w: int, j: nat)
    requires Running(s, w) && Chunk(s, w, j).delta < Chunk(s, w, j).t
    ensures OneByOne(s, w) == OneByOne(Chunk(s, w, j), w)
  {
    hide Chunk;
    if j > 0 {
      ChunkNext(s, w, j - 1);
      if Chunk(s, w, j - 1).t <= Chunk(s, w, j - 1).delta {
        StopsStay(Chunk(s, w, j - 1), w);
      }
    }
    ChunkRuns(s, w, j);
  }

  // ---- what the digits have to do with the interval ----

  lemma Unfold(s: State, w: int)
    requires Running(s, w) && s.delta < s.t
    ensures OneByOne(s, w) == OneByOne(Step(s, w), w)
    ensures Step(s, w).delta == s.delta * 10 && |Step(s, w).digits| == |s.digits| + 1 && s.delta < w
  {
  }

  /** Started from digits of `u`, the loop ends with digits of `u`; the width has been scaled
      along, and the last digit taken outweighs it. */
  lemma {:induction false} Follows(s: State, w: int, u: int, k: nat)
    requires Running(s, w) && AllDigits(s.digits) && Leaves(u, w, k, Numeral(s.digits), s.t)
    ensures var r := OneByOne(s, w); var more := |r.digits| - |s.digits|;
      && AllDigits(r.digits) && Leaves(u, w, k + more, Numeral(r.digits), r.t) && r.delta == s.delta * Pow(10, more)
      && (0 < more ==> r.delta < DigitOf(r.digits[|r.digits| - 1]) * w + r.t)
    decreases if s.delta < w then w - s.delta else 0
  {
    hide Leaves, Numeral, AllDigits, OneByOne, Step, Pow;
    if s.delta < s.t {
      Unfold(s, w);
      FollowsOne(s, w, u, k);
      var n := Step(s, w);
      NoMore(n, w);
      Follows(n, w, u, k + 1);
      ScaledOnce(s.delta, |OneByOne(s, w).digits| - |s.digits|);
    } else {
      Stops(s, w);
      ScaledNone(s.delta);
    }
  }

  lemma ScaledOnce(delta: int, more: nat)
    requires 0 < more
    ensures delta * 10 * Pow(10, more - 1) == delta * Pow(10, more)
  {
    Regroup(delta, 10, Pow(10, more - 1));
  }

  lemma ScaledNone(delta: int)
    ensures delta * Pow(10, 0) == delta
  {
    assert Pow(10, 0) == 1;
  }

  lemma NoMore(s: State, w: int)
    requires Running(s, w)
    ensures |OneByOne(s, w).digits| == |s.digits| ==> OneByOne(s, w) == s
  {
    if s.delta < s.t { Unfold(s, w); }
  }

  /** One step, with its digit and remainder named. */
  lemma StepParts(s: State, w: int) returns (d: nat, r: int)
    requires Running(s, w)
    ensures d < 10 && s.t * 10 == d * w + r && 0 <= r < w
    ensures Step(s, w) == State(s.digits + [DigitChar(d)], r, s.delta * 10)
  {
    DigitBound(s.t, w, 10);
    d, r := s.t * 10 / w, s.t * 10 % w;
  }

  lemma FollowsOne(s: State, w: int, u: int, k: nat)
    requires Running(s, w) && AllDigits(s.digits) && Leaves(u, w, k, Numeral(s.digits), s.t) && s.delta < s.t
    ensures var n := Step(s, w);
      && AllDigits(n.digits) && Leaves(u, w, k + 1, Numeral(n.digits), n.t)
      && n.delta < DigitOf(n.digits[|n.digits| - 1]) * w + n.t
  {
    hide Leaves, Numeral, Step, Pow;
    var d, r := StepParts(s, w);
    PowersOfTen();
    MoreDigits(u, w, k, Numeral(s.digits), s.t, 1, d, r);
    NumeralAppend(s.digits, DigitChar(d));
  }

  /** As long as the loop runs on, no decimal with that many digits lies in the interval. */
  lemma {:induction false} OneByOneShortest(s: State, w: int, l: int, u: int, k: nat)
    requires Running(s, w) && l < u && AllDigits(s.digits)
    requires Leaves(u, w, k, Numeral(s.digits), s.t) && s.delta == (u - l) * Pow(10, k)
    ensures var r := OneByOne(s, w); var more := |r.digits| - |s.digits|;
      Hits(l, u, w, k + more, Numeral(r.digits)) && (0 < more ==> NoneAt(l, u, w, k + more - 1))
    decreases if s.delta < w then w - s.delta else 0
  {
    hide Leaves, Numeral, AllDigits, NoneAt, Hits, OneByOne, Step, Pow;
    StopTest(l, u, w, k, Numeral(s.digits), s.t);
    if s.delta < s.t {
      Unfold(s, w);
      FollowsOne(s, w, u, k);
      OneMorePower(u - l, k);
      NoMore(Step(s, w), w);
      OneByOneShortest(Step(s, w), w, l, u, k + 1);
    } else {
      Stops(s, w);
    }
  }

  /** Started from the integer part of the upper end, as the loops of binary32 and
      binary64 are: the digits lie in the interval and no fewer would. */
  lemma LoopsShortest(l: int, u: int, w: int, ds: seq<char>)
    requires 0 < w && 0 <= l < u && Numeral(ds) == u / w && AllDigits(ds)
    ensures var r := OneByOne(State(ds, u % w, u - l), w); var k := |r.digits| - |ds|;
      Hits(l, u, w, k, Numeral(r.digits)) && forall i: nat | i < k :: NoneAt(l, u, w, i)
  {
    var s := State(ds, u % w, u - l);
    StartLeaves(l, u, w, Numeral(ds));
    hide Leaves, Numeral, AllDigits, Hits, NoneAt, OneByOne;
    OneByOneShortest(s, w, l, u, 0);
    var k := |OneByOne(s, w).digits| - |ds|;
    forall i: nat | i < k ensures NoneAt(l, u, w, i) {
      NoneBelow(l, u, w, i, k - 1);
    }
  }

  lemma StartLeaves(l: int, u: int, w: int, n: int)
    requires 0 < w && n == u / w
    ensures Leaves(u, w, 0, n, u % w) && (u - l) * Pow(10, 0) == u - l
  {
    assert Pow(10, 0) == 1 && u * 1 == u && (u - l) * 1 == u - l;
  }

  /** A width that covers the unit after `j` more digits ends the loop by then. */
  lemma {:induction false} EndsWithin(s: State, w: int, j: nat)
    requires Running(s, w) && w <= s.delta * Pow(10, j)
    ensures |OneByOne(s, w).digits| <= |s.digits| + j
    decreases j
  {
    if j == 0 {
      assert Pow(10, 0) == 1;
    } else if s.delta < s.t {
      Regroup(s.delta, 10, Pow(10, j - 1));
      EndsWithin(Step(s, w), w, j - 1);
    }
  }

  /** A chunk from the first digit on leaves what its digits leave. */
  lemma ChunkLeaves(l: int, u: int, w: int, s: State, k: nat)
    requires Running(s, w) && Leaves(u, w, 0, Numeral(s.digits), s.t) && s.delta == u - l
    ensures var c := Chunk(s, w, k);
      Leaves(u, w, k, Numeral(c.digits), c.t) && c.delta == (u - l) * Pow(10, k)
  {
    hide Pow, Numeral, Leaves, Chunk;
    var n, r := Divided(s.t * Pow(10, k), w);
    ChunkIs(s, w, k, n, r);
    MoreDigits(u, w, 0, Numeral(s.digits), s.t, k, n, r);
    SpellReads(n, k);
    NumeralConcat(s.digits, Spell(n, k));
  }

  lemma Divided(x: int, w: int) returns (n: int, r: int)
    requires 0 < w
    ensures x == n * w + r && 0 <= r < w
  {
    n, r := x / w, x % w;
  }

  lemma ChunkIs(s: State, w: int, k: nat, n: int, r: int)
    requires Running(s, w) && s.t * Pow(10, k) == n * w + r && 0 <= r < w
    ensures 0 <= n < Pow(10, k) && Chunk(s, w, k) == State(s.digits + Spell(n, k), r, s.delta * Pow(10, k))
  {
    DigitRange(w, s.t, Pow(10, k), n, r);
    QuotientUnique(s.t * Pow(10, k), w, n, r);
  }

  lemma {:induction false} SpellReads(n: nat, j: nat)
    requires n < Pow(10, j)
    ensures Numeral(Spell(n, j)) == n && AllDigits(Spell(n, j))
  {
    if j > 0 {
      SpellReads(n / 10, j - 1);
      NumeralAppend(Spell(n / 10, j - 1), DigitChar(n % 10));
    }
  }

  lemma {:induction false} SpellUnique(ds: seq<char>)
    requires AllDigits(ds)
    ensures ds == Spell(Numeral(ds), |ds|)
    decreases |ds|
  {
    if ds != [] {
      var n := |ds| - 1;
      SpellUnique(ds[..n]);
      SpellNext(Numeral(ds[..n]), DigitOf(ds[n]), n);
      assert IsDigit(ds[n]) && DigitChar(DigitOf(ds[n])) == ds[n];
      assert ds == ds[..n] + [ds[n]];
    }
  }

  lemma SpellPair(n: nat)
    requires n < 100
    ensures Spell(n, 2) == Pair(n)
  {
    assert Spell(n / 10, 1) == [DigitChar(n / 10)];
  }

  lemma Longer(s: State, w: int)
    requires Running(s, w)
    ensures |s.digits| <= |OneByOne(s, w).digits|
  {
  }

  lemma Stops(s: State, w: int)
    requires Running(s, w) && s.t <= s.delta
    ensures OneByOne(s, w) == s
  {
  }

  lemma SpellFour(n: nat)
    requires n < 10000
    ensures Spell(n, 4) == Pair(n / 100) + Pair(n % 100)
  {
    SpellPair(n / 100);
    SpellPair(n % 100);
    PowersOfTen();
    SpellSplit(n / 100, n % 100, 2);
  }

  /** The digits of a number are those of its high part and those of its low part. */
  lemma {:induction false} SpellSplit(a: nat, b: nat, j: nat)
    requires b < Pow(10, j)
    ensures Spell(a * Pow(10, j) + b, j + j) == Spell(a, j) + Spell(b, j)
  {
    SpellConcat(a, b, j, j);
  }

  lemma TenTimes(a: nat, j: nat, b: nat)
    requires 0 < j && b < Pow(10, j)
    ensures b / 10 < Pow(10, j - 1)
    ensures a * Pow(10, j) + b == 10 * (a * Pow(10, j - 1) + b / 10) + b % 10
  {
    Horner(a, Pow(10, j - 1), b / 10, b % 10);
  }

  lemma SpellNone(a: nat, b: nat, i: nat)
    requires b < Pow(10, 0)
    ensures Spell(a * Pow(10, 0) + b, i + 0) == Spell(a, i) + Spell(b, 0)
  {
    assert Pow(10, 0) == 1 && a * 1 == a;
    assert Spell(a, i) + [] == Spell(a, i);
  }

  lemma {:induction false} SpellConcat(a: nat, b: nat, i: nat, j: nat)
    requires b < Pow(10, j)
    ensures Spell(a * Pow(10, j) + b, i + j) == Spell(a, i) + Spell(b, j)
    decreases j
  {
    hide Pow, Spell;
    if j == 0 {
      SpellNone(a, b, i);
    } else {
      TenTimes(a, j, b);
      SpellNext(a * Pow(10, j - 1) + b / 10, b % 10, i + j - 1);
      SpellNext(b / 10, b % 10, j - 1);
      SpellConcat(a, b / 10, i, j - 1);
      AppendLast(Spell(a, i), Spell(b / 10, j - 1), DigitChar(b % 10));
    }
  }

  lemma AppendLast(x: seq<char>, y: seq<char>, c: char)
    ensures x + (y + [c]) == x + y + [c]
  {
  }
}
