/** The digit loops of the narrower formats: binary32 takes two digits at a time, binary64
    eight at once. Both give what taking them one at a time gives. */
module Chunks {
  import opened Powers
  import opened DigitText
  import opened Format
  import opened Wide
  import opened DigitLoop

  // ---- binary32: two digits at a time ----

  /** The unit: 56 fraction bits in 64. */
  const UNIT32: nat := 0x100_0000_0000_0000

  lemma PairRuns(s: State)
    requires Running(s, UNIT32) && s.delta * 10 < s.t * 10 % UNIT32
    ensures s.t * 100 / UNIT32 < 100
    ensures OneByOne(s, UNIT32) == OneByOne(State(s.digits + Pair(s.t * 100 / UNIT32), s.t * 100 % UNIT32, s.delta * 100), UNIT32)
  {
    PowersOfTen();
    ChunkRuns(s, UNIT32, 2);
    DigitBound(s.t, UNIT32, 100);
    SpellPair(s.t * 100 / UNIT32);
  }

  /** Step 7 of binary32 after the first digit. The digits, remainder and width are those
      of the reference; no product wraps around; it fails exactly when the digits and a
      terminator do not fit. */
  method Binary32Digits(dest: array<char>, p0: nat, t0: nat, delta0: nat,
                        ghost was: seq<char>, ghost first: nat, ghost ds0: seq<char>)
    returns (ok: bool, p: nat, t: nat, delta: nat, ghost ds: seq<char>)
    requires t0 < UNIT32 && 0 < delta0 < 10 * UNIT32
    requires Written(dest, was, first, ds0, p0) && p0 < dest.Length
    modifies dest
    ensures ok <==> first + |OneByOne(State(ds0, t0, delta0), UNIT32).digits| < dest.Length
    ensures ok ==> Written(dest, was, first, ds, p)
    ensures ok ==> State(ds, t, delta) == OneByOne(State(ds0, t0, delta0), UNIT32)
  {
    hide Written, OneByOne;
    WrittenEnd(dest, was, first, ds0, p0);
    p, t, delta, ds := p0, t0, delta0, ds0;
    ghost var all := OneByOne(State(ds0, t0, delta0), UNIT32);
    ghost var more;
    Exact32(t, delta);
    while delta * 10 % B64 < t * 10 % B64 % UNIT32
      invariant t < UNIT32 && 0 < delta < 10 * UNIT32 && OneByOne(State(ds, t, delta), UNIT32) == all
      invariant Written(dest, was, first, ds, p) && p == first + |ds| < dest.Length
      invariant delta * 10 % B64 == delta * 10 && t * 10 % B64 == t * 10 && t * 100 % B64 == t * 100
      invariant delta < UNIT32 ==> delta * 100 % B64 == delta * 100
      decreases dest.Length - p
    {
      PairRuns(State(ds, t, delta));
      more := State(ds + Pair(t * 100 / UNIT32), t * 100 % UNIT32, delta * 100);
      Longer(more, UNIT32);
      if p > dest.Length - 3 {
        return false, 0, 0, 0, [];
      }
      delta := delta * 100 % B64;
      t := t * 100 % B64;
      p := Append(dest, p, Pair(t / UNIT32), was, first, ds);
      t := t % UNIT32;
      ds := more.digits;
      Exact32(t, delta);
    }
    if delta < t {
      LastRuns(State(ds, t, delta));
      more := State(ds + [DigitChar(t * 10 / UNIT32)], t * 10 % UNIT32, delta * 10);
      if p > dest.Length - 2 {
        return false, 0, 0, 0, [];
      }
      delta := delta * 10 % B64;
      t := t * 10 % B64;
      p := Append(dest, p, [DigitChar(t / UNIT32)], was, first, ds);
      t := t % UNIT32;
      ds := more.digits;
    } else {
      Stops(State(ds, t, delta), UNIT32);
    }
    return true, p, t, delta, ds;
  }

  lemma WrittenEnd(dest: array<char>, was: seq<char>, first: nat, text: seq<char>, p: nat)
    requires Written(dest, was, first, text, p)
    ensures p == first + |text|
  {
  }

  /** The products fit in 64 bits. */
  lemma Exact32(t: nat, delta: nat)
    requires t < UNIT32 && delta < 10 * UNIT32
    ensures delta * 10 % B64 == delta * 10 && t * 10 % B64 == t * 10 && t * 100 % B64 == t * 100
    ensures delta < UNIT32 ==> delta * 100 % B64 == delta * 100
  {
  }

  /** The products fit in 128 bits. */
  lemma Exact64(t: nat, delta: nat, m: nat)
    requires t < UNIT64 && delta < UNIT64 && m <= 100000000
    ensures delta * m % B128 == delta * m && t * m % B128 == t * m
  {
    MulMonotone(t, m, UNIT64, 100000000);
    MulMonotone(delta, m, UNIT64, 100000000);
  }

  /** The one digit that may be left. */
  lemma LastRuns(s: State)
    requires Running(s, UNIT32) && s.delta < s.t && s.t * 10 % UNIT32 <= s.delta * 10
    ensures s.t * 10 / UNIT32 < 10
    ensures OneByOne(s, UNIT32) == State(s.digits + [DigitChar(s.t * 10 / UNIT32)], s.t * 10 % UNIT32, s.delta * 10)
  {
    DigitBound(s.t, UNIT32, 10);
    Stops(Step(s, UNIT32), UNIT32);
  }

  // ---- binary64: eight digits at once, then one at a time ----

  /** The unit: 96 fraction bits in 128. */
  const UNIT64: nat := 0x1_0000_0000_0000_0000_0000_0000

  function Eight(n: nat): (ds: seq<char>)
    requires n < 100000000
    ensures |ds| == 8
  {
    var d1234, d5678 := n / 10000, n % 10000;
    (Pair(d1234 / 100) + Pair(d1234 % 100)) + (Pair(d5678 / 100) + Pair(d5678 % 100))
  }

  lemma SpellEight(n: nat)
    requires n < 100000000
    ensures Spell(n, 8) == Eight(n)
  {
    SpellFour(n / 10000);
    SpellFour(n % 10000);
    SpellSplit(n / 10000, n % 10000, 4);
    PowersOfTen();
  }

  lemma EightRuns(s: State)
    requires Running(s, UNIT64) && s.delta * 100000000 < s.t * 100000000 % UNIT64
    ensures s.t * 100000000 / UNIT64 < 100000000
    ensures OneByOne(s, UNIT64)
      == OneByOne(State(s.digits + Eight(s.t * 100000000 / UNIT64), s.t * 100000000 % UNIT64, s.delta * 100000000), UNIT64)
  {
    PowersOfTen();
    DigitBound(s.t, UNIT64, 100000000);
    ChunkRunsOn(s, UNIT64, 8);
    SpellEight(s.t * 100000000 / UNIT64);
  }

  lemma StepRuns(s: State)
    requires Running(s, UNIT64) && s.delta < s.t
    ensures s.t * 10 / UNIT64 < 10
    ensures OneByOne(s, UNIT64) == OneByOne(State(s.digits + [DigitChar(s.t * 10 / UNIT64)], s.t * 10 % UNIT64, s.delta * 10), UNIT64)
  {
    DigitBound(s.t, UNIT64, 10);
  }

  /** The digits of binary64 after the first seven, when these were not too many. */
  method Binary64Digits(dest: array<char>, p0: nat, t0: nat, delta0: nat,
                        ghost was: seq<char>, ghost first: nat, ghost ds0: seq<char>)
    returns (ok: bool, p: nat, t: nat, delta: nat, ghost ds: seq<char>)
    requires 0 < delta0 < t0 < UNIT64
    requires Written(dest, was, first, ds0, p0) && p0 < dest.Length
    modifies dest
    ensures ok <==> first + |OneByOne(State(ds0, t0, delta0), UNIT64).digits| < dest.Length
    ensures ok ==> Written(dest, was, first, ds, p)
    ensures ok ==> State(ds, t, delta) == OneByOne(State(ds0, t0, delta0), UNIT64)
  {
    hide Written, OneByOne, Eight;
    WrittenEnd(dest, was, first, ds0, p0);
    p, t, delta, ds := p0, t0, delta0, ds0;
    ghost var all := OneByOne(State(ds0, t0, delta0), UNIT64);
    Exact64(t, delta, 100000000);
    var d1 := delta * 100000000 % B128;
    var t1 := t * 100000000 % B128;
    var bulk := t1 / UNIT64;
    t1 := t1 % UNIT64;
    ghost var more;
    if d1 < t1 {
      EightRuns(State(ds, t, delta));
      more := State(ds + Eight(bulk), t1, d1);
      Longer(more, UNIT64);
      if p > dest.Length - 9 {
        return false, 0, 0, 0, [];
      }
      p := Append(dest, p, Eight(bulk), was, first, ds);
      t, delta, ds := t1, d1, more.digits;
    }
    while delta < t
      invariant t < UNIT64 && 0 < delta < 10 * UNIT64 && OneByOne(State(ds, t, delta), UNIT64) == all
      invariant Written(dest, was, first, ds, p) && p == first + |ds| < dest.Length
      decreases dest.Length - p
    {
      StepRuns(State(ds, t, delta));
      Exact64(t, delta, 10);
      more := State(ds + [DigitChar(t * 10 / UNIT64)], t * 10 % UNIT64, delta * 10);
      Longer(more, UNIT64);
      if p > dest.Length - 2 {
        return false, 0, 0, 0, [];
      }
      delta := delta * 10 % B128;
      t := t * 10 % B128;
      p := Append(dest, p, [DigitChar(t / UNIT64)], was, first, ds);
      t := t % UNIT64;
      ds := more.digits;
    }
    Stops(State(ds, t, delta), UNIT64);
    return true, p, t, delta, ds;
  }
}
