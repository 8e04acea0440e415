/** Step 7 of the 256-bit backend: generating the shortest digits, four at a time and
    then one at a time. */
module DigitGeneration {
  import opened Powers
  import opened Wide
  import opened DigitText
  import opened Format
  import opened Shortest
  import opened DigitLoop

  /** `ds` are the first digits of `u`, and `t` the remainder they leave. */
  ghost predicate Digits(u: int, ds: seq<char>, t: int) {
    0 < |ds| && AllDigits(ds) && Leaves(u, ONE, |ds| - 1, Numeral(ds), t)
  }

  // ---- what the loops produce ----

  /** The state after the first digit. */
  function First(l: int, u: int): (s: State)
    requires 0 < l < u < 10 * ONE
    ensures Running(s, ONE) && s.delta < 10 * ONE
  {
    State([DigitChar(u / ONE)], u % ONE, u - l)
  }

  /** The width times 10000 in 256 bits. It may wrap around, but not to zero. */
  function Wrapped(delta: int): (d: int)
    requires 0 < delta < 10 * ONE
    ensures 0 < d < B256
  {
    NeverZero(delta);
    delta * 10000 % B256
  }

  lemma NeverZero(delta: int)
    requires 0 < delta < 10 * ONE
    ensures delta * 10000 % B256 != 0
  {
    assert 0 <= delta * 10000 / B256 <= 6;
  }

  /** The first four-digit step, if it is taken. */
  function FirstChunk(s: State): (r: State)
    requires Running(s, ONE) && s.delta < 10 * ONE
    ensures Running(r, ONE)
  {
    var c, d := Chunk(s, ONE, 4), Wrapped(s.delta);
    if d < c.t then State(c.digits, c.t, d) else s
  }

  /** The digits, remainder and width the loops end with. */
  function Produced(l: int, u: int): (r: State)
    requires 0 < l < u < 10 * ONE
    ensures Running(r, ONE)
  {
    OneByOne(FirstChunk(First(l, u)), ONE)
  }

  /** The no-overflow condition of the first four-digit step, or, where its product
      wraps around, that the wrapped width still stops it. */
  predicate ChunkSafe(l: int, u: int) {
    (u - l) * 10000 < B256 || (u - l) * 10000 % B256 >= (u % ONE) * 10000 % ONE
  }

  ghost predicate NoneBefore(l: int, u: int, k: int) {
    forall i: nat | i < k :: NoneAt(l, u, ONE, i)
  }

  /** `delta` is the width of the interval at the scale of the last digit, no shorter
      decimal would do, and nothing worse than superfluous digits comes of a wrap. */
  ghost predicate Tracking(l: int, u: int, ds: seq<char>, t: int, delta: int) {
    && 0 < l < u < 10 * ONE && Digits(u, ds, t) && 0 <= delta
    && (|ds| == 1 ==> delta == u - l)
    && if ChunkSafe(l, u) then delta == (u - l) * Pow(10, |ds| - 1) && NoneBefore(l, u, |ds| - 1)
       else |ds| == 1 || |ds| >= 5
  }

  /** The last digit weighs more than the interval's width beyond the remainder. */
  ghost predicate LastOutweighs(ds: seq<char>, t: int, delta: int)
    requires 0 < |ds|
  {
    delta < DigitOf(ds[|ds| - 1]) * ONE + t
  }

  lemma NoneBeforeMore(l: int, u: int, k: nat)
    requires NoneAt(l, u, ONE, k)
    ensures NoneBefore(l, u, k + 1)
  {
    forall i: nat | i < k + 1 ensures NoneAt(l, u, ONE, i) {
      NoneBelow(l, u, ONE, i, k);
    }
  }

  /** A four-digit step at its full width. */
  lemma FourDigits(s: State, d: nat, t: int)
    requires Running(s, ONE) && s.t * 10000 == d * ONE + t && 0 <= t < ONE
    ensures d < 10000 && Chunk(s, ONE, 4) == State(s.digits + (Pair(d / 100) + Pair(d % 100)), t, s.delta * 10000)
  {
    PowersOfTen();
    ChunkIs(s, ONE, 4, d, t);
    SpellFour(d);
  }

  lemma FirstLeaves(l: int, u: int)
    requires 0 < l < u < 10 * ONE
    ensures var s := First(l, u); AllDigits(s.digits) && Leaves(u, ONE, 0, Numeral(s.digits), s.t)
  {
    assert Numeral([DigitChar(u / ONE)]) == u / ONE;
    StartLeaves(l, u, ONE, u / ONE);
  }

  /** Where the first step is safe, taking it changes nothing: the result is that of one
      digit at a time. */
  lemma FourIsOne(l: int, u: int)
    requires 0 < l < u < 10 * ONE && ChunkSafe(l, u)
    ensures Produced(l, u) == OneByOne(First(l, u), ONE)
  {
    hide Chunk, OneByOne;
    var s := First(l, u);
    var d, t := s.t * 10000 / ONE, s.t * 10000 % ONE;
    FourDigits(s, d, t);
    if Wrapped(s.delta) < t {
      ChunkRunsOn(s, ONE, 4);
    }
  }

  /** Either the loops start from the first digit, or from five of them with a width that
      is below the remainder. */
  lemma ChunkFollows(l: int, u: int)
    requires 0 < l < u < 10 * ONE
    ensures var s := FirstChunk(First(l, u));
      && AllDigits(s.digits) && Leaves(u, ONE, |s.digits| - 1, Numeral(s.digits), s.t)
      && (s == First(l, u) || (|s.digits| == 5 && s.delta < s.t))
  {
    var s := First(l, u);
    var d, t := s.t * 10000 / ONE, s.t * 10000 % ONE;
    FirstLeaves(l, u);
    FourDigits(s, d, t);
    hide Numeral, Leaves;
    ChunkLeaves(l, u, ONE, s, 4);
  }

  /** What the loops end with: digits of the upper end whose remainder is within the width. */
  lemma ProducedDigits(l: int, u: int)
    requires 0 < l < u < 10 * ONE
    ensures var r := Produced(l, u);
      Digits(u, r.digits, r.t) && r.t <= r.delta && LastOutweighs(r.digits, r.t, r.delta)
  {
    var s := FirstChunk(First(l, u));
    ChunkFollows(l, u);
    hide FirstChunk, Leaves, Numeral;
    Follows(s, ONE, u, |s.digits| - 1);
    NoMore(s, ONE);
    if |Produced(l, u).digits| == |s.digits| {
      FirstOutweighs(l, u);
    }
  }

  lemma FirstOutweighs(l: int, u: int)
    requires 0 < l < u < 10 * ONE
    ensures var s := First(l, u); LastOutweighs(s.digits, s.t, s.delta)
  {
  }

  /** In the safe case the width is exact and no shorter decimal lies in the interval. */
  lemma ProducedSafe(l: int, u: int)
    requires 0 < l < u < 10 * ONE && ChunkSafe(l, u)
    ensures var r := Produced(l, u); var k := |r.digits| - 1;
      r.delta == (u - l) * Pow(10, k) && NoneBefore(l, u, k)
  {
    var s := First(l, u);
    FourIsOne(l, u);
    FirstLeaves(l, u);
    StartLeaves(l, u, ONE, u / ONE);
    hide Leaves, Numeral, NoneAt, Hits, OneByOne;
    Follows(s, ONE, u, 0);
    OneByOneShortest(s, ONE, l, u, 0);
    var k := |OneByOne(s, ONE).digits| - 1;
    if k > 0 { NoneBeforeMore(l, u, k - 1); }
  }

  /** In the unsafe case the first step is taken although one digit would have done. */
  lemma ProducedUnsafe(l: int, u: int)
    requires 0 < l < u < 10 * ONE && !ChunkSafe(l, u)
    ensures 5 <= |Produced(l, u).digits| && !NoneBefore(l, u, |Produced(l, u).digits| - 1)
  {
    var s := First(l, u);
    FourDigits(s, s.t * 10000 / ONE, s.t * 10000 % ONE);
    FirstDigitHits(l, u);
  }

  lemma FirstDigitHits(l: int, u: int)
    requires 0 < l < u && ONE <= u - l
    ensures !NoneAt(l, u, ONE, 0)
  {
    assert Pow(10, 0) == 1;
    assert u / ONE * ONE + u % ONE == u;
    assert Hits(l, u, ONE, 0, u / ONE);
  }

  /** When the loops stop, the digits lie in the interval; they are the fewest possible
      exactly when the first four-digit step was safe. */
  lemma ProducedHits(l: int, u: int)
    requires 0 < l < u < 10 * ONE
    ensures var r := Produced(l, u); var k := |r.digits| - 1;
      && Tracking(l, u, r.digits, r.t, r.delta) && Hits(l, u, ONE, k, Numeral(r.digits))
      && (NoneBefore(l, u, k) <==> ChunkSafe(l, u))
  {
    var r := Produced(l, u);
    ProducedDigits(l, u);
    assert Digits(u, r.digits, r.t);
    var k := |r.digits| - 1;
    if ChunkSafe(l, u) {
      ProducedSafe(l, u);
    } else {
      ProducedUnsafe(l, u);
      MulMonotone(u - l, 1, u - l, Pow(10, k));
      assert ONE <= u - l;
    }
    assert Pow(10, 0) == 1;
    StopTest(l, u, ONE, k, Numeral(r.digits), r.t);
  }

  lemma PowersForLength()
    ensures Pow(10, 39) == 1000000000000000000000000000000000000000
    ensures Pow(10, 73) == 10000000000000000000000000000000000000000000000000000000000000000000000000
  {
    PowersOfTen();
    PowAdd(10, 8, 8);
    PowAdd(10, 16, 16);
    PowAdd(10, 32, 4);
    PowAdd(10, 36, 2);
    PowAdd(10, 38, 1);
    PowAdd(10, 36, 36);
    PowAdd(10, 72, 1);
  }

  /** There are at most forty digits. In the unsafe case the wrapped width can be anything,
      and there are at most 78. */
  lemma ProducedLength(l: int, u: int)
    requires 0 < l < u < 10 * ONE
    ensures ChunkSafe(l, u) && WIDTH <= u - l ==> |Produced(l, u).digits| <= 40
    ensures |Produced(l, u).digits| <= 78
  {
    var s := FirstChunk(First(l, u));
    ChunkFollows(l, u);
    PowersForLength();
    hide Pow, FirstChunk, Leaves, ChunkSafe;
    EndsWithin(s, ONE, 73) by { MulMonotone(1, Pow(10, 73), s.delta, Pow(10, 73)); }
    if ChunkSafe(l, u) && WIDTH <= u - l {
      FourIsOne(l, u);
      EndsWithin(First(l, u), ONE, 39) by { MulMonotone(WIDTH, Pow(10, 39), u - l, Pow(10, 39)); }
    }
  }

  // ---- the loops ----

  /** Four decimal digits fit in the integer bits. */
  lemma NoWrap(x: int, m: int)
    requires 0 <= x < ONE && (m == 10 || m == 10000)
    ensures x * m % B256 == x * m
  {
    QuotientUnique(x * m, B256, 0, x * m);
  }

  method NextFour(t: Fixed256, delta: Fixed256) returns (d: nat)
    requires t != delta && t.Value() < ONE
    modifies t, delta
    ensures delta.Value() == old(delta.Value()) * 10000 % B256
    ensures old(t.Value()) * 10000 == d * ONE + t.Value() && t.Value() < ONE
  {
    hide Fixed256.Value;
    NoWrap(t.Value(), 10000);
    delta.MultiplySmall(10000);
    t.MultiplySmall(10000);
    d := t.ExtractInteger();
  }

  method NextOne(t: Fixed256, delta: Fixed256) returns (d: nat)
    requires t != delta && t.Value() < ONE && delta.Value() < ONE
    modifies t, delta
    ensures delta.Value() == old(delta.Value()) * 10
    ensures old(t.Value()) * 10 == d * ONE + t.Value() && t.Value() < ONE
  {
    hide Fixed256.Value;
    NoWrap(delta.Value(), 10);
    NoWrap(t.Value(), 10);
    delta.MultiplySmall(10);
    t.MultiplySmall(10);
    d := t.ExtractInteger();
  }

  /** The remaining output of the loops is that of one digit at a time. */
  ghost predicate Leads(ds: seq<char>, t: int, delta: int, all: State) {
    Running(State(ds, t, delta), ONE) && OneByOne(State(ds, t, delta), ONE) == all
  }

  lemma LeadsBounds(ds: seq<char>, t: int, delta: int, all: State)
    requires Leads(ds, t, delta, all)
    ensures 0 <= t < ONE && 0 < delta && |ds| <= |all.digits|
    ensures t <= delta ==> State(ds, t, delta) == all
    ensures delta < t ==> |ds| < |all.digits|
  {
    if delta < t { Unfold(State(ds, t, delta), ONE); }
  }

  /** The first four-digit step, taken or not. */
  lemma FirstStep(l: int, u: int, ds: seq<char>, t: int, delta: int, d0: int, d: nat, t0: int)
    requires 0 < l < u < 10 * ONE && State(ds, t, delta) == First(l, u)
    requires d0 == delta * 10000 % B256 && t * 10000 == d * ONE + t0 && 0 <= t0 < ONE
    ensures d < 10000
    ensures d0 < t0 ==> Leads(ds + (Pair(d / 100) + Pair(d % 100)), t0, d0, Produced(l, u))
    ensures t0 <= d0 ==> Leads(ds, t, delta, Produced(l, u))
  {
    FourDigits(First(l, u), d, t0);
  }

  /** A later four-digit step. Its width does not wrap. */
  lemma LaterStep(ds: seq<char>, t: int, delta: int, all: State, d0: int, d: nat, t0: int)
    requires Leads(ds, t, delta, all) && delta < t
    requires d0 == delta * 10000 % B256 && t * 10000 == d * ONE + t0 && 0 <= t0 < ONE
    ensures d < 10000
    ensures d0 < t0 ==> Leads(ds + (Pair(d / 100) + Pair(d % 100)), t0, d0, all)
  {
    var s := State(ds, t, delta);
    NoWrap(delta, 10000);
    FourDigits(s, d, t0);
    if d0 < t0 { ChunkRunsOn(s, ONE, 4); }
  }

  lemma SingleStep(ds: seq<char>, t: int, delta: int, all: State, d: nat, t': int)
    requires Leads(ds, t, delta, all) && delta < t && t * 10 == d * ONE + t' && 0 <= t' < ONE
    ensures d < 10 && Leads(ds + [DigitChar(d)], t', delta * 10, all)
  {
    QuotientUnique(t * 10, ONE, d, t');
    Unfold(State(ds, t, delta), ONE);
  }

  /** Four digits at a time, while the interval stays narrower than the remainder. It fails
      only if the digits and a terminator do not fit. */
  method FourAtATime(dest: array<char>, p0: nat, t: Fixed256, delta: Fixed256,
                     ghost was: seq<char>, ghost first: nat, ghost ds0: seq<char>, ghost l: int, ghost u: int)
    returns (ok: bool, p: nat, ghost ds: seq<char>)
    requires t != delta && 0 < l < u < 10 * ONE && State(ds0, t.Value(), delta.Value()) == First(l, u)
    requires Written(dest, was, first, "0" + ds0, p0) && p0 == first + 2 < dest.Length
    modifies dest, t, delta
    ensures !ok ==> first + 1 + |Produced(l, u).digits| >= dest.Length
    ensures ok ==> && Written(dest, was, first, "0" + ds, p) && p == first + 1 + |ds| < dest.Length
                   && Leads(ds, t.Value(), delta.Value(), Produced(l, u))
  {
    hide Fixed256.Value, Written, Leads, Produced, First;
    p, ds := p0, ds0;
    ghost var all := Produced(l, u);
    assert |ds0| == 1 by { FirstIsOne(l, u); }
    assert t.Value() < ONE by { FirstIsOne(l, u); }
    var d0 := new Fixed256.Copy(delta);
    var t0 := new Fixed256.Copy(t);
    var d1234 := NextFour(t0, d0);
    FirstStep(l, u, ds, t.Value(), delta.Value(), d0.Value(), d1234, t0.Value());
    while d0.LessThan(t0)
      invariant fresh(d0) && fresh(t0) && d0 != t0 && d1234 < 10000
      invariant Written(dest, was, first, "0" + ds, p) && p == first + 1 + |ds| < dest.Length
      invariant t0.Value() < ONE
      invariant d0.Value() < t0.Value() ==> Leads(ds + (Pair(d1234 / 100) + Pair(d1234 % 100)), t0.Value(), d0.Value(), all)
      invariant t0.Value() <= d0.Value() ==> Leads(ds, t.Value(), delta.Value(), all)
      decreases dest.Length - p
    {
      d0.LessThanCorrect(t0);
      var chunk := Pair(d1234 / 100) + Pair(d1234 % 100);
      LeadsBounds(ds + chunk, t0.Value(), d0.Value(), all);
      if p > dest.Length - 5 {
        return false, 0, [];
      }
      p := Append(dest, p, chunk, was, first, "0" + ds);
      assert "0" + ds + chunk == "0" + (ds + chunk);
      ds := ds + chunk;
      t.Assign(t0);
      delta.Assign(d0);
      d1234 := NextFour(t0, d0);
      LaterStep(ds, t.Value(), delta.Value(), all, d0.Value(), d1234, t0.Value());
    }
    d0.LessThanCorrect(t0);
    ok := true;
  }

  lemma FirstIsOne(l: int, u: int)
    requires 0 < l < u < 10 * ONE
    ensures |First(l, u).digits| == 1 && First(l, u).t < ONE
  {
  }

  /** One digit at a time until the remainder is within the width. It fails only if the
      digits and a terminator do not fit. */
  method OneAtATime(dest: array<char>, p0: nat, t: Fixed256, delta: Fixed256,
                    ghost was: seq<char>, ghost first: nat, ghost ds0: seq<char>, ghost all: State)
    returns (ok: bool, p: nat, ghost ds: seq<char>)
    requires t != delta && Leads(ds0, t.Value(), delta.Value(), all)
    requires Written(dest, was, first, "0" + ds0, p0) && p0 == first + 1 + |ds0| < dest.Length
    modifies dest, t, delta
    ensures !ok ==> first + 1 + |all.digits| >= dest.Length
    ensures ok ==> && Written(dest, was, first, "0" + ds, p) && p == first + 1 + |ds| < dest.Length
                   && State(ds, t.Value(), delta.Value()) == all
  {
    hide Fixed256.Value, Written, Leads;
    p, ds := p0, ds0;
    while delta.LessThan(t)
      invariant Written(dest, was, first, "0" + ds, p) && p == first + 1 + |ds| < dest.Length
      invariant Leads(ds, t.Value(), delta.Value(), all)
      decreases dest.Length - p
    {
      delta.LessThanCorrect(t);
      LeadsBounds(ds, t.Value(), delta.Value(), all);
      if p > dest.Length - 2 {
        return false, 0, [];
      }
      ghost var tv, dv := t.Value(), delta.Value();
      var d := NextOne(t, delta);
      SingleStep(ds, tv, dv, all, d, t.Value());
      p := Append(dest, p, [DigitChar(d)], was, first, "0" + ds);
      assert "0" + ds + [DigitChar(d)] == "0" + (ds + [DigitChar(d)]);
      ds := ds + [DigitChar(d)];
    }
    delta.LessThanCorrect(t);
    LeadsBounds(ds, t.Value(), delta.Value(), all);
    ok := true;
  }

  /** The first digit, its remainder and the interval's width. */
  method FirstOne(u: Fixed256, l: Fixed256) returns (t: Fixed256, delta: Fixed256, d: nat)
    requires 0 < l.Value() < u.Value() < 10 * ONE
    ensures fresh(t) && fresh(delta) && t != delta && d < 10
    ensures State([DigitChar(d)], t.Value(), delta.Value()) == First(l.Value(), u.Value())
  {
    hide Fixed256.Value;
    t := new Fixed256.Copy(u);
    delta := new Fixed256.Copy(u);
    delta.Subtract(l);
    d := t.ExtractInteger();
    QuotientUnique(u.Value(), ONE, d, t.Value());
    QuotientUnique(u.Value() - l.Value(), B256, 0, u.Value() - l.Value());
  }

  /** The digits after a leading zero, with their remainder and width: exactly what the
      loops produce for `[l, u]`. It fails exactly if they do not fit with a terminator. */
  method Generate(dest: array<char>, first: nat, u: Fixed256, l: Fixed256)
    returns (ok: bool, p: nat, t: Fixed256, delta: Fixed256, ghost ds: seq<char>)
    requires 0 < l.Value() < u.Value() < 10 * ONE && first + 2 < dest.Length
    modifies dest
    ensures fresh(t) && fresh(delta) && t != delta
    ensures ok <==> first + 1 + |Produced(l.Value(), u.Value()).digits| < dest.Length
    ensures ok ==> && Written(dest, old(dest[..]), first, "0" + ds, p) && p < dest.Length
                   && State(ds, t.Value(), delta.Value()) == Produced(l.Value(), u.Value())
  {
    hide Fixed256.Value, Leads, First, Produced;
    ghost var was, all := dest[..], Produced(l.Value(), u.Value());
    var d;
    t, delta, d := FirstOne(u, l);
    dest[first] := '0';
    dest[first + 1] := DigitChar(d);
    ds := [DigitChar(d)];
    assert dest[first..first + 2] == "0" + ds;
    ok, p, ds := FourAtATime(dest, first + 2, t, delta, was, first, ds, l.Value(), u.Value());
    if ok {
      ok, p, ds := OneAtATime(dest, p, t, delta, was, first, ds, all);
    }
  }
}
