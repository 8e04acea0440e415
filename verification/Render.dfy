/** The decimal conversion of `stb_sprintf`: digits written backwards in chunks of
    eight, optionally with a comma between each three. */
module Render {
  import opened Powers
  import opened DigitText

  // ---- what should be printed ----

  /** The decimal numeral without leading zeros. */
  function Digits(n: nat): (ds: seq<char>)
    ensures 0 < |ds| && AllDigits(ds)
  {
    if n < 10 then [DigitChar(n)] else Digits(n / 10) + [DigitChar(n % 10)]
  }

  /** A comma between each three digits, counted from the right. */
  function Grouped(ds: seq<char>): seq<char> {
    if |ds| <= 3 then ds else Grouped(ds[..|ds| - 3]) + "," + ds[|ds| - 3..]
  }

  /** Removing the commas gives the digits back. */
  function WithoutCommas(s: seq<char>): seq<char> {
    if s == [] then [] else (if s[0] == ',' then [] else [s[0]]) + WithoutCommas(s[1..])
  }

  lemma {:induction false} DigitsRead(n: nat)
    ensures Numeral(Digits(n)) == n && (0 < n ==> Digits(n)[0] != '0')
  {
    if n >= 10 {
      DigitsRead(n / 10);
      NumeralAppend(Digits(n / 10), DigitChar(n % 10));
    } else {
      assert [DigitChar(n)][..0] == [];
      assert Numeral([DigitChar(n)]) == DigitOf(DigitChar(n));
    }
  }

  /** The numeral is the only digit string of its value without a leading zero. */
  lemma {:induction false} DigitsUnique(e: seq<char>)
    requires 0 < |e| && AllDigits(e) && (|e| == 1 || e[0] != '0')
    ensures e == Digits(Numeral(e))
    decreases |e|
  {
    var n, c := |e| - 1, e[|e| - 1];
    var h := e[..n];
    assert e == h + [c];
    if n == 0 {
      assert Numeral(h) == 0;
    } else {
      NonZero(h);
      DigitsUnique(h);
      QuotientUnique(Numeral(e), 10, Numeral(h), DigitOf(c));
    }
    assert DigitChar(DigitOf(c)) == c;
  }

  lemma {:induction false} NonZero(e: seq<char>)
    requires 0 < |e| && AllDigits(e) && e[0] != '0'
    ensures 0 < Numeral(e)
    decreases |e|
  {
    if |e| > 1 { NonZero(e[..|e| - 1]); }
  }

  lemma {:induction false} GroupedShort(e: seq<char>)
    ensures |Grouped(e)| <= 2 * |e|
    decreases |e|
  {
    if |e| > 3 { GroupedShort(e[..|e| - 3]); }
  }

  /** Peeling the last group off. */
  lemma GroupedSplit(h: seq<char>, t: seq<char>)
    requires 0 < |h| && |t| == 3
    ensures Grouped(h + t) == Grouped(h) + "," + t
  {
    assert (h + t)[..|h|] == h && (h + t)[|h|..] == t;
  }

  lemma GroupedSmall(e: seq<char>)
    requires |e| <= 3
    ensures Grouped(e) == e
  {
  }

  /** A new leading digit starts a group exactly when the digits so far fill theirs. */
  lemma {:induction false} GroupedPrepend(c: char, e: seq<char>)
    ensures Grouped([c] + e) == if 0 < |e| && |e| % 3 == 0 then [c] + ("," + Grouped(e)) else [c] + Grouped(e)
    decreases |e|
  {
    hide Grouped;
    if |e| < 3 {
      GroupedSmall(e);
      GroupedSmall([c] + e);
    } else if |e| == 3 {
      GroupedSmall(e);
      GroupedSmall([c]);
      GroupedSplit([c], e);
    } else {
      var h, t := e[..|e| - 3], e[|e| - 3..];
      assert e == h + t && [c] + e == ([c] + h) + t;
      GroupedSplit([c] + h, t);
      GroupedSplit(h, t);
      GroupedPrepend(c, h);
      PrependGroup(c, Grouped(h), t);
    }
  }

  lemma PrependGroup(c: char, g: seq<char>, t: seq<char>)
    ensures [c] + ("," + g) + "," + t == [c] + ("," + (g + "," + t))
    ensures [c] + g + "," + t == [c] + (g + "," + t)
  {
  }

  lemma {:induction false} GroupedDigits(e: seq<char>)
    requires AllDigits(e)
    ensures WithoutCommas(Grouped(e)) == e
    decreases |e|
  {
    if |e| > 3 {
      var n := |e| - 3;
      GroupedDigits(e[..n]);
      WithoutCommasAppend(Grouped(e[..n]) + ",", e[n..]);
      WithoutCommasAppend(Grouped(e[..n]), ",");
      WithoutCommasSame(e[n..]);
      assert WithoutCommas(",") == [];
    } else {
      WithoutCommasSame(e);
    }
  }

  lemma {:induction false} WithoutCommasAppend(s: seq<char>, t: seq<char>)
    ensures WithoutCommas(s + t) == WithoutCommas(s) + WithoutCommas(t)
    decreases |s|
  {
    if s == [] {
      assert s + t == t;
    } else {
      assert (s + t)[1..] == s[1..] + t;
      WithoutCommasAppend(s[1..], t);
    }
  }

  lemma {:induction false} WithoutCommasSame(e: seq<char>)
    requires AllDigits(e)
    ensures WithoutCommas(e) == e
    decreases |e|
  {
    if e != [] { WithoutCommasSame(e[1..]); }
  }

  // ---- the state of the loops ----

  /** How many digits have been written since the last comma. */
  function Since(n: nat): nat { if n == 0 then 0 else (n - 1) % 3 + 1 }

  /** The buffer from `s` on shows the digits `e`; `pending` says that a comma has just
      been put in front of them. */
  ghost predicate Shows(num: seq<char>, s: nat, e: seq<char>, l: nat, comma: bool, pending: bool) {
    && s <= |num| && AllDigits(e)
    && num[s..] == (if pending then "," else "") + (if comma then Grouped(e) else e)
    && (pending ==> comma && l == 0 && 0 < |e| && |e| % 3 == 0)
    && (comma && !pending ==> l == Since(|e|))
  }

  /** `total` is what has been written, the rest `n` of the chunk that started after
      `base` digits, and the chunks `n64` still to come. */
  ghost predicate Adds(total: nat, e: seq<char>, n: nat, n64: nat, base: nat) {
    && base <= |e| <= base + 8
    && Numeral(e) + n * Pow(10, |e|) + n64 * Pow(10, base + 8) == total
    && n < Pow(10, base + 8 - |e|)
  }

  lemma PrependDigit(total: nat, e: seq<char>, n: nat, n64: nat, base: nat)
    requires Adds(total, e, n, n64, base) && |e| < base + 8
    ensures Adds(total, [DigitChar(n % 10)] + e, n / 10, n64, base)
  {
    var d, p := n % 10, Pow(10, |e|);
    NumeralConcat([DigitChar(d)], e);
    assert Numeral([DigitChar(d)]) == d;
    assert n * p == (n / 10) * (10 * p) + d * p by { assert n == 10 * (n / 10) + d; Spread(n / 10, d, p); }
    assert Pow(10, base + 8 - |e|) == 10 * Pow(10, base + 7 - |e|);
  }

  lemma Spread(q: int, d: int, p: int)
    ensures (10 * q + d) * p == q * (10 * p) + d * p
  {
  }

  /** The next chunk. */
  lemma NextChunk(total: nat, e: seq<char>, n64: nat, base: nat)
    requires base == |e| && Numeral(e) + n64 * Pow(10, base) == total
    ensures Adds(total, e, n64 % 100000000, n64 / 100000000, base)
  {
    var p, m := Pow(10, base), 100000000;
    assert Pow(10, 8) == m by { PowersOfTen(); }
    PowAdd(10, 8, base);
    Spread8(n64 / m, n64 % m, p);
  }

  lemma Spread8(q: int, d: int, p: int)
    ensures (100000000 * q + d) * p == d * p + q * (100000000 * p)
  {
  }

  lemma ShowsDigit(num: seq<char>, s: nat, e: seq<char>, l: nat, comma: bool, pending: bool, c: char)
    requires Shows(num, s, e, l, comma, pending) && 0 < s && IsDigit(c) && (comma ==> l != 3)
    ensures Shows(num[s - 1 := c], s - 1, [c] + e, l + 1, comma, false)
  {
    var now := num[s - 1 := c];
    assert now[s - 1..] == [c] + num[s..];
    hide Grouped;
    SinceNext(|e|);
    if comma {
      DigitInGroups(c, e, num[s..], pending);
    } else {
      assert "" + e == e && "" + ([c] + e) == [c] + e;
    }
  }

  /** A digit before a comma just put, or into a group that is not full. */
  lemma DigitInGroups(c: char, e: seq<char>, shown: seq<char>, pending: bool)
    requires shown == (if pending then "," else "") + Grouped(e) && (pending <==> 0 < |e| && |e| % 3 == 0)
    ensures [c] + shown == "" + Grouped([c] + e)
  {
    hide Grouped;
    GroupedPrepend(c, e);
    assert "" + Grouped(e) == Grouped(e) && "" + Grouped([c] + e) == Grouped([c] + e);
  }

  lemma SinceNext(n: nat)
    ensures Since(n + 1) == if 0 < n && n % 3 == 0 then 1 else Since(n) + 1
    ensures Since(n) == 3 <==> 0 < n && n % 3 == 0
  {
  }

  lemma ShowsComma(num: seq<char>, s: nat, e: seq<char>, l: nat)
    requires Shows(num, s, e, l, true, false) && 0 < s && l == 3
    ensures Shows(num[s - 1 := ','], s - 1, e, 0, true, true)
  {
    var now := num[s - 1 := ','];
    assert now[s - 1..] == "," + num[s..];
    hide Grouped;
    SinceNext(|e|);
    assert "" + Grouped(e) == Grouped(e);
  }

  lemma ShowsPlainAny(num: seq<char>, s: nat, e: seq<char>, l: nat, comma: bool)
    requires Shows(num, s, e, l, comma, false)
    ensures !comma ==> Shows(num, s, e, 0, false, false)
  {
  }

  lemma ShowsPlain(num: seq<char>, s: nat, e: seq<char>, l: nat, l': nat)
    requires Shows(num, s, e, l, false, false)
    ensures Shows(num, s, e, l', false, false)
  {
  }

  // ---- the loops ----

  /** Pairs of digits until nothing is left of the chunk, at least one pair. */
  method EmitPairs(num: array<char>, s0: nat, n0: nat, ghost e0: seq<char>, ghost total: nat, ghost n64: nat)
    returns (s: nat, ghost e: seq<char>)
    requires Shows(num[..], s0, e0, 0, false, false) && Adds(total, e0, n0, n64, |e0|) && 8 <= s0
    modifies num
    ensures Shows(num[..], s, e, 0, false, false) && Adds(total, e, 0, n64, |e0|) && |e0| + 2 <= |e|
    ensures s + |e| == s0 + |e0|
    ensures e[0] == '0' && e[1] == '0' ==> n0 == 0 && e == "00" + e0
  {
    hide Shows, Adds, Numeral;
    s, e := s0, e0;
    var n := n0;
    AddsRange(total, e, n, n64, |e0|);
    while true
      invariant Shows(num[..], s, e, 0, false, false) && Adds(total, e, n, n64, |e0|)
      invariant |e0| <= |e| <= |e0| + 6 && (|e| - |e0|) % 2 == 0 && s + |e| == s0 + |e0|
      invariant n == 0 ==> n0 == 0 && e == e0
      decreases n, |e0| + 8 - |e|
    {
      var units, tens := DigitChar(n % 10), DigitChar(n / 10 % 10);
      AddsPair(total, e, n, n64, |e0|, tens, units);
      ShowsPair(num[..], s, e, tens, units);
      ghost var was := num[..];
      s := s - 2;
      num[s], num[s + 1] := tens, units;
      assert num[..] == was[s + 1 := units][s := tens];
      e := [tens] + ([units] + e);
      ghost var top := n;
      n := n / 100;
      if n == 0 {
        TopPair(top, tens, units);
        assert e == "00" + e0 || tens != '0' || units != '0';
        break;
      }
      AddsRange(total, e, n, n64, |e0|);
    }
  }

  lemma AddsPair(total: nat, e: seq<char>, n: nat, n64: nat, base: nat, tens: char, units: char)
    requires Adds(total, e, n, n64, base) && |e| <= base + 6
    requires units == DigitChar(n % 10) && tens == DigitChar(n / 10 % 10)
    ensures Adds(total, [tens] + ([units] + e), n / 100, n64, base)
  {
    hide Adds;
    PrependDigit(total, e, n, n64, base);
    PrependDigit(total, [units] + e, n / 10, n64, base);
    assert n / 10 / 10 == n / 100;
  }

  lemma ShowsPair(num: seq<char>, s: nat, e: seq<char>, tens: char, units: char)
    requires Shows(num, s, e, 0, false, false) && 2 <= s && IsDigit(tens) && IsDigit(units)
    ensures s <= |num| && Shows(num[s - 1 := units][s - 2 := tens], s - 2, [tens] + ([units] + e), 0, false, false)
  {
    ShowsDigit(num, s, e, 0, false, false, units);
    ShowsDigit(num[s - 1 := units], s - 1, [units] + e, 0, false, false, tens);
  }

  lemma TopPair(n: nat, tens: char, units: char)
    requires n < 100 && tens == DigitChar(n / 10 % 10) && units == DigitChar(n % 10)
    ensures tens == '0' && units == '0' ==> n == 0
  {
  }

  /** A chunk with something left has not used up its eight digits. */
  lemma AddsRange(total: nat, e: seq<char>, n: nat, n64: nat, base: nat)
    requires Adds(total, e, n, n64, base)
    ensures base <= |e| <= base + 8 && (0 < n ==> |e| < base + 8)
  {
    assert Pow(10, 0) == 1;
  }

  /** Digits and commas until nothing is left of the chunk; `o` moves with the commas. */
  method EmitGrouped(num: array<char>, s0: nat, o0: int, l0: nat, n0: nat,
                     ghost e0: seq<char>, ghost total: nat, ghost n64: nat)
    returns (s: nat, o: int, l: nat, ghost e: seq<char>)
    requires Shows(num[..], s0, e0, l0, true, false) && Adds(total, e0, n0, n64, |e0|)
    requires o0 == s0 - 8 && |e0| <= 16 && num.Length == 512
    modifies num
    ensures Shows(num[..], s, e, l, true, false) && Adds(total, e, 0, n64, |e0|)
    ensures s - o == 8 - (|e| - |e0|)
    ensures if n0 == 0 then e == e0 else |e0| < |e| && e[0] != '0'
  {
    hide Adds, Numeral, Grouped;
    s, o, l, e := s0, o0, l0, e0;
    var n := n0;
    ghost var pending := false;
    AddsRange(total, e, n, n64, |e0|);
    while n != 0
      invariant Shows(num[..], s, e, l, true, pending) && Adds(total, e, n, n64, |e0|)
      invariant s - o == 8 - (|e| - |e0|) && |e0| <= |e| <= |e0| + 8
      invariant pending ==> n != 0
      invariant if n == n0 then e == e0 else |e0| < |e| && (n == 0 ==> e[0] != '0')
      decreases n, l
    {
      AddsRange(total, e, n, n64, |e0|);
      RoomLeft(num[..], s, e, l, true, pending);
      s := s - 1;
      if l == 3 {
        ShowsComma(num[..], s + 1, e, l);
        l := 0;
        num[s] := ',';
        o := o - 1;
        pending := true;
      } else {
        var c := DigitChar(n % 10);
        ShowsDigit(num[..], s + 1, e, l, true, pending, c);
        PrependDigit(total, e, n, n64, |e0|);
        num[s] := c;
        l := l + 1;
        e := [c] + e;
        pending := false;
        n := n / 10;
      }
    }
  }

  /** Two dozen digits with their commas take up at most 49 characters. */
  lemma RoomLeft(num: seq<char>, s: nat, e: seq<char>, l: nat, comma: bool, pending: bool)
    requires Shows(num, s, e, l, comma, pending) && |e| <= 24 && |num| == 512
    ensures 400 <= s
  {
    GroupedShort(e);
  }

  /** Zeros, and commas, until the chunk has its eight digits. */
  method FillZeros(num: array<char>, s0: nat, o0: int, l0: nat, comma: bool,
                   ghost e0: seq<char>, ghost total: nat, ghost n64: nat, ghost base: nat)
    returns (s: nat, l: nat, ghost e: seq<char>)
    requires Shows(num[..], s0, e0, l0, comma, false) && Adds(total, e0, 0, n64, base)
    requires s0 - o0 == 8 - (|e0| - base) && base <= 16 && num.Length == 512
    modifies num
    ensures Shows(num[..], s, e, l, comma, false) && Adds(total, e, 0, n64, base) && |e| == base + 8
  {
    hide Adds, Numeral, Grouped;
    var o := o0;
    s, l, e := s0, l0, e0;
    ghost var pending := false;
    AddsRange(total, e, 0, n64, base);
    while s != o
      invariant Shows(num[..], s, e, l, comma, pending) && Adds(total, e, 0, n64, base)
      invariant s - o == 8 - (|e| - base) && base <= |e| <= base + 8
      invariant pending ==> s != o
      decreases base + 8 - |e|, if comma then l else 0
    {
      RoomLeft(num[..], s, e, l, comma, pending);
      s := s - 1;
      if comma && l == 3 {
        ShowsComma(num[..], s + 1, e, l);
        l := 0;
        num[s] := ',';
        o := o - 1;
        pending := true;
      } else {
        ShowsDigit(num[..], s + 1, e, l, comma, pending, '0');
        PrependDigit(total, e, 0, n64, base);
        num[s] := '0';
        if comma {
          l := l + 1;
        }
        e := ['0'] + e;
        pending := false;
      }
    }
  }

  lemma {:induction false} GroupedFirst(e: seq<char>)
    requires 0 < |e|
    ensures 0 < |Grouped(e)| && Grouped(e)[0] == e[0]
    decreases |e|
  {
    if |e| > 3 { GroupedFirst(e[..|e| - 3]); }
  }

  /** The digits written are those of the value once a zero in front has been dropped. */
  lemma AllWritten(num: seq<char>, s: nat, e: seq<char>, l: nat, comma: bool, value: nat)
    requires Shows(num, s, e, l, comma, false) && Numeral(e) == value
    requires 0 < |e| && (|e| == 1 || e[0] != '0')
    ensures s <= |num| && num[s..] == if comma then Grouped(Digits(value)) else Digits(value)
  {
    DigitsUnique(e);
  }

  lemma DropZero(num: seq<char>, s: nat, e: seq<char>, value: nat)
    requires Shows(num, s, e, 0, false, false) && Numeral(e) == value && 0 < |e| && e[0] == '0'
    ensures Shows(num, s + 1, e[1..], 0, false, false) && Numeral(e[1..]) == value
  {
    assert num[s..] == e by { assert "" + e == e; }
    assert num[s + 1..] == num[s..][1..];
    assert "" + e[1..] == e[1..];
    LeadingZero(e);
  }

  lemma LeadingZero(e: seq<char>)
    requires 0 < |e| && e[0] == '0'
    ensures Numeral(e[1..]) == Numeral(e)
  {
    assert e == [e[0]] + e[1..];
    NumeralConcat([e[0]], e[1..]);
    assert Numeral([e[0]]) == 0;
    hide Numeral, Pow;
  }

  /** What a chunk leaves: its eight digits are part of the text, the rest is to come. */
  lemma ChunkDone(total: nat, e: seq<char>, n64: nat, base: nat)
    requires Adds(total, e, 0, n64, base)
    ensures n64 == 0 ==> Numeral(e) == total
    ensures |e| == base + 8 ==> Numeral(e) + n64 * Pow(10, |e|) == total
  {
  }

  /** How many digits the chunks so far have, and what that leaves of a 64-bit value. */
  ghost predicate Remaining(n64: nat, e: seq<char>) {
    || (|e| == 0 && n64 < 0x1_0000_0000_0000_0000)
    || (|e| == 8 && 0 < n64 <= 184467440737)
    || (|e| == 16 && 0 < n64 <= 1844)
  }

  lemma ShowsFirst(num: seq<char>, s: nat, e: seq<char>, l: nat, comma: bool)
    requires Shows(num, s, e, l, comma, false)
    ensures s <= |num| && (e == [] <==> s == |num|) && (e != [] ==> num[s] == e[0])
  {
    if e != [] {
      GroupedFirst(e);
      assert num[s] == num[s..][0];
    }
  }

  lemma Nothing(num: seq<char>, value: nat, comma: bool)
    ensures Shows(num, |num|, [], 0, comma, false) && Numeral([]) + value * Pow(10, 0) == value
  {
    assert Grouped([]) == [];
  }

  lemma SinceStart(num: seq<char>, s: nat, e: seq<char>, l: nat, comma: bool)
    requires Shows(num, s, e, l, comma, false) && e == []
    ensures comma ==> l == 0
  {
  }

  lemma JustZero()
    ensures Numeral([]) == 0 && Numeral(['0']) == 0
  {
    assert ['0'][..0] == [];
  }

  /** All chunks, up to the point where a leading zero may be dropped. There `s` is past the
      end of the buffer exactly for the value zero with the comma flag. */
  method EmitChunks(num: array<char>, value: nat, comma: bool) returns (s: nat, l: nat, ghost e: seq<char>)
    requires num.Length == 512 && value < 0x1_0000_0000_0000_0000
    modifies num
    ensures s <= num.Length && (s == num.Length <==> comma && value == 0)
    ensures Shows(num[..], s, e, l, comma, false) && Numeral(e) == value
    ensures if comma then e == [] || e[0] != '0' else 2 <= |e| && (e[0] == '0' && e[1] == '0' ==> e == "00")
  {
    hide Adds, Shows, Grouped, Digits, Numeral, Pow;
    var n64: nat := value;
    s, l := num.Length, 0;
    e := [];
    Nothing(num[..], value, comma);
    while true
      invariant Shows(num[..], s, e, l, comma, false)
      invariant Numeral(e) + n64 * Pow(10, |e|) == value
      invariant Remaining(n64, e)
      invariant value == 0 ==> n64 == 0 && e == []
      decreases n64
    {
      RoomLeft(num[..], s, e, l, comma, false);
      var o, n := s - 8, n64;
      NextChunk(value, e, n64, |e|);
      ghost var e0 := e;
      if n64 >= 100000000 {
        n := n64 % 100000000;
        n64 := n64 / 100000000;
      } else {
        n64 := 0;
      }
      if !comma {
        ShowsPlain(num[..], s, e, l, 0);
        s, e := EmitPairs(num, s, n, e, value, n64);
        l := 0;
      } else {
        s, o, l, e := EmitGrouped(num, s, o, l, n, e, value, n64);
      }
      ChunkDone(value, e, n64, |e0|);
      if n64 == 0 {
        ShowsFirst(num[..], s, e, l, comma);
        JustZero();
        return;
      }
      s, l, e := FillZeros(num, s, o, l, comma, e, value, n64, |e0|);
      ChunkDone(value, e, n64, |e0|);
    }
  }

  /** The value for which the read that follows is out of bounds. */
  method ReadsPastEnd(num: array<char>) returns (s: nat)
    requires num.Length == 512
    modifies num
    ensures s == num.Length
  {
    var l;
    ghost var e;
    s, l, e := EmitChunks(num, 0, true);
  }

  /** For every 64-bit magnitude the buffer ends with its numeral, with a comma between
      each three digits when `comma` is set, and `s` is where the text starts. What follows
      the buffer in memory, `beyond`, may be read but does not matter. */
  method Render(num: array<char>, beyond: char, value: nat, comma: bool) returns (s: nat)
    requires num.Length == 512 && value < 0x1_0000_0000_0000_0000
    modifies num
    ensures s <= num.Length && num[s..] == if comma then Grouped(Digits(value)) else Digits(value)
  {
    hide Shows, Grouped, Digits, Numeral;
    var l;
    ghost var e;
    s, l, e := EmitChunks(num, value, comma);
    ShowsFirst(num[..], s, e, l, comma);
    var first := if s < num.Length then num[s] else beyond;
    if first == '0' && s != num.Length {
      ShowsPlainAny(num[..], s, e, l, comma);
      DropZero(num[..], s, e, value);
      s, e := s + 1, e[1..];
      l := 0;
    }
    ShowsFirst(num[..], s, e, l, comma);
    if s == num.Length {
      JustZero();
      SinceStart(num[..], s, e, l, comma);
      ShowsDigit(num[..], s, e, l, comma, false, '0');
      s := s - 1;
      num[s] := '0';
      assert ['0'] + e == ['0'];
      e, l := ['0'], l + 1;
    }
    AllWritten(num[..], s, e, l, comma, value);
  }
}
