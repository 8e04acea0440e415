/** `finishFormatting`: shuffles the digits "0123456" into one of four layouts, in place. */
module Format {
  import opened Powers
  import opened DigitText

  function Zeros(n: nat): seq<char> { seq(n, _ => '0') }

  /** The entry of the table of two-digit numbers. */
  function Pair(n: nat): seq<char>
    requires n < 100
  {
    [DigitChar(n / 10), DigitChar(n % 10)]
  }

  function ExponentDigits(n: nat): seq<char>
    requires n < 10000
  {
    if n > 999 then Pair(n / 100) + Pair(n % 100)
    else if n > 99 then [DigitChar(n / 100)] + Pair(n % 100)
    else Pair(n)
  }

  predicate InRange(e: int) { -10000 < e < 10000 }

  function ExponentText(e: int): seq<char>
    requires InRange(e)
  {
    (if e < 0 then "-" else "+") + ExponentDigits(if e < 0 then -e else e)
  }

  function MantissaText(ds: seq<char>): seq<char> {
    if |ds| > 1 then ds[..1] + "." + ds[1..] else ds
  }

  /** The text chosen for the digits `ds`, read as `d.ddd` times ten to the `e`. */
  function Layout(ds: seq<char>, e: int, force: bool): seq<char>
    requires 0 < |ds| && InRange(e)
  {
    if e < -4 || force then MantissaText(ds) + "e" + ExponentText(e)
    else if e < 0 then "0." + Zeros(-e - 1) + ds
    else if e + 1 < |ds| then ds[..e + 1] + "." + ds[e + 1..]
    else ds + Zeros(e + 1 - |ds|) + ".0"
  }

  /** How long the text is: longer than the digits and at least three characters, and not
      much longer unless zeros before the point are added. */
  lemma LayoutLength(ds: seq<char>, e: int, force: bool)
    requires 0 < |ds| && InRange(e)
    ensures |ds| < |Layout(ds, e, force)| && 3 <= |Layout(ds, e, force)|
    ensures |Layout(ds, e, force)| <= |ds| + 7 || (!force && |Layout(ds, e, force)| == e + 3)
  {
  }

  // ---- every layout reads back as the number it was made from ----

  lemma ExponentReads(e: int)
    requires InRange(e)
    ensures ReadExponent(ExponentText(e)) == e
  {
    var n := if e < 0 then -e else e;
    var s := ExponentDigits(n);
    ExponentDigitsRead(n);
    assert ExponentText(e)[1..] == s;
  }

  lemma ExponentDigitsRead(n: nat)
    requires n < 10000
    ensures Numeral(ExponentDigits(n)) == n
  {
    var h, l := n / 100, n % 100;
    assert Pow(10, 1) == 10 && Pow(10, 2) == 100;
    PairReads(l);
    if n > 999 {
      PairReads(h);
      NumeralConcat(Pair(h), Pair(l));
    } else if n > 99 {
      NumeralConcat([DigitChar(h)], Pair(l));
    }
  }

  lemma PairReads(n: nat)
    requires n < 100
    ensures Numeral(Pair(n)) == n
  {
    assert Pair(n) == [DigitChar(n / 10)] + [DigitChar(n % 10)];
    NumeralAppend([DigitChar(n / 10)], DigitChar(n % 10));
    assert Numeral([DigitChar(n / 10)]) == n / 10;
  }

  /** Two runs of digits around a point at index `i`. */
  lemma ReadPoint(s: seq<char>, i: nat, j: nat, ds: seq<char>)
    requires i < j <= |s| && s[i] == '.' && ds == s[..i] + s[i + 1..j] && AllDigits(ds)
    ensures Read(s) == Scan(s, j, Decimal(Numeral(ds), -(j - i - 1)), true)
  {
    var a, b := s[..i], s[i + 1..j];
    assert s[0..i] == a && a == ds[..i] && b == ds[i..];
    DigitsIn(ds, a, b);
    assert Scan(s, i, Decimal(Numeral(a), 0), false) == Scan(s, i + 1, Decimal(Numeral(a), 0), true);
    hide Scan, Numeral, AllDigits, Pow;
    ScanDigits(s, 0, i, Decimal(0, 0), false);
    ScanDigits(s, i + 1, j, Decimal(Numeral(a), 0), true);
    NumeralConcat(a, b);
  }

  lemma DigitsIn(ds: seq<char>, a: seq<char>, b: seq<char>)
    requires ds == a + b && AllDigits(ds)
    ensures AllDigits(a) && AllDigits(b)
  {
    forall k | 0 <= k < |a| ensures IsDigit(a[k]) { assert a[k] == ds[k]; }
    forall k | 0 <= k < |b| ensures IsDigit(b[k]) { assert b[k] == ds[|a| + k]; }
  }

  lemma ExponentialSplit(ds: seq<char>, x: seq<char>, text: seq<char>)
    requires 0 < |ds| && text == MantissaText(ds) + "e" + x
    ensures var n := |MantissaText(ds)|;
            && n < |text| && text[n] == 'e' && text[n + 1..] == x
            && if |ds| > 1 then n == |ds| + 1 && text[1] == '.' && ds == text[..1] + text[2..n] else ds == text[0..n]
  {
  }

  lemma ExponentialReads(ds: seq<char>, x: seq<char>, text: seq<char>)
    requires 0 < |ds| && AllDigits(ds) && text == MantissaText(ds) + "e" + x
    ensures Read(text) == Decimal(Numeral(ds), ReadExponent(x) - (|ds| - 1))
  {
    var n := |MantissaText(ds)|;
    ExponentialSplit(ds, x, text);
    if |ds| > 1 {
      ReadPoint(text, 1, n, ds);
    } else {
      ScanDigits(text, 0, n, Decimal(0, 0), false);
    }
  }

  lemma LeadingZerosRead(ds: seq<char>, n: nat, text: seq<char>)
    requires AllDigits(ds) && text == "0." + Zeros(n) + ds
    ensures Read(text) == Decimal(Numeral(ds), -(n + |ds|))
  {
    var all := Zeros(n + 1) + ds;
    LeadingZerosSplit(ds, n, text, all);
    ReadPoint(text, 1, |text|, all);
    LeadingZerosNumeral(ds, n + 1, all);
  }

  lemma LeadingZerosSplit(ds: seq<char>, n: nat, text: seq<char>, all: seq<char>)
    requires AllDigits(ds) && text == "0." + Zeros(n) + ds && all == Zeros(n + 1) + ds
    ensures |text| == |all| + 1 && text[1] == '.' && AllDigits(all)
    ensures all == text[..1] + text[2..|text|]
  {
    forall i | 0 <= i < |all| ensures all[i] == (text[..1] + text[2..|text|])[i] {
      assert i >= 1 ==> all[i] == text[i + 1];
    }
  }

  lemma LeadingZerosNumeral(ds: seq<char>, n: nat, s: seq<char>)
    requires s == Zeros(n) + ds
    ensures Numeral(s) == Numeral(ds)
  {
    NumeralConcat(Zeros(n), ds);
    NumeralZeros(n);
  }

  lemma PointInsideReads(ds: seq<char>, n: nat, text: seq<char>)
    requires n <= |ds| && AllDigits(ds) && text == ds[..n] + "." + ds[n..]
    ensures Read(text) == Decimal(Numeral(ds), -(|ds| - n))
  {
    hide Scan, Numeral, AllDigits;
    assert text[n] == '.' && text[..n] == ds[..n] && text[n + 1..|text|] == ds[n..];
    assert ds == ds[..n] + ds[n..];
    ReadPoint(text, n, |text|, ds);
    ScanEnd(text, Decimal(Numeral(ds), -(|ds| - n)), true);
  }

  lemma ScanEnd(text: seq<char>, d: Decimal, dot: bool)
    ensures Scan(text, |text|, d, dot) == d
  {
  }

  lemma TrailingZerosRead(ds: seq<char>, n: nat, text: seq<char>)
    requires AllDigits(ds) && text == ds + Zeros(n) + ".0"
    ensures Read(text) == Decimal(Numeral(ds) * Pow(10, n + 1), -1)
  {
    var all := ds + Zeros(n + 1);
    assert all == text[..|ds| + n] + text[|ds| + n + 1..|text|];
    ReadPoint(text, |ds| + n, |text|, all);
    NumeralConcat(ds, Zeros(n + 1));
    NumeralZeros(n + 1);
  }

  /** The value theorem: whatever the layout, the text spells `d.ddd` times ten to the `e`. */
  lemma LayoutReads(ds: seq<char>, e: int, force: bool)
    requires 0 < |ds| && AllDigits(ds) && InRange(e)
    ensures Read(Layout(ds, e, force)).Spells(Decimal(Numeral(ds), e - (|ds| - 1)))
  {
    hide Read, Numeral, MantissaText, ExponentText, ReadExponent, Zeros;
    var text := Layout(ds, e, force);
    SameSpells(Decimal(Numeral(ds), e - (|ds| - 1)));
    if e < -4 || force {
      ExponentReads(e);
      ExponentialReads(ds, ExponentText(e), text);
    } else if e < 0 {
      LeadingZerosRead(ds, -e - 1, text);
    } else if e + 1 < |ds| {
      PointInsideReads(ds, e + 1, text);
    } else {
      TrailingZerosRead(ds, e + 1 - |ds|, text);
    }
  }

  lemma SameSpells(d: Decimal)
    ensures d.Spells(d)
  {
    assert Pow(10, 0) == 1;
  }

  // ---- which layout, and that nothing else reads the same ----

  /** The exponential layout of `n` digits: one digit before the point, no point if it is the
      only one, a sign, and two digits of exponent or as many as it has. */
  predicate IsExponential(text: seq<char>, n: nat, e: int)
    requires 0 < n
  {
    var m := if n == 1 then 1 else n + 1;
    && m + 4 <= |text| && AllDigits(text[..1]) && (n > 1 ==> text[1] == '.' && AllDigits(text[2..m]))
    && text[m] == 'e' && text[m + 1] == (if e < 0 then '-' else '+')
    && AllDigits(text[m + 2..]) && (|text| > m + 4 ==> text[m + 2] != '0')
  }

  /** The plain layout of `n` digits, the first of them at ten to the `e`: before the point as
      many digits as the number has there, or a zero, and after it as many as are left, or a
      zero. */
  predicate IsPlain(text: seq<char>, n: nat, e: int) {
    var i, f := if e < 0 then 1 else e + 1, if n <= e + 1 then 1 else n - 1 - e;
    && |text| == i + 1 + f && text[i] == '.' && AllDigits(text[..i]) && AllDigits(text[i + 1..])
  }

  predicate HasShape(text: seq<char>, n: nat, e: int, force: bool)
    requires 0 < n
  {
    if force || e < -4 then IsExponential(text, n, e) else IsPlain(text, n, e)
  }

  /** The layout is exponential exactly if it is asked for or the number is below 0.0001, and
      otherwise plain. */
  lemma LayoutShape(ds: seq<char>, e: int, force: bool)
    requires 0 < |ds| && AllDigits(ds) && InRange(e)
    ensures HasShape(Layout(ds, e, force), |ds|, e, force)
  {
    hide AllDigits;
    var text := Layout(ds, e, force);
    if e < -4 || force {
      ExponentialShape(ds, e, text);
    } else if e < 0 {
      var zeros := Zeros(-e - 1);
      assert text[..1] == "0" && text[2..] == zeros + ds;
      ZeroDigits(-e - 1);
      DigitsJoin("0", []);
      DigitsJoin(zeros, ds);
    } else if e + 1 < |ds| {
      assert text[..e + 1] == ds[..e + 1] && text[e + 2..] == ds[e + 1..];
      assert ds == ds[..e + 1] + ds[e + 1..];
      DigitsIn(ds, ds[..e + 1], ds[e + 1..]);
    } else {
      var zeros := Zeros(e + 1 - |ds|);
      assert text[..e + 1] == ds + zeros && text[e + 2..] == "0";
      ZeroDigits(e + 1 - |ds|);
      DigitsJoin(ds, zeros);
      DigitsJoin("0", []);
    }
  }

  lemma ZeroDigits(n: nat)
    ensures AllDigits(Zeros(n)) && AllDigits("0") && AllDigits([])
  {
  }

  lemma DigitsJoin(a: seq<char>, b: seq<char>)
    ensures AllDigits(a) && AllDigits(b) ==> AllDigits(a + b)
  {
  }

  lemma ExponentialShape(ds: seq<char>, e: int, text: seq<char>)
    requires 0 < |ds| && AllDigits(ds) && InRange(e) && text == MantissaText(ds) + "e" + ExponentText(e)
    ensures IsExponential(text, |ds|, e)
  {
    var m, n := |MantissaText(ds)|, if e < 0 then -e else e;
    ExponentialSplit(ds, ExponentText(e), text);
    ExponentDigitsShape(n);
    hide AllDigits, ExponentDigits, MantissaText;
    assert ds == ds[..1] + ds[1..] && text[..1] == ds[..1];
    DigitsIn(ds, ds[..1], ds[1..]);
    if |ds| > 1 { assert text[2..m] == ds[1..]; }
    assert text[m + 1..][1..] == text[m + 2..];
    assert ExponentText(e)[1..] == ExponentDigits(n);
  }

  lemma ExponentDigitsShape(n: nat)
    requires n < 10000
    ensures var s := ExponentDigits(n); AllDigits(s) && 2 <= |s| && (2 < |s| ==> s[0] != '0')
  {
  }

  /** The shape shows in the text: an `e`, a point and the first character. */
  lemma ShapeShows(text: seq<char>, n: nat, e: int, force: bool)
    requires 0 < n && HasShape(text, n, e, force)
    ensures 'e' in text <==> force || e < -4
    ensures text != [] && IsDigit(text[0])
    ensures '.' in text <==> !(force || e < -4) || 1 < n
  {
    if force || e < -4 {
      var m := if n == 1 then 1 else n + 1;
      assert text[m] == 'e' && IsDigit(text[..1][0]);
      forall k | m + 1 < k < |text| ensures text[k] != '.' {
        assert IsDigit(text[m + 2..][k - m - 2]);
      }
    } else {
      var i := if e < 0 then 1 else e + 1;
      forall k | 0 <= k < |text| ensures text[k] != 'e' {
        assert k < i ==> IsDigit(text[..i][k]);
        assert i < k ==> IsDigit(text[i + 1..][k - i - 1]);
      }
      assert IsDigit(text[..i][0]);
    }
  }

  /** The digits around the point of a plain text. */
  lemma PlainReads(text: seq<char>, n: nat, e: int)
    requires IsPlain(text, n, e)
    ensures var i := if e < 0 then 1 else e + 1;
      AllDigits(text[..i] + text[i + 1..]) && Read(text) == Decimal(Numeral(text[..i] + text[i + 1..]), -(|text| - i - 1))
  {
    hide AllDigits, Scan, Numeral;
    var i := if e < 0 then 1 else e + 1;
    DigitsJoin(text[..i], text[i + 1..]);
    assert text[i + 1..|text|] == text[i + 1..];
    ReadPoint(text, i, |text|, text[..i] + text[i + 1..]);
    ScanEnd(text, Decimal(Numeral(text[..i] + text[i + 1..]), -(|text| - i - 1)), true);
  }

  /** Shape and reading determine the text, so each layout is the only one of its shape. */
  lemma OnlyText(s: seq<char>, t: seq<char>, n: nat, e: int, force: bool)
    requires 0 < n && HasShape(s, n, e, force) && HasShape(t, n, e, force) && Read(s) == Read(t)
    ensures s == t
  {
    hide Read, Numeral, AllDigits;
    if force || e < -4 {
      OnlyExponential(s, t, n, e);
    } else {
      var i := if e < 0 then 1 else e + 1;
      PlainReads(s, n, e);
      PlainReads(t, n, e);
      NumeralInjective(s[..i] + s[i + 1..], t[..i] + t[i + 1..]);
      SamePieces(s, t, i);
    }
  }

  lemma SamePieces(s: seq<char>, t: seq<char>, i: nat)
    requires i < |s| == |t| && s[i] == t[i] && s[..i] + s[i + 1..] == t[..i] + t[i + 1..]
    ensures s == t
  {
    var a, b := s[..i] + s[i + 1..], t[..i] + t[i + 1..];
    forall k | 0 <= k < |s| ensures s[k] == t[k] {
      if k < i {
        assert a[k] == s[k] && b[k] == t[k];
      } else if i < k {
        assert a[k - 1] == s[k] && b[k - 1] == t[k];
      }
    }
  }

  /** The digits of the significand and the exponent of an exponential text. */
  lemma ExponentialParts(text: seq<char>, n: nat, e: int)
    returns (ds: seq<char>, x: seq<char>)
    requires 0 < n && IsExponential(text, n, e)
    ensures |ds| == n && AllDigits(ds) && text == MantissaText(ds) + "e" + [if e < 0 then '-' else '+'] + x
    ensures AllDigits(x) && 2 <= |x| && (2 < |x| ==> x[0] != '0')
    ensures Read(text) == Decimal(Numeral(ds), (if e < 0 then -(Numeral(x) as int) else Numeral(x)) - (n - 1))
  {
    hide Read, Numeral, AllDigits, MantissaText;
    var m := if n == 1 then 1 else n + 1;
    ds, x := if n == 1 then text[..1] else text[..1] + text[2..m], text[m + 2..];
    if 1 < n { DigitsJoin(text[..1], text[2..m]); }
    var sign := [if e < 0 then '-' else '+'];
    MantissaAt(text, n, m, ds);
    assert text[m + 1..] == sign + x;
    assert text == MantissaText(ds) + "e" + (sign + x);
    ExponentialReads(ds, sign + x, text);
    assert (sign + x)[1..] == x;
  }

  lemma MantissaAt(text: seq<char>, n: nat, m: nat, ds: seq<char>)
    requires 0 < n && m == (if n == 1 then 1 else n + 1) && m <= |text| && (n > 1 ==> text[1] == '.')
    requires ds == if n == 1 then text[..1] else text[..1] + text[2..m]
    ensures MantissaText(ds) == text[..m]
  {
  }

  lemma OnlyExponential(s: seq<char>, t: seq<char>, n: nat, e: int)
    requires 0 < n && IsExponential(s, n, e) && IsExponential(t, n, e) && Read(s) == Read(t)
    ensures s == t
  {
    hide Read, Numeral, AllDigits, MantissaText, IsExponential;
    var ds, x := ExponentialParts(s, n, e);
    var ds', x' := ExponentialParts(t, n, e);
    NumeralInjective(ds, ds');
    OnlyExponent(x, x');
  }

  lemma OnlyExponent(x: seq<char>, y: seq<char>)
    requires AllDigits(x) && AllDigits(y) && 2 <= |x| && 2 <= |y| && Numeral(x) == Numeral(y)
    requires (2 < |x| ==> x[0] != '0') && (2 < |y| ==> y[0] != '0')
    ensures x == y
  {
    hide Numeral, AllDigits, Pow;
    if |x| < |y| {
      LongerIsGreater(x, y);
    } else if |y| < |x| {
      LongerIsGreater(y, x);
    }
    NumeralInjective(x, y);
  }

  lemma LongerIsGreater(x: seq<char>, y: seq<char>)
    requires |x| < |y| && AllDigits(y) && y[0] != '0'
    ensures Numeral(x) < Numeral(y)
  {
    hide Numeral, AllDigits, Pow;
    NumeralBound(x);
    NumeralAtLeast(y);
    PowMonotone(10, |x|, |y| - 1);
  }

  // ---- the in-place shuffling ----

  function Moved(s: seq<char>, to: nat, from: nat, n: nat): (r: seq<char>)
    requires to + n <= |s| && from + n <= |s|
    ensures |r| == |s|
    ensures forall i | 0 <= i < |s| :: r[i] == if to <= i < to + n then s[i - to + from] else s[i]
  {
    s[..to] + s[from..from + n] + s[to + n..]
  }

  function Filled(s: seq<char>, at: nat, n: nat): (r: seq<char>)
    requires at + n <= |s|
    ensures |r| == |s|
    ensures forall i | 0 <= i < |s| :: r[i] == if at <= i < at + n then '0' else s[i]
  {
    s[..at] + Zeros(n) + s[at + n..]
  }

  /** `memmove`. */
  method Move(dest: array<char>, to: nat, from: nat, n: nat)
    requires to + n <= dest.Length && from + n <= dest.Length
    modifies dest
    ensures dest[..] == Moved(old(dest[..]), to, from, n)
  {
    var copy := dest[from..from + n];
    for k := 0 to n
      invariant forall i | 0 <= i < dest.Length ::
                  dest[i] == if to <= i < to + k then copy[i - to] else old(dest[..])[i]
    {
      dest[to + k] := copy[k];
    }
  }

  /** `memset`. */
  method Fill(dest: array<char>, at: nat, n: nat)
    requires at + n <= dest.Length
    modifies dest
    ensures dest[..] == Filled(old(dest[..]), at, n)
  {
    for k := 0 to n
      invariant forall i | 0 <= i < dest.Length :: dest[i] == if at <= i < at + k then '0' else old(dest[i])
    {
      dest[at + k] := '0';
    }
  }

  /** The buffer is as it was up to `first` and then holds `text`, which ends at `p`. */
  ghost predicate Written(dest: array<char>, was: seq<char>, first: nat, text: seq<char>, p: nat)
    reads dest
  {
    && |was| == dest.Length && p == first + |text| <= dest.Length
    && dest[..first] == was[..first] && dest[first..p] == text
  }

  lemma WrittenByIndex(dest: array<char>, was: seq<char>, now: seq<char>, first: nat, text: seq<char>, p: nat)
    requires dest[..] == now && |was| == |now| && p == first + |text| <= |now|
    requires forall i | 0 <= i < first :: now[i] == was[i]
    requires forall i | first <= i < p :: now[i] == text[i - first]
    ensures Written(dest, was, first, text, p)
  {
    assert dest[first..p] == now[first..p];
    assert dest[..first] == now[..first];
    forall k | 0 <= k < |text| ensures now[first..p][k] == text[k] {
      assert now[first + k] == text[first + k - first];
    }
  }

  /** Writes a string after what has been written. */
  method Append(dest: array<char>, p0: nat, s: seq<char>, ghost was: seq<char>, ghost first: nat, ghost text: seq<char>)
    returns (p: nat)
    requires Written(dest, was, first, text, p0) && p0 + |s| <= dest.Length
    modifies dest
    ensures p == p0 + |s| && Written(dest, was, first, text + s, p)
  {
    p := p0;
    for i := 0 to |s|
      invariant p == p0 + i && Written(dest, was, first, text + s[..i], p)
    {
      dest[p] := s[i];
      p := p + 1;
      assert text + s[..i + 1] == text + s[..i] + [s[i]];
    }
    assert s[..|s|] == s;
  }

  /** The digits of the exponent, or zero if they do not fit with the terminator. */
  method AppendExponentDigits(dest: array<char>, p0: nat, m: nat, ghost was: seq<char>, ghost first: nat, ghost text: seq<char>)
    returns (r: nat)
    requires Written(dest, was, first, text, p0) && m < 10000 && 0 < p0 <= dest.Length - 3
    modifies dest
    ensures r == 0 <==> p0 + |ExponentDigits(m)| + 1 > dest.Length
    ensures r != 0 ==> Written(dest, was, first, text + ExponentDigits(m), r) && r < dest.Length
  {
    var p, n := p0, m;
    ghost var high: seq<char> := [];
    if n > 99 {
      if n > 999 {
        if p > dest.Length - 5 {
          return 0;
        }
        high := Pair(n / 100);
        p := Append(dest, p, Pair(n / 100), was, first, text);
      } else {
        if p > dest.Length - 4 {
          return 0;
        }
        high := [DigitChar(n / 100)];
        p := Append(dest, p, [DigitChar(n / 100)], was, first, text);
      }
      n := n % 100;
    } else {
      assert text == text + high;
    }
    r := Append(dest, p, Pair(n), was, first, text + high);
    assert ExponentDigits(m) == high + Pair(n);
    assert text + high + Pair(n) == text + ExponentDigits(m);
  }

  /** The exponent part, or zero if it does not fit with its terminator. */
  method AppendExponent(dest: array<char>, p0: nat, e: int, ghost was: seq<char>, ghost first: nat, ghost text: seq<char>)
    returns (r: nat)
    requires Written(dest, was, first, text, p0) && InRange(e)
    modifies dest
    ensures r == 0 <==> p0 + 1 + |ExponentText(e)| + 1 > dest.Length
    ensures r != 0 ==> Written(dest, was, first, text + "e" + ExponentText(e), r) && r < dest.Length
  {
    var p, n := p0, if e < 0 then -e else e;
    if p > dest.Length - 5 {
      return 0;
    }
    var sign := if e < 0 then "-" else "+";
    p := Append(dest, p, "e", was, first, text);
    p := Append(dest, p, sign, was, first, text + "e");
    r := AppendExponentDigits(dest, p, n, was, first, text + "e" + sign);
    assert text + "e" + sign + ExponentDigits(n) == text + "e" + ExponentText(e);
  }

  /** "0271828", 93 => "2.71828e93" */
  method Exponential(dest: array<char>, p0: nat, first: nat, e: int) returns (r: nat)
    requires first + 2 <= p0 < dest.Length && InRange(e)
    modifies dest
    ensures var text := MantissaText(old(dest[first + 1..p0])) + "e" + ExponentText(e);
            && (r == 0 <==> first + |text| + 1 > dest.Length)
            && (r != 0 ==> Written(dest, old(dest[..]), first, text, r) && r < dest.Length)
  {
    ghost var was, ds := dest[..], dest[first + 1..p0];
    var p := p0;
    dest[first] := dest[first + 1];
    if p0 - first - 1 > 1 {
      dest[first + 1] := '.';
    } else {
      p := p - 1;
    }
    assert dest[first..p] == MantissaText(ds);
    r := AppendExponent(dest, p, e, was, first, MantissaText(ds));
  }

  lemma LeadingZerosWritten(dest: array<char>, was: seq<char>, now: seq<char>, first: nat, p: nat, n: nat)
    requires dest[..] == now && first + 2 <= p && p + n <= |was| && 0 < n && was[first] == '0'
    requires now == Filled(Moved(was, first + n, first, p - first), first, n)[first + 1 := '.']
    ensures Written(dest, was, first, "0." + Zeros(n - 1) + was[first + 1..p], p + n)
  {
    var text := "0." + Zeros(n - 1) + was[first + 1..p];
    forall i | first <= i < p + n ensures now[i] == text[i - first] {
      assert i > first + n ==> now[i] == was[i - n] == was[first + 1..p][i - n - first - 1];
    }
    WrittenByIndex(dest, was, now, first, text, p + n);
  }

  lemma TrailingZerosWritten(dest: array<char>, was: seq<char>, now: seq<char>, first: nat, p: nat, n: nat)
    requires dest[..] == now && first + 2 <= p && p + n < |was| - 1
    requires var moved := Moved(was, first, first + 1, p - first - 1);
             now == Filled(moved, p - 1, n)[p - 1 + n := '.'][p + n := '0']
    ensures Written(dest, was, first, was[first + 1..p] + Zeros(n) + ".0", p + n + 1)
  {
    var ds := was[first + 1..p];
    var text := ds + Zeros(n) + ".0";
    forall i | first <= i < p + n + 1 ensures now[i] == text[i - first] {
      assert i < p - 1 ==> now[i] == was[i + 1] == ds[i - first];
      assert p - 1 <= i < p - 1 + n ==> now[i] == '0';
    }
    WrittenByIndex(dest, was, now, first, text, p + n + 1);
  }

  /** Slides the digits back and puts zeros and a point in front. */
  method PrependZeros(dest: array<char>, p: nat, first: nat, n: nat)
    requires first + 2 <= p && p + n <= dest.Length && 0 < n && dest[first] == '0'
    modifies dest
    ensures Written(dest, old(dest[..]), first, "0." + Zeros(n - 1) + old(dest[..])[first + 1..p], p + n)
  {
    hide Moved, Filled, Written, Zeros;
    ghost var was := dest[..];
    Move(dest, first + n, first, p - first);
    Fill(dest, first, n);
    ghost var filled := dest[..];
    dest[first + 1] := '.';
    assert dest[..] == filled[first + 1 := '.'];
    LeadingZerosWritten(dest, was, dest[..], first, p, n);
  }

  /** "0271828", -3 => "0.00271828" */
  method LeadingZeros(dest: array<char>, p0: nat, first: nat, e: int) returns (r: nat)
    requires first + 2 <= p0 < dest.Length && -4 <= e < 0 && dest[first] == '0'
    modifies dest
    ensures var text := "0." + Zeros(-e - 1) + old(dest[first + 1..p0]);
            && (r == 0 <==> first + |text| + 1 > dest.Length)
            && (r != 0 ==> Written(dest, old(dest[..]), first, text, r) && r < dest.Length)
  {
    if p0 > dest.Length + e - 1 {
      return 0;
    }
    hide Written;
    assert dest[..][first + 1..p0] == dest[first + 1..p0];
    PrependZeros(dest, p0, first, -e);
    r := p0 - e;
  }

  /** "0271828", 1 => "27.1828" */
  method PointInside(dest: array<char>, p0: nat, first: nat, e: int) returns (r: nat)
    requires first + 2 <= p0 < dest.Length && 0 <= e && e + 1 < p0 - first - 1
    modifies dest
    ensures var ds := old(dest[first + 1..p0]);
            Written(dest, old(dest[..]), first, ds[..e + 1] + "." + ds[e + 1..], r) && 0 < r < dest.Length
  {
    hide Moved, Written;
    ghost var was, ds := dest[..], dest[first + 1..p0];
    SliceOf(dest, first + 1, p0);
    PlacePoint(dest, first, e + 1);
    r := p0;
    PointInsideWritten(dest, was, dest[..], first, p0, e + 1, ds);
  }

  method PlacePoint(dest: array<char>, first: nat, n: nat)
    requires first + 1 + n <= dest.Length
    modifies dest
    ensures dest[..] == Moved(old(dest[..]), first, first + 1, n)[first + n := '.']
  {
    hide Moved;
    Move(dest, first, first + 1, n);
    ghost var moved := dest[..];
    dest[first + n] := '.';
    assert dest[..] == moved[first + n := '.'];
  }

  lemma SliceOf(dest: array<char>, i: nat, j: nat)
    requires i <= j <= dest.Length
    ensures dest[i..j] == dest[..][i..j]
  {
  }

  lemma PointInsideWritten(dest: array<char>, was: seq<char>, now: seq<char>, first: nat, p: nat, n: nat, ds: seq<char>)
    requires dest[..] == now && first + 1 + n < p <= |was| && ds == was[first + 1..p]
    requires now == Moved(was, first, first + 1, n)[first + n := '.']
    ensures Written(dest, was, first, ds[..n] + "." + ds[n..], p)
  {
    var text := ds[..n] + "." + ds[n..];
    forall i | first <= i < p ensures now[i] == text[i - first] {
      assert i < first + n ==> now[i] == was[i + 1] == ds[i - first];
      assert i > first + n ==> now[i] == was[i] == ds[i - first - 1];
    }
    WrittenByIndex(dest, was, now, first, text, p);
  }

  /** Slides the digits forward and appends zeros and ".0". */
  method AppendZeros(dest: array<char>, p0: nat, first: nat, n: nat)
    requires first + 2 <= p0 && p0 + n < dest.Length - 1
    modifies dest
    ensures Written(dest, old(dest[..]), first, old(dest[..])[first + 1..p0] + Zeros(n) + ".0", p0 + n + 1)
  {
    hide Moved, Filled, Written, Zeros;
    ghost var was := dest[..];
    var p := p0;
    Move(dest, first, first + 1, p - first - 1);
    p := p - 1;
    Fill(dest, p, n);
    p := p + n;
    ghost var filled := dest[..];
    dest[p] := '.';
    p := p + 1;
    dest[p] := '0';
    assert dest[..] == filled[p - 1 := '.'][p := '0'];
    TrailingZerosWritten(dest, was, dest[..], first, p0, n);
  }

  /** "0271828", 8 => "271828000.0" */
  method TrailingZeros(dest: array<char>, p0: nat, first: nat, e: int) returns (r: nat)
    requires first + 2 <= p0 < dest.Length && p0 - first - 1 <= e + 1
    modifies dest
    ensures var ds := old(dest[first + 1..p0]);
            var text := ds + Zeros(e + 1 - |ds|) + ".0";
            && (r == 0 <==> first + |text| + 1 > dest.Length)
            && (r != 0 ==> Written(dest, old(dest[..]), first, text, r) && r < dest.Length)
  {
    var digitCount := p0 - first - 1;
    if p0 + e - digitCount > dest.Length - 3 {
      return 0;
    }
    hide Written;
    assert dest[..][first + 1..p0] == dest[first + 1..p0];
    AppendZeros(dest, p0, first, e - digitCount + 1);
    r := p0 + e - digitCount + 2;
  }

  /** `finishFormatting`: the layout in place of the digits, terminated, or zero and an
      empty string exactly when text and terminator do not fit. */
  method FinishFormatting(dest: array<char>, p: nat, first: nat, force: bool, e: int) returns (r: nat)
    requires first + 2 <= p < dest.Length && InRange(e)
    requires dest[first] == '0' && AllDigits(dest[first + 1..p])
    modifies dest
    ensures var text := Layout(old(dest[first + 1..p]), e, force);
            if first + |text| + 1 > dest.Length then r == 0 && dest[0] == '\0'
            else && r == first + |text| && dest[..first] == old(dest[..first])
                 && dest[first..r] == text && dest[r] == '\0'
  {
    if e < -4 || force {
      r := Exponential(dest, p, first, e);
    } else if e < 0 {
      r := LeadingZeros(dest, p, first, e);
    } else if e + 1 < p - first - 1 {
      r := PointInside(dest, p, first, e);
    } else {
      r := TrailingZeros(dest, p, first, e);
    }
    dest[r] := '\0';
  }
}
