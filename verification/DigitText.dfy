/** Decimal digits as text, and an independent reader for decimal numbers. */
module DigitText {
  import opened Powers

  function DigitChar(d: nat): (c: char)
    requires d < 10
    ensures IsDigit(c) && DigitOf(c) == d
  {
    '0' + d as char
  }

  predicate IsDigit(c: char) { '0' <= c <= '9' }

  function DigitOf(c: char): (d: nat)
    ensures d < 10
  {
    if IsDigit(c) then c as int - '0' as int else 0
  }

  predicate AllDigits(s: seq<char>) { forall i | 0 <= i < |s| :: IsDigit(s[i]) }

  /** The number a digit string stands for. */
  function Numeral(s: seq<char>): nat {
    if s == [] then 0 else 10 * Numeral(s[..|s| - 1]) + DigitOf(s[|s| - 1])
  }

  lemma NumeralAppend(s: seq<char>, c: char)
    ensures Numeral(s + [c]) == 10 * Numeral(s) + DigitOf(c)
  {
    assert (s + [c])[..|s|] == s;
  }

  /** Reads an exponent: an optional sign and digits. */
  function ReadExponent(s: seq<char>): int {
    if s == [] then 0
    else if s[0] == '-' then -(Numeral(s[1..]) as int)
    else if s[0] == '+' then Numeral(s[1..])
    else Numeral(s)
  }

  /** A decimal number: `mantissa` times ten to the `exponent`. */
  datatype Decimal = Decimal(mantissa: nat, exponent: int) {
    /** Equal as numbers, written with at least as many digits. */
    ghost predicate Spells(d: Decimal) {
      exponent <= d.exponent && mantissa == d.mantissa * Pow(10, d.exponent - exponent)
    }
  }

  /** Reads an unsigned decimal number left to right from index `i`; `so` is what the
      part already read stands for and `dot` whether the point has been passed. */
  function Scan(s: seq<char>, i: nat, so: Decimal, dot: bool): Decimal
    requires i <= |s|
    decreases |s| - i
  {
    if i == |s| then so
    else if s[i] == 'e' then Decimal(so.mantissa, so.exponent + ReadExponent(s[i + 1..]))
    else if s[i] == '.' then Scan(s, i + 1, so, true)
    else Scan(s, i + 1, Decimal(10 * so.mantissa + DigitOf(s[i]), if dot then so.exponent - 1 else so.exponent), dot)
  }

  function Read(s: seq<char>): Decimal { Scan(s, 0, Decimal(0, 0), false) }

  lemma Horner(m: int, p: int, x: int, d: int)
    ensures 10 * (m * p + x) + d == m * (10 * p) + (10 * x + d)
  {
  }

  /** Reading a run of digits multiplies and adds; after the point it also lowers the exponent. */
  lemma {:induction false} ScanDigits(s: seq<char>, i: nat, j: nat, so: Decimal, dot: bool)
    requires i <= j <= |s| && AllDigits(s[i..j])
    ensures Scan(s, i, so, dot)
            == Scan(s, j, Decimal(so.mantissa * Pow(10, j - i) + Numeral(s[i..j]),
                                  if dot then so.exponent - (j - i) else so.exponent), dot)
    decreases j
  {
    if i < j {
      var ds := s[i..j];
      assert IsDigit(ds[j - 1 - i]);
      assert ds[..j - 1 - i] == s[i..j - 1];
      ScanDigits(s, i, j - 1, so, dot);
      Horner(so.mantissa, Pow(10, j - 1 - i), Numeral(s[i..j - 1]), DigitOf(s[j - 1]));
    }
  }

  lemma {:induction false} NumeralConcat(s: seq<char>, t: seq<char>)
    ensures Numeral(s + t) == Numeral(s) * Pow(10, |t|) + Numeral(t)
    decreases |t|
  {
    if t == [] {
      assert s + t == s;
    } else {
      var n := |t| - 1;
      assert s + t == (s + t[..n]) + [t[n]];
      NumeralAppend(s + t[..n], t[n]);
      NumeralConcat(s, t[..n]);
      Horner(Numeral(s), Pow(10, n), Numeral(t[..n]), DigitOf(t[n]));
    }
  }

  lemma {:induction false} NumeralZeros(n: nat)
    ensures Numeral(seq(n, _ => '0')) == 0
  {
    if n != 0 {
      assert seq(n, _ => '0')[..n - 1] == seq(n - 1, _ => '0');
      NumeralZeros(n - 1);
    }
  }

  lemma {:induction false} NumeralBound(s: seq<char>)
    ensures Numeral(s) < Pow(10, |s|)
  {
    if s != [] { NumeralBound(s[..|s| - 1]); }
  }

  /** Digit strings of one length differ in value. */
  lemma {:induction false} NumeralInjective(s: seq<char>, t: seq<char>)
    requires |s| == |t| && AllDigits(s) && AllDigits(t) && Numeral(s) == Numeral(t)
    ensures s == t
  {
    hide Numeral, AllDigits;
    if s != [] {
      var n := |s| - 1;
      SameLast(s, t, n);
      NumeralInjective(s[..n], t[..n]);
      assert s == s[..n] + [s[n]] && t == t[..n] + [t[n]];
    }
  }

  lemma SameLast(s: seq<char>, t: seq<char>, n: nat)
    requires |s| == |t| == n + 1 && AllDigits(s) && AllDigits(t) && Numeral(s) == Numeral(t)
    ensures AllDigits(s[..n]) && AllDigits(t[..n]) && Numeral(s[..n]) == Numeral(t[..n]) && s[n] == t[n]
  {
    assert IsDigit(s[n]) && IsDigit(t[n]);
    var a, b := Numeral(s[..n]), Numeral(t[..n]);
    assert Numeral(s) == 10 * a + DigitOf(s[n]) && Numeral(t) == 10 * b + DigitOf(t[n]);
    hide Numeral;
  }

  /** A first digit that is not zero weighs as much as the length allows. */
  lemma NumeralAtLeast(s: seq<char>)
    requires s != [] && AllDigits(s) && s[0] != '0'
    ensures Pow(10, |s| - 1) <= Numeral(s)
  {
    assert s == s[..1] + s[1..];
    NumeralConcat(s[..1], s[1..]);
    assert IsDigit(s[0]) && Numeral(s[..1]) == DigitOf(s[0]);
  }
}
