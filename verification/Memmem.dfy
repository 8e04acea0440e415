/** `mmmm` and `mmmmr`: the leftmost and the last occurrence of a needle. */
module Memmem {
  import opened Powers
  import opened Words
  import opened Options
  import opened TwoWay

  ghost predicate IsLast(h: seq<Byte>, n: seq<Byte>, i: int) {
    OccursAt(h, n, i) && forall j | i < j :: !OccursAt(h, n, j)
  }

  // ---- needles of two, three and four bytes: a rolling machine word ----

  function Word16(a: Byte, b: Byte): (w: int)
    ensures 0 <= w < 0x1_0000
  {
    a as int * 0x100 + b as int
  }

  function Word24(a: Byte, b: Byte, c: Byte): int { Word32(a, b, c, 0) }

  function Word32(a: Byte, b: Byte, c: Byte, d: Byte): (w: int)
    ensures 0 <= w < 0x1_0000_0000
  {
    Word16(a, b) * 0x1_0000 + Word16(c, d)
  }

  lemma SameWord16(a: Byte, b: Byte, a': Byte, b': Byte)
    ensures Word16(a, b) == Word16(a', b') <==> a == a' && b == b'
  {
  }

  lemma SameWord32(a: Byte, b: Byte, c: Byte, d: Byte, a': Byte, b': Byte, c': Byte, d': Byte)
    ensures Word32(a, b, c, d) == Word32(a', b', c', d') <==> a == a' && b == b' && c == c' && d == d'
  {
    SameWord16(a, b, a', b');
    SameWord16(c, d, c', d');
    hide Word16;
  }

  lemma SameWord24(a: Byte, b: Byte, c: Byte, a': Byte, b': Byte, c': Byte)
    ensures Word24(a, b, c) == Word24(a', b', c') <==> a == a' && b == b' && c == c'
  {
    SameWord32(a, b, c, 0, a', b', c', 0);
  }

  lemma RollWord16(a: Byte, b: Byte, c: Byte)
    ensures (Word16(a, b) * 0x100 + c as int) % 0x1_0000 == Word16(b, c)
  {
    QuotientUnique(Word16(a, b) * 0x100 + c as int, 0x1_0000, a as int, Word16(b, c));
  }

  lemma RollWord32(a: Byte, b: Byte, c: Byte, d: Byte, e: Byte)
    ensures (Word32(a, b, c, d) * 0x100 + e as int) % 0x1_0000_0000 == Word32(b, c, d, e)
  {
    QuotientUnique(Word32(a, b, c, d) * 0x100 + e as int, 0x1_0000_0000, a as int, Word32(b, c, d, e));
  }

  lemma RollWord24(a: Byte, b: Byte, c: Byte, d: Byte)
    ensures ((Word24(a, b, c) + d as int) * 0x100) % 0x1_0000_0000 == Word24(b, c, d)
  {
    QuotientUnique((Word24(a, b, c) + d as int) * 0x100, 0x1_0000_0000, a as int, Word24(b, c, d));
  }

  method TwoByte(h: seq<Byte>, from: nat, n: seq<Byte>) returns (r: Option<nat>)
    requires |n| == 2 && from + 2 <= |h|
    ensures r.Some? ==> IsFirst(h, n, from, r.value)
    ensures r.None? ==> NoneFrom(h, n, from)
  {
    hide Word16;
    var nw, hw := Word16(n[0], n[1]), Word16(h[from], h[from + 1]);
    var p, k := from + 2, |h| - from - 2;
    while k != 0
      invariant from + 2 <= p <= |h| && k == |h| - p
      invariant hw == Word16(h[p - 2], h[p - 1])
      invariant SafeShift(h, n, from, p - 2 - from)
    {
      SameWord16(h[p - 2], h[p - 1], n[0], n[1]);
      if hw == nw {
        return Some(p - 2);
      }
      k := k - 1;
      RollWord16(h[p - 2], h[p - 1], h[p]);
      hw := (hw * 0x100 + h[p] as int) % 0x1_0000;
      p := p + 1;
    }
    SameWord16(h[p - 2], h[p - 1], n[0], n[1]);
    return if hw == nw then Some(p - 2) else None;
  }

  method ThreeByte(h: seq<Byte>, from: nat, n: seq<Byte>) returns (r: Option<nat>)
    requires |n| == 3 && from + 3 <= |h|
    ensures r.Some? ==> IsFirst(h, n, from, r.value)
    ensures r.None? ==> NoneFrom(h, n, from)
  {
    hide Word24;
    var nw, hw := Word24(n[0], n[1], n[2]), Word24(h[from], h[from + 1], h[from + 2]);
    var p, k := from + 3, |h| - from - 3;
    while k != 0
      invariant from + 3 <= p <= |h| && k == |h| - p
      invariant hw == Word24(h[p - 3], h[p - 2], h[p - 1])
      invariant SafeShift(h, n, from, p - 3 - from)
    {
      SameWord24(h[p - 3], h[p - 2], h[p - 1], n[0], n[1], n[2]);
      if hw == nw {
        return Some(p - 3);
      }
      k := k - 1;
      RollWord24(h[p - 3], h[p - 2], h[p - 1], h[p]);
      hw := ((hw + h[p] as int) * 0x100) % 0x1_0000_0000;
      p := p + 1;
    }
    SameWord24(h[p - 3], h[p - 2], h[p - 1], n[0], n[1], n[2]);
    return if hw == nw then Some(p - 3) else None;
  }

  method FourByte(h: seq<Byte>, from: nat, n: seq<Byte>) returns (r: Option<nat>)
    requires |n| == 4 && from + 4 <= |h|
    ensures r.Some? ==> IsFirst(h, n, from, r.value)
    ensures r.None? ==> NoneFrom(h, n, from)
  {
    hide Word32;
    var nw, hw := Word32(n[0], n[1], n[2], n[3]), Word32(h[from], h[from + 1], h[from + 2], h[from + 3]);
    var p, k := from + 4, |h| - from - 4;
    while k != 0
      invariant from + 4 <= p <= |h| && k == |h| - p
      invariant hw == Word32(h[p - 4], h[p - 3], h[p - 2], h[p - 1])
      invariant SafeShift(h, n, from, p - 4 - from)
    {
      SameWord32(h[p - 4], h[p - 3], h[p - 2], h[p - 1], n[0], n[1], n[2], n[3]);
      if hw == nw {
        return Some(p - 4);
      }
      k := k - 1;
      RollWord32(h[p - 4], h[p - 3], h[p - 2], h[p - 1], h[p]);
      hw := (hw * 0x100 + h[p] as int) % 0x1_0000_0000;
      p := p + 1;
    }
    SameWord32(h[p - 4], h[p - 3], h[p - 2], h[p - 1], n[0], n[1], n[2], n[3]);
    return if hw == nw then Some(p - 4) else None;
  }

  // ---- the dispatcher ----

  /** `memchr`. */
  method FindByte(h: seq<Byte>, b: Byte) returns (r: Option<nat>)
    ensures r.Some? ==> r.value < |h| && h[r.value] == b && b !in h[..r.value]
    ensures r.None? ==> b !in h
  {
    for i := 0 to |h|
      invariant b !in h[..i]
    {
      if h[i] == b {
        return Some(i);
      }
    }
    return None;
  }

  /** An occurrence starts with the needle's first byte. */
  lemma FirstByteFirst(h: seq<Byte>, n: seq<Byte>, i: nat)
    requires 0 < |n| && i <= |h| && n[0] !in h[..i]
    ensures SafeShift(h, n, 0, i)
  {
    forall j | 0 <= j < 0 + i ensures !OccursAt(h, n, j) {
      assert h[..i][j] != n[0];
      assert j + |n| <= |h| ==> h[j + 0] != n[0];
    }
  }

  /** `mmmm`: the leftmost occurrence, or nothing exactly when there is none. */
  method Find(h: seq<Byte>, n: seq<Byte>) returns (r: Option<nat>)
    ensures r.Some? ==> IsFirst(h, n, 0, r.value)
    ensures r.None? ==> NoneFrom(h, n, 0)
  {
    var l := |n|;
    if l == 0 {
      return Some(0);
    }
    if |h| < l {
      return None;
    }
    var at := FindByte(h, n[0]);
    FirstByteFirst(h, n, if at.Some? then at.value else |h|);
    if at.None? || l == 1 {
      return at;
    }
    var from := at.value;
    if |h| - from < l {
      return None;
    }
    if l == 2 {
      r := TwoByte(h, from, n);
    } else if l == 3 {
      r := ThreeByte(h, from, n);
    } else if l == 4 {
      r := FourByte(h, from, n);
    } else {
      r := Search(h, from, n);
    }
  }

  lemma OccursInTail(h: seq<Byte>, n: seq<Byte>, p: nat, i: int)
    requires p <= |h| && 0 <= i
    ensures OccursAt(h[p..], n, i) <==> OccursAt(h, n, p + i)
  {
    if p + i + |n| <= |h| {
      forall j | 0 <= j < |n| ensures h[p..][i + j] == n[j] <==> h[p + i + j] == n[j] {
      }
    }
  }

  /** `mmmmr`: the last occurrence, or nothing exactly when there is none. */
  method FindLast(h: seq<Byte>, n: seq<Byte>) returns (last: Option<nat>)
    ensures last.Some? ==> IsLast(h, n, last.value)
    ensures last.None? ==> NoneFrom(h, n, 0)
  {
    if |n| == 0 {
      return Some(|h|);
    }
    if |n| > |h| {
      return None;
    }
    last := None;
    var p := 0;
    while p <= |h| - |n|
      invariant 0 <= p <= |h|
      invariant last.Some? ==> OccursAt(h, n, last.value) && last.value < p
      invariant forall j | (if last.Some? then last.value else -1) < j < p :: !OccursAt(h, n, j)
    {
      var match_ := Find(h[p..], n);
      forall j | p <= j ensures OccursAt(h, n, j) <==> OccursAt(h[p..], n, j - p) {
        OccursInTail(h, n, p, j - p);
      }
      if match_.None? {
        break;
      }
      last := Some(p + match_.value);
      p := p + match_.value + 1;
    }
  }
}
