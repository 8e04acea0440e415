/** The two-way search loop, with its bad-character table and its memory of a
    prefix that is already known to match. */
module TwoWay {
  import opened Words
  import opened CriticalFactorization
  import MaximalSuffix
  import opened Options

  // ---- the byte set and the shift table ----

  /** A machine word as its 64 bits; bit `i` has weight two to the `i`. */
  type Word = w: seq<bool> | |w| == 64 witness seq(64, _ => false)

  predicate TestBit(byteset: seq<Word>, b: Byte)
    requires |byteset| == 4
  {
    byteset[b as int / 64][b as int % 64]
  }

  /** `byteset` holds exactly the bytes of `n`, and `shift` the end of each one's last occurrence. */
  ghost predicate Tables(n: seq<Byte>, byteset: seq<Word>, shift: seq<nat>) {
    && |byteset| == 4 && |shift| == 256
    && forall b: Byte ::
         && (TestBit(byteset, b) <==> b in n)
         && (b in n ==> LastEndsAt(n, b, shift[b as int]))
  }

  ghost predicate LastEndsAt(n: seq<Byte>, b: Byte, e: int) {
    0 < e <= |n| && n[e - 1] == b && forall j | e <= j < |n| :: n[j] != b
  }

  /** The byte set after the bit of `b` has been set. */
  function WithBit(byteset: seq<Word>, b: Byte): seq<Word>
    requires |byteset| == 4
  {
    byteset[b as int / 64 := byteset[b as int / 64][b as int % 64 := true]]
  }

  /** Setting one more bit adds one more byte. */
  lemma TablesGrow(n: seq<Byte>, byteset: seq<Word>, shift: seq<nat>, b: Byte)
    requires Tables(n, byteset, shift)
    ensures Tables(n + [b], WithBit(byteset, b), shift[b as int := |n| + 1])
  {
    var byteset' := WithBit(byteset, b);
    forall a: Byte ensures TestBit(byteset', a) <==> a == b || TestBit(byteset, a) {
    }
  }

  method FillTables(n: seq<Byte>) returns (byteset: array<Word>, shift: array<nat>)
    ensures Tables(n, byteset[..], shift[..])
  {
    byteset := new Word[4](_ => seq(64, _ => false));
    shift := new nat[256];
    for i := 0 to |n|
      invariant byteset.Length == 4 && shift.Length == 256
      invariant fresh(byteset) && fresh(shift)
      invariant Tables(n[..i], byteset[..], shift[..])
    {
      var b := n[i];
      ghost var bits, ends := byteset[..], shift[..];
      byteset[b as int / 64] := byteset[b as int / 64][b as int % 64 := true];
      shift[b as int] := i + 1;
      TablesGrow(n[..i], bits, ends, b);
      assert byteset[..] == WithBit(bits, b);
      assert n[..i + 1] == n[..i] + [b];
    }
    assert n[..|n|] == n;
  }

  // ---- the factorization of the needle ----

  /** Everything the search needs to know about the critical position `c`, the shift
      `p` and the length `mem0` remembered after it. */
  ghost predicate Factorized(n: seq<Byte>, c: nat, p: nat, mem0: nat) {
    && c < |n| && 0 < p <= |n|
    && (forall s: nat | 0 < s && LocalRepetition(n, c, s) :: c < s && p <= s && PeriodFrom(n, 0, s))
    && (mem0 == 0 || (mem0 == |n| - p && c < p && PeriodFrom(n, 0, p)))
  }

  function Max(a: int, b: int): int { if a > b then a else b }

  method Factorize(n: seq<Byte>) returns (ms: int, p: nat, mem0: nat)
    requires 0 < |n|
    ensures -1 <= ms && Factorized(n, ms + 1, p, mem0)
  {
    var l := |n|;
    var ip, p0;
    ms, p0 := MaximalSuffix.Scan(n, false);
    ip, p := MaximalSuffix.Scan(n, true);
    ghost var rev, c' := false, ip + 1;
    if ip + 1 > ms + 1 {
      rev, c' := true, ms + 1;
      ms := ip;
    } else {
      p := p0;
    }
    ghost var per := p;
    if n[..ms + 1] != n[p..p + (ms + 1)] {
      mem0 := 0;
      p := Max(ms, l - ms - 1) + 1;
      Aperiodic(rev, n, ms + 1, c', per);
    } else {
      mem0 := l - p;
      Periodic(rev, n, ms + 1, c', p);
    }
  }

  lemma Periodic(rev: bool, n: seq<Byte>, c: nat, c': nat, p: nat)
    requires MaxSuffix(rev, n, c) && MaxSuffix(!rev, n, c') && c' <= c && LeastPeriodFrom(n, c, p)
    requires n[..c] == n[p..p + c]
    ensures Factorized(n, c, p, |n| - p)
  {
    assert PeriodFrom(n, 0, p) by {
      forall i, j | 0 <= i && j == i + p && j < |n| ensures n[i] == n[j] {
        if i < c { assert n[..c][i] == n[p..p + c][i]; }
      }
    }
    CriticalPosition(rev, n, c, c', p);
    forall s: nat | 0 < s && LocalRepetition(n, c, s) ensures c < s && p <= s && PeriodFrom(n, 0, s) {
      CriticalPosition(rev, n, c, c', s);
      assert PeriodFrom(n, c, s);
    }
  }

  lemma Aperiodic(rev: bool, n: seq<Byte>, c: nat, c': nat, p: nat)
    requires MaxSuffix(rev, n, c) && MaxSuffix(!rev, n, c') && c' <= c && LeastPeriodFrom(n, c, p)
    requires n[..c] != n[p..p + c]
    ensures Factorized(n, c, Max(c - 1, |n| - c) + 1, 0)
  {
    assert 0 < c;
    forall s: nat | 0 < s && LocalRepetition(n, c, s)
      ensures c < s && Max(c - 1, |n| - c) + 1 <= s && PeriodFrom(n, 0, s)
    {
      CriticalPosition(rev, n, c, c', s);
      if s <= |n| - c {
        LongPeriod(rev, n, c, c', p, s);
        assert false;
      }
    }
  }

  // ---- no shift skips an occurrence ----

  /** The letters `c..t` of the needle match at `pos`. */
  ghost predicate Matches(h: seq<Byte>, n: seq<Byte>, pos: int, c: int, t: int) {
    0 <= pos && 0 <= c && t <= |n| && pos + t <= |h| && forall i | c <= i < t :: n[i] == h[pos + i]
  }

  /** An occurrence further on makes the needle repeat where it has been matched. */
  lemma OccurrenceRepeats(h: seq<Byte>, n: seq<Byte>, pos: nat, c: nat, t: nat, s: nat)
    requires Matches(h, n, pos, c, t) && OccursAt(h, n, pos + s) && (t == |n| || c + s <= t)
    ensures LocalRepetition(n, c, s)
  {
    forall i, j | 0 <= i && c - s <= i < c && j == i + s && j < |n| ensures n[i] == n[j] {
      assert h[pos + s + i] == n[i];
      assert n[j] == h[pos + j];
    }
  }

  ghost predicate SafeShift(h: seq<Byte>, n: seq<Byte>, pos: int, shift: int) {
    forall j | pos <= j < pos + shift :: !OccursAt(h, n, j)
  }

  lemma BadByte(h: seq<Byte>, n: seq<Byte>, pos: nat, e: nat)
    requires 0 < |n| && e <= |n| && pos + |n| <= |h|
    requires forall i | e <= i < |n| :: n[i] != h[pos + |n| - 1]
    ensures SafeShift(h, n, pos, |n| - e)
  {
    forall j | pos <= j < pos + (|n| - e) ensures !OccursAt(h, n, j) {
      var i := pos + |n| - 1 - j;
      assert n[i] != h[j + i];
    }
  }

  /** What the memory stands for: the last `p` steps started from a window whose
      right part matched. */
  ghost predicate Remembered(h: seq<Byte>, n: seq<Byte>, c: nat, p: nat, pos: nat, mem: nat) {
    mem == 0 || (p <= pos && c < p && mem == |n| - p && PeriodFrom(n, 0, p) && Matches(h, n, pos - p, c, |n|))
  }

  lemma RememberedPrefix(h: seq<Byte>, n: seq<Byte>, c: nat, p: nat, pos: nat, mem: nat)
    requires Remembered(h, n, c, p, pos, mem) && pos + |n| <= |h|
    ensures Matches(h, n, pos, 0, mem)
  {
    forall i | 0 <= i < mem ensures n[i] == h[pos + i] {
      assert n[i] == n[i + p];
      assert n[i + p] == h[pos - p + (i + p)];
    }
  }

  /** An occurrence closer than the memory would have matched the last byte here. */
  lemma OccurrenceInMemory(h: seq<Byte>, n: seq<Byte>, c: nat, p: nat, mem0: nat, pos: nat, mem: nat, s: nat)
    requires Factorized(n, c, p, mem0) && Remembered(h, n, c, p, pos, mem)
    requires s < mem && OccursAt(h, n, pos + s)
    ensures h[pos + |n| - 1] == n[|n| - 1]
  {
    var l := |n|;
    OccurrenceRepeats(h, n, pos - p, c, l, s + p);
    assert n[l - 1 - s - p] == n[l - 1 - s];
    assert n[l - 1 - s - p] == n[l - 1];
    assert h[pos + s + (l - 1 - s)] == n[l - 1 - s];
  }

  /** A shorter step than the memory is never needed after a mismatch at the last byte. */
  lemma RaiseToMemory(h: seq<Byte>, n: seq<Byte>, c: nat, p: nat, mem0: nat, pos: nat, mem: nat)
    requires Factorized(n, c, p, mem0) && Remembered(h, n, c, p, pos, mem) && pos + |n| <= |h|
    requires h[pos + |n| - 1] != n[|n| - 1]
    ensures SafeShift(h, n, pos, mem)
  {
    forall j | pos <= j < pos + mem ensures !OccursAt(h, n, j) {
      if OccursAt(h, n, j) {
        OccurrenceInMemory(h, n, c, p, mem0, pos, mem, j - pos);
        assert false;
      }
    }
  }

  /** An occurrence a short step ahead would have matched one letter more here. */
  lemma OccurrenceContinues(h: seq<Byte>, n: seq<Byte>, c: nat, p: nat, mem0: nat, pos: nat, k: nat, s: nat)
    requires Factorized(n, c, p, mem0) && pos + |n| <= |h|
    requires c <= k < |n| && Matches(h, n, pos, c, k)
    requires s <= k - c && OccursAt(h, n, pos + s)
    ensures n[k] == h[pos + k]
  {
    if s != 0 {
      OccurrenceRepeats(h, n, pos, c, k, s);
      assert n[k - s] == n[k];
    }
    assert h[pos + s + (k - s)] == n[k - s];
  }

  lemma RightMismatch(h: seq<Byte>, n: seq<Byte>, c: nat, p: nat, mem0: nat, pos: nat, k: nat)
    requires Factorized(n, c, p, mem0) && pos + |n| <= |h|
    requires c <= k < |n| && Matches(h, n, pos, c, k) && n[k] != h[pos + k]
    ensures SafeShift(h, n, pos, k - c + 1)
  {
    forall j | pos <= j < pos + (k - c + 1) ensures !OccursAt(h, n, j) {
      if OccursAt(h, n, j) {
        OccurrenceContinues(h, n, c, p, mem0, pos, k, j - pos);
        assert false;
      }
    }
  }

  lemma LeftMismatch(h: seq<Byte>, n: seq<Byte>, c: nat, p: nat, mem0: nat, pos: nat, k: nat)
    requires Factorized(n, c, p, mem0) && pos + |n| <= |h|
    requires 0 < k <= c && Matches(h, n, pos, c, |n|) && n[k - 1] != h[pos + (k - 1)]
    ensures SafeShift(h, n, pos, p)
  {
    forall j | pos <= j < pos + p ensures !OccursAt(h, n, j) {
      if OccursAt(h, n, j) && j != pos {
        OccurrenceRepeats(h, n, pos, c, |n|, j - pos);
        assert false;
      }
    }
  }

  // ---- the search ----

  /** The step that aligns the needle with the byte under its last letter; zero if
      that byte matches. */
  method CompareLast(h: seq<Byte>, n: seq<Byte>, pos: nat, byteset: array<Word>, shift: array<nat>)
    returns (k: nat)
    requires 0 < |n| && pos + |n| <= |h| && Tables(n, byteset[..], shift[..])
    ensures k <= |n| && SafeShift(h, n, pos, k)
    ensures k == 0 <==> h[pos + |n| - 1] == n[|n| - 1]
  {
    var b := h[pos + |n| - 1];
    if TestBit(byteset[..], b) {
      k := |n| - shift[b as int];
      BadByte(h, n, pos, shift[b as int]);
    } else {
      BadByte(h, n, pos, 0);
      k := |n|;
    }
  }

  method CompareRight(h: seq<Byte>, n: seq<Byte>, pos: nat, c: nat, mem: nat) returns (k: nat)
    requires c < |n| && mem <= |n| && pos + |n| <= |h| && Matches(h, n, pos, 0, mem)
    ensures c <= k <= |n| && Matches(h, n, pos, c, k)
    ensures k < |n| ==> n[k] != h[pos + k]
  {
    k := Max(c, mem);
    while k < |n| && n[k] == h[pos + k]
      invariant c <= k <= |n| && Matches(h, n, pos, c, k)
    {
      k := k + 1;
    }
  }

  method CompareLeft(h: seq<Byte>, n: seq<Byte>, pos: nat, c: nat, mem: nat) returns (k: nat)
    requires c < |n| && mem <= |n| && pos + |n| <= |h|
    requires Matches(h, n, pos, 0, mem) && Matches(h, n, pos, c, |n|)
    ensures k <= c && (k <= mem ==> OccursAt(h, n, pos))
    ensures k > mem ==> n[k - 1] != h[pos + (k - 1)]
  {
    k := c;
    while k > mem && n[k - 1] == h[pos + k - 1]
      invariant k <= c && Matches(h, n, pos, k, |n|)
    {
      k := k - 1;
    }
    if k <= mem {
      forall j | 0 <= j < |n| ensures h[pos + j] == n[j] {
        assert n[j] == h[pos + j];
      }
    }
  }

  /** The first occurrence of `n` in `h` at or after `from`, if there is one. */
  method Search(h: seq<Byte>, from: nat, n: seq<Byte>) returns (r: Option<nat>)
    requires 0 < |n| && from <= |h|
    ensures r.Some? ==> IsFirst(h, n, from, r.value)
    ensures r.None? ==> NoneFrom(h, n, from)
  {
    var l := |n|;
    var byteset, shift := FillTables(n);
    var ms, p, mem0 := Factorize(n);
    var c: nat := ms + 1;
    var pos: nat, mem: nat := from, 0;
    while true
      invariant from <= pos <= |h| && mem <= l
      invariant Tables(n, byteset[..], shift[..])
      invariant Remembered(h, n, c, p, pos, mem)
      invariant SafeShift(h, n, from, pos - from)
      decreases |h| - pos
    {
      if |h| - pos < l {
        return None;
      }
      RememberedPrefix(h, n, c, p, pos, mem);
      var k := CompareLast(h, n, pos, byteset, shift);
      if k != 0 {
        RaiseToMemory(h, n, c, p, mem0, pos, mem);
        if k < mem {
          k := mem;
        }
        pos := pos + k;
        mem := 0;
        continue;
      }
      k := CompareRight(h, n, pos, c, mem);
      if k < l {
        RightMismatch(h, n, c, p, mem0, pos, k);
        pos := pos + (k - ms);
        mem := 0;
        continue;
      }
      k := CompareLeft(h, n, pos, c, mem);
      if k <= mem {
        return Some(pos);
      }
      LeftMismatch(h, n, c, p, mem0, pos, k);
      pos := pos + p;
      mem := mem0;
    }
  }
}
