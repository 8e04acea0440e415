/** The ring deque behind `Queue` and `SharedQueue`. Indices are 64-bit and unsigned. */
module Queue {
  import opened Powers

  const WRAP: int := 0x1_0000_0000_0000_0000

  type USize = x: int | 0 <= x < 0x1_0000_0000_0000_0000

  /** The largest capacity: a value takes 32 bytes, and no buffer has more than 2^63. */
  const MAX_CAP: int := 0x400_0000_0000_0000

  /** `_queue_count`, with the wrap-around of unsigned subtraction and addition. */
  function Count(head: USize, tail: USize, cap: USize): USize {
    if cap == 0 then 0 else ((tail - head) % WRAP + cap) % WRAP % cap
  }

  /** `x % cap` for `x` below twice `cap`. */
  lemma ModByHand(x: int, cap: int)
    requires 0 <= x < 2 * cap
    ensures x % cap == if x < cap then x else x - cap
  {
    QuotientUnique(x, cap, if x < cap then 0 else 1, if x < cap then x else x - cap);
  }

  /** The wrap-around never shows: the count is the distance from head to tail. */
  lemma CountIsDistance(head: USize, tail: USize, cap: USize)
    requires 0 < cap <= MAX_CAP && head < cap && tail < cap
    ensures Count(head, tail, cap) == if head <= tail then tail - head else tail - head + cap
  {
    var x := tail - head + cap;
    WrapsBack(tail - head, cap);
    ModByHand(x, cap);
  }

  /** A difference that wrapped below zero comes back when the capacity is added. */
  lemma WrapsBack(d: int, cap: int)
    requires -cap < d < cap <= MAX_CAP
    ensures (d % WRAP + cap) % WRAP == d + cap
  {
  }

  /** The elements from `head` to `tail` around the ring. */
  ghost function Unroll<T>(buf: seq<T>, head: int, tail: int): (s: seq<T>)
    requires 0 <= head <= |buf| && 0 <= tail <= |buf|
    ensures |s| == if head <= tail then tail - head else tail - head + |buf|
  {
    if head <= tail then buf[head..tail] else buf[head..] + buf[..tail]
  }

  function Next(i: int, cap: int): int { if i + 1 == cap then 0 else i + 1 }

  function Previous(i: int, cap: int): int { if i == 0 then cap - 1 else i - 1 }

  lemma UnrollBack<T>(buf: seq<T>, head: int, tail: int, v: T)
    requires 0 <= head < |buf| && 0 <= tail < |buf| && Next(tail, |buf|) != head
    ensures Unroll(buf[tail := v], head, Next(tail, |buf|)) == Unroll(buf, head, tail) + [v]
  {
    var now := buf[tail := v];
    assert now[tail] == v;
    if head <= tail {
      if tail + 1 == |buf| {
        assert now[head..] + now[..0] == buf[head..tail] + [v];
      } else {
        assert now[head..tail + 1] == buf[head..tail] + [v];
      }
    } else {
      assert now[head..] == buf[head..] && now[..tail + 1] == buf[..tail] + [v];
      assert buf[head..] + (buf[..tail] + [v]) == buf[head..] + buf[..tail] + [v];
    }
  }

  lemma UnrollFront<T>(buf: seq<T>, head: int, tail: int, v: T)
    requires 0 <= head < |buf| && 0 <= tail < |buf| && Previous(head, |buf|) != tail
    ensures Unroll(buf[Previous(head, |buf|) := v], Previous(head, |buf|), tail) == [v] + Unroll(buf, head, tail)
  {
    var p := Previous(head, |buf|);
    var now := buf[p := v];
    assert now[p] == v;
    if head == 0 {
      assert now[p..] == [v] && now[..tail] == buf[0..tail];
    } else if head <= tail {
      assert now[p..tail] == [v] + buf[head..tail];
    } else {
      assert now[p..] == [v] + buf[head..] && now[..tail] == buf[..tail];
      assert [v] + buf[head..] + buf[..tail] == [v] + (buf[head..] + buf[..tail]);
    }
  }

  /** The ring is full, with one place free, exactly when a push at either end would make
      head and tail meet. */
  lemma FullRing<T>(buf: seq<T>, head: int, tail: int)
    requires 0 <= head < |buf| && 0 <= tail < |buf|
    ensures Next(tail, |buf|) == head <==> |Unroll(buf, head, tail)| + 1 == |buf|
    ensures Previous(head, |buf|) == tail <==> |Unroll(buf, head, tail)| + 1 == |buf|
  {
  }

  lemma UnrollAt<T>(buf: seq<T>, head: int, tail: int, i: int)
    requires 0 <= head < |buf| && 0 <= tail < |buf| && 0 <= i < |Unroll(buf, head, tail)|
    ensures 0 <= (head + i) % |buf| < |buf| && Unroll(buf, head, tail)[i] == buf[(head + i) % |buf|]
  {
    ModByHand(head + i, |buf|);
  }

  /** The index arithmetic of the code, by hand. */
  lemma NextByHand(tail: USize, cap: USize)
    requires tail < cap <= MAX_CAP
    ensures (tail + 1) % cap == Next(tail, cap)
  {
    ModByHand(tail + 1, cap);
  }

  /** `(head - 1 + cap) % cap`, which wraps twice when the head is zero. */
  function StepBack(head: USize, cap: USize): USize
    requires 0 < cap
  {
    ((head - 1) % WRAP + cap) % WRAP % cap
  }

  lemma PreviousByHand(head: USize, cap: USize)
    requires head < cap <= MAX_CAP
    ensures StepBack(head, cap) == Previous(head, cap)
  {
    var x := head - 1 + cap;
    assert ((head - 1) % WRAP + cap) % WRAP == x;
    ModByHand(x, cap);
  }

  class Ring<T> {
    var items: array<T>
    var head: USize
    var tail: USize
    var cap: USize

    ghost predicate Valid()
      reads this
    {
      && items.Length == cap <= MAX_CAP
      && if cap == 0 then head == 0 && tail == 0 else head < cap && tail < cap
    }

    /** The sequence the ring stands for. */
    ghost function Contents(): seq<T>
      reads this, items
      requires Valid()
    {
      Unroll(items[..], head, tail)
    }

    /** An empty queue owns no buffer. */
    constructor ()
      ensures Valid() && Contents() == [] && fresh(items)
    {
      items := new T[0];
      head, tail, cap := 0, 0, 0;
    }

    /** `queue_count`. */
    method Size() returns (n: USize)
      requires Valid()
      ensures n == |Contents()|
    {
      n := Count(head, tail, cap);
      if cap > 0 { CountIsDistance(head, tail, cap); }
    }

    /** `_queue_grow`: twice the room, the same contents, unrolled to the front. */
    method Grow(filler: T)
      requires Valid() && (if cap == 0 then 8 else 2 * cap) <= MAX_CAP
      modifies this
      ensures Valid() && fresh(items) && Contents() == old(Contents())
      ensures head == 0 && cap == (if old(cap) == 0 then 8 else 2 * old(cap)) && tail == |old(Contents())|
    {
      hide Count, Unroll;
      ghost var was := Contents();
      var n := Size();
      var newCap := if cap == 0 then 8 else cap * 2;
      assert n < newCap && (cap == 0 ==> n == 0) by { UnrollShort(items[..], head, tail); }
      var newItems := new T[newCap](_ => filler);
      for i := 0 to n
        invariant fresh(newItems) && unchanged(this)
        invariant items[..] == old(items[..])
        invariant newItems[..i] == was[..i]
      {
        UnrollAt(items[..], head, tail, i);
        newItems[i] := items[(head + i) % cap];
      }
      items := newItems;
      head := 0;
      tail := n;
      cap := newCap;
      UnrollFromZero(items[..], tail);
    }

    /** `_queue_push_back_one`. */
    method PushBack(v: T)
      requires Valid() && (|Contents()| + 1 == cap ==> 2 * cap <= MAX_CAP)
      modifies this, items
      ensures Valid() && (items == old(items) || fresh(items))
      ensures Contents() == old(Contents()) + [v]
    {
      if cap > 0 {
        NextByHand(tail, cap);
        FullRing(items[..], head, tail);
      }
      if cap == 0 || (tail + 1) % cap == head {
        assert |Contents()| < (if cap == 0 then 8 else 2 * cap) - 1;
        Grow(v);
        NextByHand(tail, cap);
      }
      hide Unroll;
      UnrollBack(items[..], head, tail, v);
      items[tail] := v;
      tail := (tail + 1) % cap;
    }

    /** `_queue_push_front_one`. */
    method PushFront(v: T)
      requires Valid() && (|Contents()| + 1 == cap ==> 2 * cap <= MAX_CAP)
      modifies this, items
      ensures Valid() && (items == old(items) || fresh(items))
      ensures Contents() == [v] + old(Contents())
    {
      hide StepBack;
      if cap > 0 {
        PreviousByHand(head, cap);
        FullRing(items[..], head, tail);
      }
      if cap == 0 || StepBack(head, cap) == tail {
        assert |Contents()| < (if cap == 0 then 8 else 2 * cap) - 1;
        Grow(v);
        PreviousByHand(head, cap);
      }
      hide Unroll;
      UnrollFront(items[..], head, tail, v);
      head := StepBack(head, cap);
      items[head] := v;
    }
  }

  lemma UnrollShort<T>(buf: seq<T>, head: int, tail: int)
    requires 0 <= head <= |buf| && 0 <= tail <= |buf| && (|buf| > 0 ==> head < |buf| && tail < |buf|)
    ensures |Unroll(buf, head, tail)| <= |buf| && (|buf| > 0 ==> |Unroll(buf, head, tail)| < |buf|)
  {
  }

  lemma UnrollFromZero<T>(buf: seq<T>, tail: int)
    requires 0 <= tail <= |buf|
    ensures Unroll(buf, 0, tail) == buf[..tail]
  {
  }
}
