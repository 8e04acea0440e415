/** `array_flat`: depth-limited flattening with two explicit stacks. */
module Flatten {
  import opened Options
  import opened Integers

  /** A value of the language: an array, or anything else. */
  datatype Value = Other(id: int) | Array(items: seq<Value>)

  /** The recursive definition: an array at a depth within the limit is replaced by the
      flattening of its items one level down. */
  function Flat(v: Value, depth: int, maxDepth: int): seq<Value>
    decreases v, 1
  {
    if v.Other? || depth > maxDepth then [v] else FlatAll(v.items, depth + 1, maxDepth)
  }

  function FlatAll(vs: seq<Value>, depth: int, maxDepth: int): seq<Value>
    decreases vs, 0
  {
    if vs == [] then [] else Flat(vs[0], depth, maxDepth) + FlatAll(vs[1..], depth, maxDepth)
  }

  /** What is still to come of the stacks, the top being their last element. */
  ghost function Pending(stack: seq<Value>, depths: seq<int>, maxDepth: int): seq<Value>
    requires |stack| == |depths|
  {
    if stack == [] then []
    else var n := |stack| - 1; Flat(stack[n], depths[n], maxDepth) + Pending(stack[..n], depths[..n], maxDepth)
  }

  /** The number of values in a value, the measure of the work left. */
  ghost function Size(v: Value): (n: nat)
    ensures 0 < n
    decreases v, 1
  {
    if v.Other? then 1 else 1 + TotalSize(v.items)
  }

  ghost function TotalSize(vs: seq<Value>): nat
    decreases vs, 0
  {
    if vs == [] then 0 else TotalSize(vs[..|vs| - 1]) + Size(vs[|vs| - 1])
  }

  lemma {:induction false} FlatAllAppend(vs: seq<Value>, ws: seq<Value>, depth: int, maxDepth: int)
    ensures FlatAll(vs + ws, depth, maxDepth) == FlatAll(vs, depth, maxDepth) + FlatAll(ws, depth, maxDepth)
    decreases |vs|
  {
    if vs == [] {
      assert vs + ws == ws;
    } else {
      assert (vs + ws)[1..] == vs[1..] + ws;
      FlatAllAppend(vs[1..], ws, depth, maxDepth);
    }
  }

  lemma PendingPush(stack: seq<Value>, depths: seq<int>, maxDepth: int, v: Value, d: int)
    requires |stack| == |depths|
    ensures Pending(stack + [v], depths + [d], maxDepth) == Flat(v, d, maxDepth) + Pending(stack, depths, maxDepth)
  {
    assert (stack + [v])[..|stack|] == stack && (depths + [d])[..|depths|] == depths;
  }

  lemma TotalSizePush(vs: seq<Value>, v: Value)
    ensures TotalSize(vs + [v]) == TotalSize(vs) + Size(v)
  {
    assert (vs + [v])[..|vs|] == vs;
  }

  lemma Associate(a: seq<Value>, b: seq<Value>, c: seq<Value>)
    ensures a + (b + c) == (a + b) + c
  {
  }

  lemma FlatAllEmpty(depth: int, maxDepth: int)
    ensures FlatAll([], depth, maxDepth) == [] && TotalSize([]) == 0
  {
  }

  lemma FlatAllFirst(items: seq<Value>, i: nat, depth: int, maxDepth: int)
    requires i < |items|
    ensures FlatAll(items[i..], depth, maxDepth) == Flat(items[i], depth, maxDepth) + FlatAll(items[i + 1..], depth, maxDepth)
  {
    assert items[i..][1..] == items[i + 1..];
  }

  /** The items from `k` on have been pushed onto the stacks. */
  ghost predicate Pushed(items: seq<Value>, k: nat, d: int, stack0: seq<Value>, depths0: seq<int>,
                         stack: seq<Value>, depths: seq<int>, maxDepth: int)
  {
    && k <= |items| && |stack0| == |depths0| && |stack| == |depths|
    && Pending(stack, depths, maxDepth) == FlatAll(items[k..], d, maxDepth) + Pending(stack0, depths0, maxDepth)
    && TotalSize(stack) + TotalSize(items[..k]) == TotalSize(stack0) + TotalSize(items)
  }

  lemma PushStart(items: seq<Value>, d: int, stack: seq<Value>, depths: seq<int>, maxDepth: int)
    requires |stack| == |depths|
    ensures Pushed(items, |items|, d, stack, depths, stack, depths, maxDepth)
  {
    assert items[|items|..] == [] && items[..|items|] == items;
    FlatAllEmpty(d, maxDepth);
  }

  lemma PushStep(items: seq<Value>, k: nat, d: int, stack0: seq<Value>, depths0: seq<int>,
                 stack: seq<Value>, depths: seq<int>, maxDepth: int)
    requires Pushed(items, k + 1, d, stack0, depths0, stack, depths, maxDepth)
    ensures Pushed(items, k, d, stack0, depths0, stack + [items[k]], depths + [d], maxDepth)
  {
    hide Flat, FlatAll, Pending, Size, TotalSize;
    PendingPush(stack, depths, maxDepth, items[k], d);
    TotalSizePush(stack, items[k]);
    TotalSizePush(items[..k], items[k]);
    assert items[..k + 1] == items[..k] + [items[k]];
    FlatAllFirst(items, k, d, maxDepth);
    Associate(Flat(items[k], d, maxDepth), FlatAll(items[k + 1..], d, maxDepth), Pending(stack0, depths0, maxDepth));
  }

  lemma PushDone(items: seq<Value>, d: int, stack0: seq<Value>, depths0: seq<int>,
                 stack: seq<Value>, depths: seq<int>, maxDepth: int)
    requires Pushed(items, 0, d, stack0, depths0, stack, depths, maxDepth)
    ensures Pending(stack, depths, maxDepth) == FlatAll(items, d, maxDepth) + Pending(stack0, depths0, maxDepth)
    ensures TotalSize(stack) == TotalSize(stack0) + TotalSize(items)
  {
    assert items[0..] == items && items[..0] == [];
    FlatAllEmpty(d, maxDepth);
    hide Flat, FlatAll, Pending, Size, TotalSize;
  }

  /** Pushes the items of an array, last one first, one level down. */
  method PushItems(items: seq<Value>, d: int, stack0: seq<Value>, depths0: seq<int>, ghost maxDepth: int)
    returns (stack: seq<Value>, depths: seq<int>)
    requires |stack0| == |depths0|
    ensures |stack| == |depths|
    ensures Pending(stack, depths, maxDepth) == FlatAll(items, d + 1, maxDepth) + Pending(stack0, depths0, maxDepth)
    ensures TotalSize(stack) == TotalSize(stack0) + TotalSize(items)
  {
    hide Pending, FlatAll, TotalSize, Pushed;
    stack, depths := stack0, depths0;
    PushStart(items, d + 1, stack, depths, maxDepth);
    var i := |items| - 1;
    while i >= 0
      invariant -1 <= i < |items| && |stack| == |depths|
      invariant Pushed(items, i + 1, d + 1, stack0, depths0, stack, depths, maxDepth)
    {
      PushStep(items, i, d + 1, stack0, depths0, stack, depths, maxDepth);
      stack := stack + [items[i]];
      depths := depths + [d + 1];
      i := i - 1;
    }
    PushDone(items, d + 1, stack0, depths0, stack, depths, maxDepth);
  }

  /** The limit: the argument as an `int`, or without one the largest `int`. */
  function Limit(arg: Option<Int64>): int {
    match arg
    case None => INT_MAX
    case Some(depth) => ToInt(depth)
  }

  /** `array_flat`. */
  method FlattenArray(items: seq<Value>, arg: Option<Int64>) returns (r: seq<Value>)
    ensures r == FlatAll(items, 1, Limit(arg))
    ensures arg.Some? && arg.value <= 0 && -0x8000_0000 <= arg.value ==> r == items
    ensures arg.Some? && 0 <= arg.value <= INT_MAX ==> r == Opened(items, arg.value)
    ensures arg.None? ==> r == Opened(items, INT_MAX)
    ensures arg.None? && HeightAll(items) <= INT_MAX ==> forall i | 0 <= i < |r| :: r[i].Other?
  {
    hide Flat, FlatAll, Limit;
    var maxDepth := Limit(arg);
    r := [];
    FlatAllEmpty(1, maxDepth);
    for i := 0 to |items|
      invariant r == FlatAll(items[..i], 1, maxDepth)
    {
      var more := FlattenItem(items[i], maxDepth);
      r := r + more;
      assert items[..i + 1] == items[..i] + [items[i]];
      FlatAllAppend(items[..i], [items[i]], 1, maxDepth);
      FlatAllOne(items[i], 1, maxDepth);
    }
    assert items[..|items|] == items;
    LimitIs(arg);
    FlatIsOpened(items, 1, maxDepth);
    if 0 <= maxDepth && HeightAll(items) <= maxDepth {
      forall i | 0 <= i < |r| ensures r[i].Other? { NothingLeftAll(items, 1, maxDepth, i); }
    }
  }

  lemma LimitIs(arg: Option<Int64>)
    ensures arg.None? ==> Limit(arg) == INT_MAX
    ensures arg.Some? && -0x8000_0000 <= arg.value <= INT_MAX ==> Limit(arg) == arg.value
  {
  }

  // ---- one level at a time ----

  /** The items with every array among them replaced by its items. */
  function OpenedOnce(items: seq<Value>): seq<Value> {
    if items == [] then []
    else (match items[0] case Other(_) => [items[0]] case Array(inner) => inner) + OpenedOnce(items[1..])
  }

  function Opened(items: seq<Value>, levels: nat): seq<Value>
    decreases levels
  {
    if levels == 0 then items else Opened(OpenedOnce(items), levels - 1)
  }

  /** Flattening within a limit opens one level of arrays for each depth up to it. */
  lemma {:induction false} FlatIsOpened(vs: seq<Value>, depth: int, maxDepth: int)
    ensures FlatAll(vs, depth, maxDepth) == Opened(vs, if depth <= maxDepth then maxDepth + 1 - depth else 0)
    decreases maxDepth - depth
  {
    if depth <= maxDepth {
      OneLevelOff(vs, depth, maxDepth);
      FlatIsOpened(OpenedOnce(vs), depth + 1, maxDepth);
    } else {
      BeyondLimit(vs, depth, maxDepth);
    }
  }

  lemma {:induction false} OneLevelOff(vs: seq<Value>, depth: int, maxDepth: int)
    requires depth <= maxDepth
    ensures FlatAll(vs, depth, maxDepth) == FlatAll(OpenedOnce(vs), depth + 1, maxDepth)
    decreases |vs|
  {
    if vs != [] {
      OneLevelOff(vs[1..], depth, maxDepth);
      var first := match vs[0] case Other(_) => [vs[0]] case Array(inner) => inner;
      FlatAllAppend(first, OpenedOnce(vs[1..]), depth + 1, maxDepth);
      if vs[0].Other? { FlatAllOne(vs[0], depth + 1, maxDepth); }
    }
  }

  lemma {:induction false} BeyondLimit(vs: seq<Value>, depth: int, maxDepth: int)
    requires maxDepth < depth
    ensures FlatAll(vs, depth, maxDepth) == vs
    decreases |vs|
  {
    if vs != [] { BeyondLimit(vs[1..], depth, maxDepth); }
  }

  lemma FlatAllOne(v: Value, depth: int, maxDepth: int)
    ensures FlatAll([v], depth, maxDepth) == Flat(v, depth, maxDepth)
  {
    assert [v][1..] == [] && FlatAll([], depth, maxDepth) == [];
    assert Flat(v, depth, maxDepth) + [] == Flat(v, depth, maxDepth);
  }

  /** The inner loop: one item and the stacks it grows. */
  method FlattenItem(item: Value, maxDepth: int) returns (r: seq<Value>)
    ensures r == Flat(item, 1, maxDepth)
  {
    hide Flat, FlatAll, Pending, TotalSize;
    r := [];
    var stack, depths := [item], [1];
    PendingPush([], [], maxDepth, item, 1);
    PendingEmpty(maxDepth);
    assert [] + [item] == [item] && [] + [1] == [1];
    while |stack| > 0
      invariant |stack| == |depths| && r + Pending(stack, depths, maxDepth) == Flat(item, 1, maxDepth)
      decreases TotalSize(stack)
    {
      var n := |stack| - 1;
      var v, d := stack[n], depths[n];
      assert stack == stack[..n] + [v] && depths == depths[..n] + [d];
      TotalSizePush(stack[..n], v);
      PendingPush(stack[..n], depths[..n], maxDepth, v, d);
      stack, depths := stack[..n], depths[..n];
      FlatCases(v, d, maxDepth);
      if v.Other? || d > maxDepth {
        r := r + [v];
      } else {
        stack, depths := PushItems(v.items, d, stack, depths, maxDepth);
      }
    }
    PendingEmpty(maxDepth);
  }

  lemma PendingEmpty(maxDepth: int)
    ensures Pending([], [], maxDepth) == []
  {
  }

  lemma FlatCases(v: Value, d: int, maxDepth: int)
    ensures Flat(v, d, maxDepth) == if v.Other? || d > maxDepth then [v] else FlatAll(v.items, d + 1, maxDepth)
    ensures Size(v) == if v.Other? then 1 else 1 + TotalSize(v.items)
  {
  }

  /** A limit below one leaves every item as it is. */
  lemma NoDepthNoChange(items: seq<Value>, maxDepth: int)
    requires maxDepth < 1
    ensures FlatAll(items, 1, maxDepth) == items
  {
    BeyondLimit(items, 1, maxDepth);
  }

  /** The depth of nesting. */
  ghost function Height(v: Value): nat
    decreases v, 1
  {
    if v.Other? then 0 else 1 + HeightAll(v.items)
  }

  ghost function HeightAll(vs: seq<Value>): nat
    decreases vs, 0
  {
    if vs == [] then 0
    else var h, k := Height(vs[0]), HeightAll(vs[1..]); if h < k then k else h
  }

  /** When the limit reaches the nesting, no array is left. */
  lemma {:induction false} NothingLeft(v: Value, depth: int, maxDepth: int, i: nat)
    requires depth + Height(v) <= maxDepth + 1 && i < |Flat(v, depth, maxDepth)|
    ensures Flat(v, depth, maxDepth)[i].Other?
    decreases v, 1
  {
    if v.Array? { NothingLeftAll(v.items, depth + 1, maxDepth, i); }
  }

  lemma {:induction false} NothingLeftAll(vs: seq<Value>, depth: int, maxDepth: int, i: nat)
    requires depth + HeightAll(vs) <= maxDepth + 1 && i < |FlatAll(vs, depth, maxDepth)|
    ensures FlatAll(vs, depth, maxDepth)[i].Other?
    decreases vs, 0
  {
    if vs != [] {
      var n := |Flat(vs[0], depth, maxDepth)|;
      if i < n { NothingLeft(vs[0], depth, maxDepth, i); } else { NothingLeftAll(vs[1..], depth, maxDepth, i - n); }
    }
  }

  // ---- when two limits give the same ----

  /** The number of arrays in a value. */
  ghost function Arrays(v: Value): nat
    decreases v, 1
  {
    if v.Other? then 0 else 1 + ArraysAll(v.items)
  }

  ghost function ArraysAll(vs: seq<Value>): nat
    decreases vs, 0
  {
    if vs == [] then 0 else Arrays(vs[0]) + ArraysAll(vs[1..])
  }

  lemma {:induction false} ArraysAppend(vs: seq<Value>, ws: seq<Value>)
    ensures ArraysAll(vs + ws) == ArraysAll(vs) + ArraysAll(ws)
    decreases |vs|
  {
    if vs == [] {
      assert vs + ws == ws;
    } else {
      assert (vs + ws)[1..] == vs[1..] + ws;
      ArraysAppend(vs[1..], ws);
    }
  }

  lemma ArraysOne(v: Value)
    ensures ArraysAll([v]) == Arrays(v)
  {
    assert [v][1..] == [];
  }

  lemma ArraysFlatAll(vs: seq<Value>, depth: int, m: int)
    requires vs != []
    ensures ArraysAll(FlatAll(vs, depth, m)) == ArraysAll(Flat(vs[0], depth, m)) + ArraysAll(FlatAll(vs[1..], depth, m))
  {
    ArraysAppend(Flat(vs[0], depth, m), FlatAll(vs[1..], depth, m));
  }

  /** Flattening leaves no more arrays than there are. */
  lemma {:induction false} NotMore(v: Value, depth: int, m: int)
    ensures ArraysAll(Flat(v, depth, m)) <= Arrays(v)
    decreases v, 1
  {
    ArraysOne(v);
    if v.Array? { NotMoreAll(v.items, depth + 1, m); }
  }

  lemma {:induction false} NotMoreAll(vs: seq<Value>, depth: int, m: int)
    ensures ArraysAll(FlatAll(vs, depth, m)) <= ArraysAll(vs)
    decreases vs, 0
  {
    if vs != [] {
      ArraysFlatAll(vs, depth, m);
      NotMore(vs[0], depth, m);
      NotMoreAll(vs[1..], depth, m);
    }
  }

  /** A higher limit leaves no more. */
  lemma {:induction false} Fewer(v: Value, depth: int, m: int, m': int)
    requires m <= m'
    ensures ArraysAll(Flat(v, depth, m')) <= ArraysAll(Flat(v, depth, m))
    decreases v, 1
  {
    ArraysOne(v);
    NotMore(v, depth, m');
    if v.Array? { FewerAll(v.items, depth + 1, m, m'); }
  }

  lemma {:induction false} FewerAll(vs: seq<Value>, depth: int, m: int, m': int)
    requires m <= m'
    ensures ArraysAll(FlatAll(vs, depth, m')) <= ArraysAll(FlatAll(vs, depth, m))
    decreases vs, 0
  {
    if vs != [] {
      ArraysFlatAll(vs, depth, m);
      ArraysFlatAll(vs, depth, m');
      Fewer(vs[0], depth, m, m');
      FewerAll(vs[1..], depth, m, m');
    }
  }

  /** Below the nesting, it leaves fewer. */
  lemma {:induction false} FewerStrict(v: Value, depth: int, m: int, m': int)
    requires depth - 1 <= m < m' && m + 1 < depth + Height(v)
    ensures ArraysAll(Flat(v, depth, m')) < ArraysAll(Flat(v, depth, m))
    decreases v, 1
  {
    if depth == m + 1 {
      ArraysOne(v);
      NotMoreAll(v.items, depth + 1, m');
    } else {
      FewerStrictAll(v.items, depth + 1, m, m');
    }
  }

  lemma {:induction false} FewerStrictAll(vs: seq<Value>, depth: int, m: int, m': int)
    requires depth - 1 <= m < m' && m + 1 < depth + HeightAll(vs)
    ensures ArraysAll(FlatAll(vs, depth, m')) < ArraysAll(FlatAll(vs, depth, m))
    decreases vs, 0
  {
    ArraysFlatAll(vs, depth, m);
    ArraysFlatAll(vs, depth, m');
    Fewer(vs[0], depth, m, m');
    FewerAll(vs[1..], depth, m, m');
    if m + 1 < depth + Height(vs[0]) {
      FewerStrict(vs[0], depth, m, m');
    } else {
      FewerStrictAll(vs[1..], depth, m, m');
    }
  }

  /** Limits that both reach the nesting give the same. */
  lemma {:induction false} SameBeyond(v: Value, depth: int, m: int, m': int)
    requires depth + Height(v) <= m + 1 && depth + Height(v) <= m' + 1
    ensures Flat(v, depth, m) == Flat(v, depth, m')
    decreases v, 1
  {
    if v.Array? { SameBeyondAll(v.items, depth + 1, m, m'); }
  }

  lemma {:induction false} SameBeyondAll(vs: seq<Value>, depth: int, m: int, m': int)
    requires depth + HeightAll(vs) <= m + 1 && depth + HeightAll(vs) <= m' + 1
    ensures FlatAll(vs, depth, m) == FlatAll(vs, depth, m')
    decreases vs, 0
  {
    if vs != [] {
      SameBeyond(vs[0], depth, m, m');
      SameBeyondAll(vs[1..], depth, m, m');
    }
  }

  /** How many levels a limit takes off items nested `height` deep. */
  function Levels(m: int, height: nat): nat {
    if m < 0 then 0 else if height < m then height else m
  }

  lemma LevelsDecide(items: seq<Value>, m: int)
    ensures FlatAll(items, 1, m) == FlatAll(items, 1, Levels(m, HeightAll(items)))
  {
    if m < 0 {
      NoDepthNoChange(items, m);
      NoDepthNoChange(items, 0);
    } else if HeightAll(items) < m {
      SameBeyondAll(items, 1, m, HeightAll(items));
    }
  }

  lemma LevelsDiffer(items: seq<Value>, m: int, m': int)
    requires 0 <= m < m' <= HeightAll(items)
    ensures FlatAll(items, 1, m) != FlatAll(items, 1, m')
  {
    FewerStrictAll(items, 1, m, m');
  }

  /** The conversion of the argument does no harm exactly when the limits before and after
      it take off the same number of levels. */
  lemma ConversionHarmless(items: seq<Value>, depth: Int64)
    ensures FlatAll(items, 1, Limit(Some(depth))) == FlatAll(items, 1, depth)
      <==> Levels(ToInt(depth), HeightAll(items)) == Levels(depth, HeightAll(items))
  {
    var h := HeightAll(items);
    var m, m' := Levels(ToInt(depth), h), Levels(depth, h);
    LevelsDecide(items, ToInt(depth));
    LevelsDecide(items, depth);
    if m < m' {
      LevelsDiffer(items, m, m');
    } else if m' < m {
      LevelsDiffer(items, m', m);
    }
  }

  /** With a depth of 2^32 one level of nesting is left as it is. */
  lemma ConversionExample()
    ensures var items := [Array([Other(0)])];
      && FlatAll(items, 1, Limit(Some(0x1_0000_0000))) == items
      && FlatAll(items, 1, 0x1_0000_0000) == [Other(0)]
  {
    var inner := [Other(0)];
    var items := [Array(inner)];
    assert items[1..] == [] && inner[1..] == [];
    assert FlatAll(inner, 2, 0x1_0000_0000) == [Other(0)];
  }
}
