/** Arenas: chained regions with a header that holds the arena they extend, opened and
    released in nested fashion. Addresses are unbounded and memory never runs out. */
module Arenas {
  import opened Bump
  import opened Powers

  /** The size of an `Arena`, kept free at the start of each region for the chain. */
  const RESERVED: nat := 40

  datatype Arena = Arena(base: nat, beg: nat, end: nat, gc: bool, immortal: bool)

  const NO_ARENA := Arena(0, 0, 0, false, false)

  /** A piece of memory as far as the arenas are concerned: its size, the arena stored in
      its first bytes, how often the collector has been told to keep it, and whether the
      collector knows of it. */
  datatype Chunk = Chunk(size: nat, header: Arena, pins: int, tracked: bool)

  type Memory = map<nat, Chunk>

  /** A pointer to an arena: to the current one, or to the one stored in a piece of memory. */
  datatype Pointer = Null | Current | HeaderOf(base: nat)

  // ---- what every operation keeps ----

  function Room(a: Arena): Region { Region(a.base + RESERVED, a.beg, a.end) }

  ghost function Rooms(stack: seq<Arena>): (rs: seq<Region>)
    ensures |rs| == |stack| && forall k | 0 <= k < |stack| :: rs[k] == Room(stack[k])
  {
    seq(|stack|, k requires 0 <= k < |stack| => Room(stack[k]))
  }

  /** An open `NewArena`: the number of arenas and of live blocks before it. */
  datatype Level = Level(start: nat, count: nat)

  /** Whether the arena at place `k` was made by `NewArena`, not by expansion. */
  ghost predicate Opens(levels: seq<Level>, k: nat) {
    k == 0 || exists d | 0 <= d < |levels| :: levels[d].start == k
  }

  /** What the header at place `k` holds: the arena it extends, or nothing. */
  ghost function Under(stack: seq<Arena>, levels: seq<Level>, k: nat): Arena
    requires k < |stack|
  {
    if Opens(levels, k) then NO_ARENA else stack[k - 1]
  }

  predicate InMemory(memory: Memory, a: Arena) {
    && 0 < a.base && a.base in memory
    && memory[a.base].size == a.end - a.base
    && (a.gc ==> memory[a.base].pins == 1)
  }

  ghost predicate Linked(memory: Memory, stack: seq<Arena>, levels: seq<Level>) {
    && (forall k | 0 <= k < |stack| :: InMemory(memory, stack[k]))
    && (forall k | 0 <= k < |stack| :: memory[stack[k].base].header == Under(stack, levels, k))
  }

  /** Every level has its own arenas and its own blocks. */
  ghost predicate LevelsOk(stack: seq<Arena>, levels: seq<Level>, live: seq<Block>) {
    && (forall d | 0 <= d < |levels| :: levels[d].start < |stack| && levels[d].count <= |live|)
    && (forall d, e | 0 <= d < e < |levels| :: levels[d].start < levels[e].start && levels[d].count <= levels[e].count)
    && (forall d, k | 0 <= d < |levels| && 0 <= k < |live| :: k < levels[d].count <==> live[k].region < levels[d].start)
  }

  ghost function Last(stack: seq<Arena>): Arena {
    if stack == [] then NO_ARENA else stack[|stack| - 1]
  }

  ghost predicate Safe(arena: Arena, memory: Memory, stack: seq<Arena>, levels: seq<Level>, live: seq<Block>) {
    && arena == Last(stack)
    && Filled(Rooms(stack), |stack|, live)
    && Linked(memory, stack, levels)
    && LevelsOk(stack, levels, live)
  }

  // ---- steps ----

  /** A new region: memory for it was free, its header is `header`. */
  ghost predicate Fresh(memory: Memory, now: Memory, a: Arena, header: Arena) {
    && a.beg == a.base + RESERVED < a.end && a.end % ALIGN == 0
    && FreeAt(memory, a.end - a.base, a.base)
    && a.base in now && now == memory[a.base := now[a.base]]
    && now[a.base].size == a.end - a.base && now[a.base].header == header
    && (a.gc ==> now[a.base].pins == 1)
  }

  predicate FreeAt(memory: Memory, size: nat, base: nat) {
    && 0 < base && base % ALIGN == 0 && base !in memory
    && forall p | p in memory :: p + memory[p].size <= base || base + size <= p
  }

  lemma FreshFilled(memory: Memory, now: Memory, stack: seq<Arena>, levels: seq<Level>, live: seq<Block>, a: Arena, header: Arena)
    requires Filled(Rooms(stack), |stack|, live) && Linked(memory, stack, levels) && Fresh(memory, now, a, header)
    ensures Filled(Rooms(stack + [a]), |stack| + 1, live)
  {
    var rs := Rooms(stack);
    assert Rooms(stack + [a]) == rs + [Room(a)];
    forall k | 0 <= k < |rs| ensures RegionsApart(rs[k], Room(a)) {
      assert InMemory(memory, stack[k]);
      assert RegionOk(rs[k]);
    }
    assert RegionOk(Room(a));
    hide RegionOk, RegionsApart, Filled, Linked, Fresh;
    AppendRegion(rs, live, Room(a));
    UseNext(rs + [Room(a)], |rs|, live);
  }

  lemma IsFresh(memory: Memory, now: Memory, a: Arena, cap: nat)
    requires 0 < cap && cap % ALIGN == 0 && a.base % ALIGN == 0 && FreeAt(memory, cap + RESERVED, a.base)
    requires a.beg == a.base + RESERVED && a.end == a.base + RESERVED + cap
    requires a.base in now && now == memory[a.base := now[a.base]]
    requires now[a.base].size == cap + RESERVED && now[a.base].header == NO_ARENA && (a.gc ==> now[a.base].pins == 1)
    ensures Fresh(memory, now, a, NO_ARENA)
  {
  }

  /** What the arenas there were have in memory stays. */
  lemma FreshOthers(memory: Memory, now: Memory, stack: seq<Arena>, levels: seq<Level>, a: Arena, header: Arena, k: nat)
    requires Linked(memory, stack, levels) && Fresh(memory, now, a, header) && k < |stack|
    ensures InMemory(now, stack[k]) && now[stack[k].base].header == Under(stack, levels, k)
  {
    assert InMemory(memory, stack[k]);
  }

  /** A new level. */
  lemma OpenKeeps(arena: Arena, memory: Memory, now: Memory, stack: seq<Arena>, levels: seq<Level>, live: seq<Block>, a: Arena)
    requires Safe(arena, memory, stack, levels, live) && Fresh(memory, now, a, NO_ARENA)
    ensures Safe(a, now, stack + [a], levels + [Level(|stack|, |live|)], live)
  {
    FreshFilled(memory, now, stack, levels, live, a, NO_ARENA);
    OpenLinked(memory, now, stack, levels, live, a);
    BlocksInStack(stack, live);
    OpenLevels(stack, levels, live, a);
    hide Filled, Linked, Fresh, LevelsOk;
  }

  lemma OpenLevels(stack: seq<Arena>, levels: seq<Level>, live: seq<Block>, a: Arena)
    requires LevelsOk(stack, levels, live) && forall k | 0 <= k < |live| :: live[k].region < |stack|
    ensures LevelsOk(stack + [a], levels + [Level(|stack|, |live|)], live)
  {
  }

  lemma OpenLinked(memory: Memory, now: Memory, stack: seq<Arena>, levels: seq<Level>, live: seq<Block>, a: Arena)
    requires Linked(memory, stack, levels) && Fresh(memory, now, a, NO_ARENA)
    ensures Linked(now, stack + [a], levels + [Level(|stack|, |live|)])
  {
    var more, l := stack + [a], Level(|stack|, |live|);
    var levels' := levels + [l];
    assert Opens(levels', |stack|) by { assert levels'[|levels|].start == |stack|; }
    assert InMemory(now, a) && now[a.base].header == NO_ARENA;
    hide Opens, Fresh, InMemory, Linked;
    forall k | 0 <= k < |more| ensures InMemory(now, more[k]) && now[more[k].base].header == Under(more, levels', k) {
      if k < |stack| {
        FreshOthers(memory, now, stack, levels, a, NO_ARENA, k);
        OpensAppend(levels, l, k);
        assert Opens(levels, 0) by { OpensFirst(levels); }
      }
    }
    assert Linked(now, more, levels') by { LinkedFrom(now, more, levels'); }
  }

  lemma OpensFirst(levels: seq<Level>)
    ensures Opens(levels, 0)
  {
  }

  lemma LinkedFrom(memory: Memory, stack: seq<Arena>, levels: seq<Level>)
    requires forall k | 0 <= k < |stack| :: InMemory(memory, stack[k]) && memory[stack[k].base].header == Under(stack, levels, k)
    ensures Linked(memory, stack, levels)
  {
  }

  lemma OpensAppend(levels: seq<Level>, l: Level, k: nat)
    requires k != l.start
    ensures Opens(levels + [l], k) == Opens(levels, k)
  {
    if Opens(levels, k) && k != 0 {
      var d :| 0 <= d < |levels| && levels[d].start == k;
      assert (levels + [l])[d].start == k;
    }
  }

  lemma BlocksInStack(stack: seq<Arena>, live: seq<Block>)
    requires Filled(Rooms(stack), |stack|, live)
    ensures forall k | 0 <= k < |live| :: live[k].region < |stack|
  {
    forall k | 0 <= k < |live| ensures live[k].region < |stack| {
      assert BlockOk(Rooms(stack), |stack|, live[k]);
    }
  }

  /** The current level goes on in a new region chained to the one it had. */
  lemma ExtendKeeps(arena: Arena, memory: Memory, now: Memory, stack: seq<Arena>, levels: seq<Level>, live: seq<Block>, a: Arena)
    requires Safe(arena, memory, stack, levels, live) && Fresh(memory, now, a, arena)
    ensures Safe(a, now, stack + [a], levels, live)
  {
    FreshFilled(memory, now, stack, levels, live, a, arena);
    assert LevelsOk(stack + [a], levels, live);
    assert Opens(levels, |stack|) <==> |stack| == 0;
    ExtendLinked(memory, now, stack, levels, a);
    hide Filled, Linked, Fresh, LevelsOk, Opens;
  }

  lemma ExtendLinked(memory: Memory, now: Memory, stack: seq<Arena>, levels: seq<Level>, a: Arena)
    requires Linked(memory, stack, levels) && Fresh(memory, now, a, Last(stack))
    requires Opens(levels, |stack|) <==> |stack| == 0
    ensures Linked(now, stack + [a], levels)
  {
    var more := stack + [a];
    assert InMemory(now, a) && now[a.base].header == Last(stack);
    OpensFirst(levels);
    hide Opens, Fresh, InMemory, Linked;
    forall k | 0 <= k < |more| ensures InMemory(now, more[k]) && now[more[k].base].header == Under(more, levels, k) {
      if k < |stack| {
        FreshOthers(memory, now, stack, levels, a, Last(stack), k);
      }
    }
    LinkedFrom(now, more, levels);
  }

  lemma AllocateKeeps(arena: Arena, memory: Memory, stack: seq<Arena>, levels: seq<Level>, live: seq<Block>, n: nat)
    requires Safe(arena, memory, stack, levels, live) && stack != [] && Fits(arena.beg, arena.end, n)
    ensures var a := arena.(beg := arena.beg + Padding(arena.beg) + n);
      Safe(a, memory, stack[|stack| - 1 := a], levels, live + [Block(|stack| - 1, arena.beg + Padding(arena.beg), n)])
  {
    hide Padding, Filled, Linked, LevelsOk;
    var rs, m := Rooms(stack), |stack|;
    var a := arena.(beg := arena.beg + Padding(arena.beg) + n);
    var b := Block(m - 1, arena.beg + Padding(arena.beg), n);
    assert rs[m - 1] == Room(arena);
    Place(rs, m, live, n);
    assert Rooms(stack[m - 1 := a]) == Bumped(rs, m, n);
    assert NewBlock(rs, m, n) == b;
    BumpLinked(memory, stack, levels, a);
    BumpLevels(stack, levels, live, a, b);
  }

  lemma BumpLinked(memory: Memory, stack: seq<Arena>, levels: seq<Level>, a: Arena)
    requires Linked(memory, stack, levels) && stack != [] && a == Last(stack).(beg := a.beg)
    ensures Linked(memory, stack[|stack| - 1 := a], levels)
  {
    var now := stack[|stack| - 1 := a];
    OpensFirst(levels);
    hide Opens;
    forall k | 0 <= k < |stack| ensures InMemory(memory, now[k]) && memory[now[k].base].header == Under(now, levels, k) {
      assert InMemory(memory, stack[k]);
    }
  }

  lemma BumpLevels(stack: seq<Arena>, levels: seq<Level>, live: seq<Block>, a: Arena, b: Block)
    requires LevelsOk(stack, levels, live) && stack != [] && b.region == |stack| - 1
    ensures LevelsOk(stack[|stack| - 1 := a], levels, live + [b])
  {
    var more := live + [b];
    forall d, k | 0 <= d < |levels| && 0 <= k < |more| ensures k < levels[d].count <==> more[k].region < levels[d].start {
      if k < |live| { assert more[k] == live[k]; }
    }
  }

  // ---- giving a chain back ----

  /** Memory after the arena has been unpinned or freed. */
  function Dropped(memory: Memory, a: Arena): Memory {
    if a.base !in memory then memory
    else if a.gc then memory[a.base := memory[a.base].(pins := memory[a.base].pins - 1)]
    else memory - {a.base}
  }

  function AllDropped(memory: Memory, chain: seq<Arena>): Memory {
    if chain == [] then memory else Dropped(AllDropped(memory, chain[..|chain| - 1]), chain[|chain| - 1])
  }

  ghost predicate BasesDistinct(chain: seq<Arena>) {
    forall j, k | 0 <= j < k < |chain| :: chain[j].base != chain[k].base
  }

  /** A chain: each header holds the arena before it, the first holds none. */
  ghost predicate IsChain(memory: Memory, chain: seq<Arena>) {
    && BasesDistinct(chain)
    && (forall k | 0 <= k < |chain| :: 0 < chain[k].base && chain[k].base in memory)
    && (forall k | 0 <= k < |chain| :: memory[chain[k].base].header == Last(chain[..k]))
  }

  /** The piece of memory at `p` is the same in both. */
  predicate SameAt(m: Memory, m': Memory, p: nat) {
    (p in m <==> p in m') && (p in m ==> m[p] == m'[p])
  }

  /** No memory but that of the chain changes. */
  lemma {:induction false} DroppedOthers(memory: Memory, chain: seq<Arena>, p: nat)
    requires forall k | 0 <= k < |chain| :: chain[k].base != p
    ensures SameAt(memory, AllDropped(memory, chain), p)
    decreases |chain|
  {
    if chain != [] {
      DroppedOthers(memory, chain[..|chain| - 1], p);
    }
  }

  /** Each arena of the chain is unpinned or freed, once. */
  lemma {:induction false} DroppedOnce(memory: Memory, chain: seq<Arena>, k: nat)
    requires BasesDistinct(chain) && k < |chain| && chain[k].base in memory
    ensures var p, now := chain[k].base, AllDropped(memory, chain);
      if chain[k].gc then p in now && now[p] == memory[p].(pins := memory[p].pins - 1) else p !in now
    decreases |chain|
  {
    var most, p := chain[..|chain| - 1], chain[k].base;
    if k == |chain| - 1 {
      DroppedOthers(memory, most, p);
    } else {
      DroppedOnce(memory, most, k);
      assert chain[|chain| - 1].base != p;
    }
  }

  lemma ChainPrefix(memory: Memory, chain: seq<Arena>)
    requires IsChain(memory, chain) && chain != []
    ensures var most, a := chain[..|chain| - 1], chain[|chain| - 1];
      && IsChain(memory, most) && 0 < a.base && a.base in memory && memory[a.base].header == Last(most)
      && (forall k | 0 <= k < |most| :: most[k].base != a.base)
      && SameAt(memory, AllDropped(memory, most), a.base)
  {
    var most := chain[..|chain| - 1];
    forall k | 0 <= k < |most| ensures memory[most[k].base].header == Last(most[..k]) {
      assert most[..k] == chain[..k];
    }
    DroppedOthers(memory, most, chain[|chain| - 1].base);
  }

  // ---- the runtime's arena ----

  class Ty {
    var arena: Arena
    var memory: Memory
    ghost var stack: seq<Arena>
    ghost var levels: seq<Level>
    ghost var live: seq<Block>

    ghost predicate Valid()
      reads this
    {
      Safe(arena, memory, stack, levels, live)
    }

    constructor ()
      ensures Valid() && arena == NO_ARENA && stack == [] && levels == [] && live == []
    {
      arena, memory, stack, levels, live := NO_ARENA, map[], [], [], [];
    }

    /** Any aligned stretch apart from all memory in use. */
    method Malloc(size: nat) returns (base: nat)
      ensures FreeAt(memory, size, base) && 0 < base && base % ALIGN == 0
    {
      ghost var top := Above(memory.Keys, memory);
      assert FreeAt(memory, size, top);
      base :| FreeAt(memory, size, base);
    }

    /** `NewArenaGC` and `NewArenaNoGC` up to what they return: a fresh region becomes the
        current arena, its header empty. */
    method Install(cap: nat, gc: bool) returns (old_: Arena)
      requires 0 < cap && cap % ALIGN == 0
      modifies `arena, `memory
      ensures old_ == old(arena) && Fresh(old(memory), memory, arena, NO_ARENA)
      ensures arena.gc == gc && arena.end == arena.base + RESERVED + cap
      ensures arena.immortal == (gc && old(arena).immortal)
      ensures memory[arena.base].tracked == (gc && !old(arena).immortal)
    {
      hide FreeAt, Fresh;
      old_ := arena;
      var base := Malloc(cap + RESERVED);
      if gc {
        arena := arena.(base := base);
        arena := arena.(beg := base + RESERVED);
        arena := arena.(end := base + RESERVED + cap);
        arena := arena.(gc := true);
        memory := memory[base := Chunk(cap + RESERVED, NO_ARENA, 1, true)];
        if arena.immortal {
          memory := memory[base := memory[base].(tracked := false)];
        }
      } else {
        arena := arena.(base := base);
        arena := arena.(gc := false);
        arena := arena.(immortal := false);
        arena := arena.(beg := base + RESERVED);
        arena := arena.(end := base + RESERVED + cap);
        memory := memory[base := Chunk(cap + RESERVED, NO_ARENA, 0, false)];
      }
      assert memory == old(memory)[base := memory[base]];
      IsFresh(old(memory), memory, arena, cap);
    }

    /** Opens a level; the arena returned is to be handed to `Release`. */
    method NewArena(cap: nat, gc: bool) returns (outer: Arena)
      requires Valid() && 0 < cap && cap % ALIGN == 0
      modifies this
      ensures Valid() && outer == old(arena)
      ensures stack == old(stack) + [arena] && live == old(live)
      ensures levels == old(levels) + [Level(|old(stack)|, |old(live)|)]
      ensures arena.end - (arena.base + RESERVED) == cap && arena.gc == gc && arena.immortal == (gc && old(arena).immortal)
    {
      hide Safe, Fresh;
      outer := Install(cap, gc);
      OpenKeeps(outer, old(memory), memory, stack, levels, live, arena);
      stack, levels := stack + [arena], levels + [Level(|stack|, |live|)];
    }

    /** The current level goes on in a region of twice the size. */
    method Expand()
      requires Valid()
      modifies `arena, `memory, `stack
      ensures Valid() && stack == old(stack) + [arena] && arena.beg == arena.base + RESERVED
      ensures arena.gc == (old(stack) == [] || old(arena).gc)
      ensures arena.end - arena.beg == if old(stack) == [] then 0x10_0000 else 2 * (old(arena).end - (old(arena).base + RESERVED))
    {
      hide Safe, FreeAt;
      NothingYet(arena, memory, stack, levels, live);
      if arena.base == 0 {
        var old_ := Install(0x10_0000, true);
        ExtendKeeps(old_, old(memory), memory, stack, levels, live, arena);
      } else {
        SizeAligned(arena, memory, stack, levels, live);
        var size := 2 * (arena.end - (arena.base + RESERVED));
        var old_ := Install(size, arena.gc);
        memory := memory[arena.base := memory[arena.base].(header := old_)];
        assert memory == old(memory)[arena.base := memory[arena.base]];
        ExtendKeeps(old_, old(memory), memory, stack, levels, live, arena);
      }
      stack := stack + [arena];
    }

    /** For every size: an aligned block apart from all live ones, unless nothing is asked
        for and there is no arena yet. It is the next in the current region if it fits there,
        otherwise the first in the first doubled region that is large enough. */
    method Allocate(n: nat) returns (address: nat)
      requires Valid()
      modifies `arena, `memory, `stack, `live
      ensures Valid()
      ensures n == 0 && old(stack) == [] ==> address == 0 && live == old(live) && stack == old(stack)
      ensures n != 0 || old(stack) != [] ==>
        && stack != [] && live == old(live) + [Block(|stack| - 1, address, n)]
        && address % ALIGN == 0
        && forall k | 0 <= k < |old(live)| :: old(live)[k].Apart(Block(|stack| - 1, address, n))
      ensures n != 0 || old(stack) != [] ==> arena.beg == address + n
      ensures n != 0 || old(stack) != [] ==>
        if old(stack) != [] && Fits(old(arena).beg, old(arena).end, n)
        then |stack| == |old(stack)| && address == old(arena).beg + Padding(old(arena).beg)
        else && |old(stack)| < |stack| && address == arena.base + RESERVED
             && forall k | |old(stack)| <= k < |stack| - 1 :: stack[k].end - (stack[k].base + RESERVED) < n
      ensures |old(stack)| <= |stack|
      ensures forall k | 0 <= k < |old(stack)| - 1 :: stack[k] == old(stack)[k]
      ensures old(stack) != [] ==> stack[|old(stack)| - 1] == old(arena).(beg := stack[|old(stack)| - 1].beg)
    {
      hide Filled, Linked, LevelsOk, Padding;
      while true
        invariant Valid() && live == old(live) && old(stack) <= stack
        invariant n == 0 && old(stack) == [] ==> stack == old(stack)
        invariant |stack| == |old(stack)| ==> arena == old(arena)
        invariant |old(stack)| < |stack| ==> arena.beg == arena.base + RESERVED
        invariant |old(stack)| < |stack| && old(stack) != [] ==> !Fits(old(arena).beg, old(arena).end, n)
        invariant forall k | |old(stack)| <= k < |stack| - 1 :: stack[k].end - (stack[k].base + RESERVED) < n
        decreases if stack == [] then 1 else 0, Lacking(n, arena), if arena.beg == arena.base + RESERVED then 0 else 1
      {
        InUse(arena, memory, stack, levels, live);
        var avail := arena.end - arena.beg;
        var padding := Padding(arena.beg);
        if n > Converted(avail - padding) {
          Expand();
          continue;
        }
        address := Take(n, padding);
        return;
      }
    }

    /** Takes `n` bytes that fit from the current region, if there is one. */
    method Take(n: nat, padding: nat) returns (address: nat)
      requires Valid() && padding == Padding(arena.beg) && Fits(arena.beg, arena.end, n)
      requires stack == [] ==> arena == NO_ARENA && n == 0 && padding == 0
      modifies `arena, `stack, `live
      ensures Valid() && |stack| == |old(stack)|
      ensures address == old(arena).beg + padding && arena == old(arena).(beg := address + n)
      ensures stack == [] ==> address == 0 && live == old(live) && stack == old(stack)
      ensures stack != [] ==>
        && live == old(live) + [Block(|stack| - 1, address, n)] && address % ALIGN == 0
        && (forall k | 0 <= k < |old(live)| :: old(live)[k].Apart(Block(|stack| - 1, address, n)))
        && stack == old(stack)[|stack| - 1 := old(arena).(beg := stack[|stack| - 1].beg)]
    {
      hide Filled, Linked, LevelsOk, Padding;
      address := arena.beg + padding;
      if stack != [] {
        AllocateKeeps(arena, memory, stack, levels, live, n);
      }
      arena := arena.(beg := arena.beg + (padding + n));
      if stack != [] {
        stack := stack[|stack| - 1 := arena];
        live := live + [Block(|stack| - 1, address, n)];
        NewestApart(Rooms(stack), |stack|, live);
        assert forall k | 0 <= k < |old(live)| :: live[k] == old(live)[k];
      }
    }

    /** The arena behind a pointer, read from memory that must not have been freed. */
    function Load(p: Pointer): Arena
      requires p != Null && (p.HeaderOf? ==> p.base in memory)
      reads this
    {
      if p == Current then arena else memory[p.base].header
    }

    /** The pointer is to the end of the chain and not into memory that the chain gives back. */
    ghost predicate Leads(p: Pointer, chain: seq<Arena>)
      reads this
    {
      && (p == Null ==> chain == [])
      && (p != Null ==> (p.HeaderOf? ==> p.base in memory && forall k | 0 <= k < |chain| :: chain[k].base != p.base) && Load(p) == Last(chain))
    }

    /** Unpins or frees each arena of the chain, the oldest first. The fields of `a` are read
        again after the recursion, from memory that is still there. */
    method FreeArena(a: Pointer, ghost chain: seq<Arena>)
      requires IsChain(memory, chain) && Leads(a, chain)
      modifies `memory
      ensures memory == AllDropped(old(memory), chain)
      decreases |chain|, if a == Null then 0 else 1
    {
      if a == Null {
        return;
      }
      ghost var most := if chain == [] then [] else chain[..|chain| - 1];
      ghost var kept := Load(a);
      hide IsChain;
      if chain != [] {
        ChainPrefix(memory, chain);
        ChainElements(chain);
      } else {
        EmptyChain(memory);
      }
      FreeArena(NextArena(a), most);
      if a.HeaderOf? {
        DroppedOthers(old(memory), most, a.base);
      }
      assert Load(a) == kept;
      if Load(a).gc {
        var base := Load(a).base;
        memory := memory[base := memory[base].(pins := memory[base].pins - 1)];
      } else if Load(a).base != 0 {
        memory := memory - {Load(a).base};
      }
    }

    /** `NextArena`: the arena stored at the start of the region. */
    function NextArena(a: Pointer): Pointer
      requires a != Null && (a.HeaderOf? ==> a.base in memory)
      reads this
    {
      if Load(a).base == 0 then Null else HeaderOf(Load(a).base)
    }

    /** Closes the innermost level: its arenas are unpinned or freed, each once, the blocks
        of the levels around it are live as before, and the outer arena is current again. */
    method Release(outer: Arena)
      requires Valid() && levels != [] && Innermost(levels).start <= |stack|
      requires outer == Last(stack[..Innermost(levels).start])
      modifies this
      ensures Valid() && arena == outer
      ensures var l := old(Innermost(levels));
        && l.start <= |old(stack)| && l.count <= |old(live)|
        && stack == old(stack)[..l.start] && live == old(live)[..l.count] && levels == old(levels)[..|old(levels)| - 1]
        && memory == AllDropped(old(memory), old(stack)[l.start..])
    {
      hide Safe, IsChain;
      ghost var l := Innermost(levels);
      LevelChain(arena, memory, stack, levels, live);
      FreeArena(Current, stack[l.start..]);
      CloseKeeps(arena, old(memory), stack, levels, live);
      arena := outer;
      stack, live, levels := stack[..l.start], live[..l.count], levels[..|levels| - 1];
    }
  }

  // ---- facts the methods use ----

  lemma {:induction false} Above(keys: set<nat>, memory: Memory) returns (top: nat)
    requires keys <= memory.Keys
    ensures 0 < top && top % ALIGN == 0 && forall p | p in keys :: p + memory[p].size < top
    decreases |keys|
  {
    if keys == {} {
      top := ALIGN;
    } else {
      var x :| x in keys;
      var rest := Above(keys - {x}, memory);
      var end := x + memory[x].size + 1;
      top := if end <= rest then rest else end + Padding(end);
    }
  }

  lemma ChainElements(chain: seq<Arena>)
    requires chain != []
    ensures var most := chain[..|chain| - 1]; forall k | 0 <= k < |most| :: most[k] == chain[k]
  {
  }

  lemma EmptyChain(memory: Memory)
    ensures IsChain(memory, []) && AllDropped(memory, []) == memory
  {
  }

  lemma LastRoom(stack: seq<Arena>, live: seq<Block>)
    requires Filled(Rooms(stack), |stack|, live) && stack != []
    ensures RegionOk(Room(Last(stack)))
  {
    assert RegionOk(Rooms(stack)[|stack| - 1]);
  }

  lemma NothingYet(arena: Arena, memory: Memory, stack: seq<Arena>, levels: seq<Level>, live: seq<Block>)
    requires Safe(arena, memory, stack, levels, live)
    ensures stack == [] <==> arena.base == 0
    ensures stack == [] ==> arena == NO_ARENA
  {
    if stack != [] { assert InMemory(memory, stack[|stack| - 1]); }
  }

  lemma SizeAligned(arena: Arena, memory: Memory, stack: seq<Arena>, levels: seq<Level>, live: seq<Block>)
    requires Safe(arena, memory, stack, levels, live) && arena.base != 0
    ensures stack != [] && 0 < 2 * (arena.end - (arena.base + RESERVED)) && 2 * (arena.end - (arena.base + RESERVED)) % ALIGN == 0
  {
    hide Filled, Linked, LevelsOk, RegionOk;
    NothingYet(arena, memory, stack, levels, live);
    LastRoom(stack, live);
    CapacityAligned(Room(arena));
  }

  /** The test made by `Allocate` is exact, and an empty arena starts aligned. */
  lemma InUse(arena: Arena, memory: Memory, stack: seq<Arena>, levels: seq<Level>, live: seq<Block>)
    requires Safe(arena, memory, stack, levels, live)
    ensures arena.beg + Padding(arena.beg) <= arena.end
    ensures stack == [] ==> arena == NO_ARENA && Padding(0) == 0
    ensures stack != [] ==> Padding(arena.base + RESERVED) == 0 && arena.base + RESERVED < arena.end && arena.base != 0
  {
    hide Filled, Linked, LevelsOk;
    NothingYet(arena, memory, stack, levels, live);
    if stack != [] { LastRoom(stack, live); }
  }

  /** How much the arena is too small for `n` bytes. */
  ghost function Lacking(n: nat, a: Arena): nat {
    if n <= a.end - (a.base + RESERVED) then 0 else n - (a.end - (a.base + RESERVED))
  }

  ghost function Innermost(levels: seq<Level>): Level
    requires levels != []
  {
    levels[|levels| - 1]
  }

  /** The arenas of the innermost level form a chain. */
  lemma LevelChain(arena: Arena, memory: Memory, stack: seq<Arena>, levels: seq<Level>, live: seq<Block>)
    requires Safe(arena, memory, stack, levels, live) && levels != []
    ensures Innermost(levels).start < |stack| && Innermost(levels).count <= |live|
    ensures IsChain(memory, stack[Innermost(levels).start..]) && arena == Last(stack[Innermost(levels).start..])
  {
    hide LevelsOk, Filled, Linked, IsChain, BasesDistinct;
    CloseLevels(stack, levels, live);
    var s := Innermost(levels).start;
    var chain := stack[s..];
    assert IsChain(memory, chain) by {
      forall k | 0 <= k < |chain| ensures ChainedAt(memory, chain, k) {
        HeaderInLevel(memory, stack, levels, live, s + k);
        LastOfSlice(stack, s, k);
      }
      SliceDistinct(stack, live, s);
      ChainFrom(memory, chain);
    }
  }

  ghost predicate ChainedAt(memory: Memory, chain: seq<Arena>, k: nat)
    requires k < |chain|
  {
    0 < chain[k].base && chain[k].base in memory && memory[chain[k].base].header == Last(chain[..k])
  }

  lemma ChainFrom(memory: Memory, chain: seq<Arena>)
    requires BasesDistinct(chain) && forall k | 0 <= k < |chain| :: ChainedAt(memory, chain, k)
    ensures IsChain(memory, chain)
  {
    forall k | 0 <= k < |chain|
      ensures 0 < chain[k].base && chain[k].base in memory && memory[chain[k].base].header == Last(chain[..k])
    {
      assert ChainedAt(memory, chain, k);
    }
  }

  lemma SliceDistinct(stack: seq<Arena>, live: seq<Block>, s: nat)
    requires Filled(Rooms(stack), |stack|, live) && s <= |stack|
    ensures BasesDistinct(stack[s..])
  {
    hide Filled;
    forall j, k | 0 <= j < k < |stack[s..]| ensures stack[s..][j].base != stack[s..][k].base {
      BasesDiffer(stack, live, s + j, s + k);
    }
  }

  lemma LastOfSlice(stack: seq<Arena>, s: nat, k: nat)
    requires s + k < |stack|
    ensures stack[s..][k] == stack[s + k] && Last(stack[s..][..k]) == if k == 0 then NO_ARENA else stack[s + k - 1]
  {
  }

  lemma HeaderInLevel(memory: Memory, stack: seq<Arena>, levels: seq<Level>, live: seq<Block>, k: nat)
    requires Linked(memory, stack, levels) && LevelsOk(stack, levels, live)
    requires levels != [] && Innermost(levels).start <= k < |stack|
    ensures 0 < stack[k].base && stack[k].base in memory
    ensures memory[stack[k].base].header == if k == Innermost(levels).start then NO_ARENA else stack[k - 1]
  {
    assert InMemory(memory, stack[k]);
    assert Opens(levels, k) <==> k == Innermost(levels).start by {
      assert levels[|levels| - 1].start == Innermost(levels).start;
    }
    hide Opens;
  }

  lemma BasesDiffer(stack: seq<Arena>, live: seq<Block>, j: nat, k: nat)
    requires Filled(Rooms(stack), |stack|, live) && j < k < |stack|
    ensures stack[j].base != stack[k].base
  {
    var rs := Rooms(stack);
    assert RegionOk(rs[j]) && RegionOk(rs[k]) && RegionsApart(rs[j], rs[k]);
  }

  lemma CloseKeeps(arena: Arena, memory: Memory, stack: seq<Arena>, levels: seq<Level>, live: seq<Block>)
    requires Safe(arena, memory, stack, levels, live) && levels != []
    ensures var l := Innermost(levels);
      l.start <= |stack| && l.count <= |live| &&
      Safe(Last(stack[..l.start]), AllDropped(memory, stack[l.start..]), stack[..l.start], levels[..|levels| - 1], live[..l.count])
  {
    var l := Innermost(levels);
    LevelChain(arena, memory, stack, levels, live);
    CloseLevels(stack, levels, live);
    hide Filled, Linked, LevelsOk, IsChain;
    Shrink(Rooms(stack), |stack|, live, l.start, l.count);
    assert Rooms(stack[..l.start]) == Rooms(stack)[..l.start];
    CloseLinked(memory, stack, levels, live);
  }

  lemma CloseLevels(stack: seq<Arena>, levels: seq<Level>, live: seq<Block>)
    requires LevelsOk(stack, levels, live) && levels != []
    ensures var l := Innermost(levels);
      && l.start < |stack| && l.count <= |live| && LevelsOk(stack[..l.start], levels[..|levels| - 1], live[..l.count])
      && (forall k | 0 <= k < l.count :: live[k].region < l.start)
  {
    var l := Innermost(levels);
    var outer, less := levels[..|levels| - 1], live[..l.count];
    assert levels[|levels| - 1] == l;
    forall d | 0 <= d < |outer| ensures outer[d].start < l.start && outer[d].count <= l.count {
      assert outer[d] == levels[d];
    }
    forall d, k | 0 <= d < |outer| && 0 <= k < |less| ensures k < outer[d].count <==> less[k].region < outer[d].start {
      assert outer[d] == levels[d] && less[k] == live[k];
    }
  }

  lemma CloseLinked(memory: Memory, stack: seq<Arena>, levels: seq<Level>, live: seq<Block>)
    requires Filled(Rooms(stack), |stack|, live) && Linked(memory, stack, levels)
    requires levels != [] && Innermost(levels).start <= |stack|
    ensures var s := Innermost(levels).start;
      Linked(AllDropped(memory, stack[s..]), stack[..s], levels[..|levels| - 1])
  {
    var s, outer := Innermost(levels).start, levels[..|levels| - 1];
    var less, now := stack[..s], AllDropped(memory, stack[s..]);
    hide Filled, Linked, InMemory, AllDropped, Under;
    forall k | 0 <= k < |less| ensures InMemory(now, less[k]) && now[less[k].base].header == Under(less, outer, k) {
      KeptArena(memory, stack, levels, live, k);
      UnderPrefix(stack, levels, k);
    }
    LinkedFrom(now, less, outer);
  }

  lemma UnderPrefix(stack: seq<Arena>, levels: seq<Level>, k: nat)
    requires levels != [] && k < Innermost(levels).start <= |stack|
    ensures Under(stack[..Innermost(levels).start], levels[..|levels| - 1], k) == Under(stack, levels, k)
  {
    var outer := levels[..|levels| - 1];
    assert levels == outer + [Innermost(levels)];
    OpensAppend(outer, Innermost(levels), k);
    OpensFirst(outer);
    hide Opens;
  }

  lemma KeptArena(memory: Memory, stack: seq<Arena>, levels: seq<Level>, live: seq<Block>, k: nat)
    requires Filled(Rooms(stack), |stack|, live) && Linked(memory, stack, levels)
    requires levels != [] && k < Innermost(levels).start <= |stack|
    ensures var now := AllDropped(memory, stack[Innermost(levels).start..]);
      InMemory(now, stack[k]) && now[stack[k].base].header == Under(stack, levels, k)
  {
    var s := Innermost(levels).start;
    var chain := stack[s..];
    assert InMemory(memory, stack[k]) && memory[stack[k].base].header == Under(stack, levels, k);
    hide Filled, Linked, Opens;
    forall j | 0 <= j < |chain| ensures chain[j].base != stack[k].base {
      BasesDiffer(stack, live, k, s + j);
    }
    DroppedOthers(memory, chain, stack[k].base);
  }

  /** Expanding an empty region of capacity `cap`, from aligned addresses, comes to one that
      admits `n` bytes exactly when the capacity is not zero or nothing is asked for: this is
      why `Allocate` ends, and why `NewArena` must not be given zero. */
  lemma DoublingReaches(cap: nat, n: nat, start: nat)
    requires cap % ALIGN == 0 && start % ALIGN == 0
    ensures (exists k: nat :: Admits(start, start + cap * Pow(2, k), n)) <==> 0 < cap || n == 0
  {
    hide Pow, Admits;
    forall k: nat ensures Admits(start, start + cap * Pow(2, k), n) <==> n <= cap * Pow(2, k) {
      MulMonotone(0, 0, cap, Pow(2, k));
      AdmitsFresh(start, cap * Pow(2, k), n);
    }
    if 0 < cap {
      Doubled(n);
      MulMonotone(1, Pow(2, n), cap, Pow(2, n));
      assert Admits(start, start + cap * Pow(2, n), n);
    } else if n == 0 {
      assert Admits(start, start + cap * Pow(2, 0), n);
    }
  }

  lemma AdmitsFresh(start: nat, cap: nat, n: nat)
    requires start % ALIGN == 0
    ensures Admits(start, start + cap, n) <==> n <= cap
  {
  }

  lemma {:induction false} Doubled(n: nat)
    ensures n <= Pow(2, n)
  {
    if n > 0 { Doubled(n - 1); }
  }
}
