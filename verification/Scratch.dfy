/** The scratch stack: a vector of regions of doubling size, of which the first `i` are
    in use, with saved positions that are restored in any outward order.
    Addresses are unbounded and memory never runs out. */
module Scratch {
  import opened Bump

  /** A region of the stack. */
  type Arena = Region

  datatype ScratchSave = ScratchSave(i: nat, beg: nat)

  /** A saved position together with how many blocks were live at that time. */
  datatype Mark = Mark(save: ScratchSave, count: nat)

  // ---- what every operation keeps ----

  predicate BeforeSave(b: Block, s: ScratchSave) {
    b.region + 1 < s.i || (b.region + 1 == s.i && b.address + b.size <= s.beg)
  }

  predicate AfterSave(b: Block, s: ScratchSave) {
    s.i < b.region + 1 || (b.region + 1 == s.i && s.beg <= b.address)
  }

  /** The position separates the first `m.count` live blocks from the later ones. */
  ghost predicate Holds(arenas: seq<Arena>, i: nat, live: seq<Block>, m: Mark) {
    && 1 <= m.save.i <= i <= |arenas| && m.count <= |live|
    && arenas[m.save.i - 1].base <= m.save.beg <= arenas[m.save.i - 1].beg
    && (forall k | 0 <= k < m.count :: BeforeSave(live[k], m.save))
    && (forall k | m.count <= k < |live| :: AfterSave(live[k], m.save))
  }

  predicate Earlier(a: Mark, b: Mark) {
    && a.count <= b.count
    && (a.save.i < b.save.i || (a.save.i == b.save.i && a.save.beg <= b.save.beg))
  }

  ghost predicate MarksOk(arenas: seq<Arena>, i: nat, live: seq<Block>, marks: seq<Mark>) {
    && (forall k | 0 <= k < |marks| :: Holds(arenas, i, live, marks[k]))
    && (forall j, k | 0 <= j < k < |marks| :: Earlier(marks[j], marks[k]))
  }

  ghost predicate Safe(arenas: seq<Arena>, i: nat, live: seq<Block>, marks: seq<Mark>) {
    Filled(arenas, i, live) && MarksOk(arenas, i, live, marks)
  }

  /** The arena in use has an aligned end and start, the next one has nothing in it. */
  lemma Current(arenas: seq<Arena>, i: nat, live: seq<Block>, marks: seq<Mark>)
    requires Safe(arenas, i, live, marks)
    ensures i <= |arenas|
    ensures 1 <= i ==> RegionOk(arenas[i - 1]) && Padding(arenas[i - 1].base) == 0
    ensures i < |arenas| ==> arenas[i].beg == arenas[i].base
  {
    if 1 <= i { assert RegionOk(arenas[i - 1]); }
  }

  // ---- steps ----

  lemma GrowKeeps(arenas: seq<Arena>, live: seq<Block>, marks: seq<Mark>, base: nat, cap: nat)
    requires Safe(arenas, |arenas|, live, marks)
    requires Free(arenas, cap, base) && 0 < cap && cap % ALIGN == 0
    ensures Safe(arenas + [Region(base, base, base + cap)], |arenas|, live, marks)
  {
    var a := Region(base, base, base + cap);
    AppendRegion(arenas, live, a);
    forall k | 0 <= k < |marks| ensures Holds(arenas + [a], |arenas|, live, marks[k]) {
      assert Holds(arenas, |arenas|, live, marks[k]);
    }
  }

  lemma NextKeeps(arenas: seq<Arena>, i: nat, live: seq<Block>, marks: seq<Mark>)
    requires Safe(arenas, i, live, marks) && i < |arenas|
    ensures Safe(arenas, i + 1, live, marks)
  {
    UseNext(arenas, i, live);
    forall k | 0 <= k < |marks| ensures Holds(arenas, i + 1, live, marks[k]) {
      assert Holds(arenas, i, live, marks[k]);
    }
  }

  lemma AllocateKeeps(arenas: seq<Arena>, i: nat, live: seq<Block>, marks: seq<Mark>, n: nat)
    requires Safe(arenas, i, live, marks) && 1 <= i && Fits(arenas[i - 1].beg, arenas[i - 1].end, n)
    ensures Safe(Bumped(arenas, i, n), i, live + [NewBlock(arenas, i, n)], marks)
  {
    Place(arenas, i, live, n);
    hide Filled, Padding;
    var now, b := Bumped(arenas, i, n), NewBlock(arenas, i, n);
    forall k | 0 <= k < |marks| ensures Holds(now, i, live + [b], marks[k]) {
      assert Holds(arenas, i, live, marks[k]);
      assert AfterSave(b, marks[k].save);
    }
  }

  lemma SaveKeeps(arenas: seq<Arena>, i: nat, live: seq<Block>, marks: seq<Mark>)
    requires Safe(arenas, i, live, marks) && 1 <= i
    ensures Safe(arenas, i, live, marks + [Mark(ScratchSave(i, arenas[i - 1].beg), |live|)])
  {
    var m := Mark(ScratchSave(i, arenas[i - 1].beg), |live|);
    assert RegionOk(arenas[i - 1]);
    forall k | 0 <= k < |live| ensures BeforeSave(live[k], m.save) {
      assert BlockOk(arenas, i, live[k]);
    }
    assert Holds(arenas, i, live, m);
    forall k | 0 <= k < |marks| ensures Earlier(marks[k], m) {
      assert Holds(arenas, i, live, marks[k]);
    }
  }

  /** The arenas after going back to `s`: those above it are empty again. */
  function Unwound(arenas: seq<Arena>, i: nat, s: ScratchSave): seq<Arena>
    requires 1 <= s.i <= i <= |arenas|
  {
    seq(|arenas|, k requires 0 <= k < |arenas| =>
      if k == s.i - 1 then arenas[k].(beg := s.beg)
      else if s.i <= k < i then arenas[k].(beg := arenas[k].base)
      else arenas[k])
  }

  lemma RestoreKeeps(arenas: seq<Arena>, i: nat, live: seq<Block>, marks: seq<Mark>, m: Mark, kept: nat)
    requires Safe(arenas, i, live, marks) && Holds(arenas, i, live, m)
    requires kept <= |marks| && forall k | 0 <= k < kept :: Earlier(marks[k], m)
    ensures Safe(Unwound(arenas, i, m.save), m.save.i, live[..m.count], marks[..kept])
  {
    var now, less := Unwound(arenas, i, m.save), live[..m.count];
    forall k | 0 <= k < |now| ensures RegionOk(now[k]) {
      assert RegionOk(arenas[k]);
    }
    forall j, k | 0 <= j < k < |now| ensures RegionsApart(now[j], now[k]) {
      assert RegionsApart(arenas[j], arenas[k]);
    }
    assert RegionsOk(now, m.save.i);
    forall k | 0 <= k < |less| ensures BlockOk(now, m.save.i, less[k]) {
      assert BlockOk(arenas, i, live[k]) && BeforeSave(live[k], m.save);
    }
    forall k | 0 <= k < kept ensures Holds(now, m.save.i, less, marks[k]) {
      assert Holds(arenas, i, live, marks[k]) && Earlier(marks[k], m);
    }
  }

  /** The position below every save. */
  lemma BottomHolds(arenas: seq<Arena>, i: nat, live: seq<Block>)
    requires Filled(arenas, i, live) && 1 <= i
    ensures Holds(arenas, i, live, Mark(ScratchSave(1, arenas[0].base), 0))
  {
    assert RegionOk(arenas[0]);
    var s := ScratchSave(1, arenas[0].base);
    forall k | 0 <= k < |live| ensures AfterSave(live[k], s) {
      assert BlockOk(arenas, i, live[k]);
    }
  }

  // ---- fresh memory ----

  /** An address behind all regions. */
  function Top(arenas: seq<Arena>): (t: nat)
    ensures 0 < t && t % ALIGN == 0
    ensures forall k | 0 <= k < |arenas| :: arenas[k].end <= t
  {
    if arenas == [] then ALIGN
    else
      var rest, last := Top(arenas[..|arenas| - 1]), arenas[|arenas| - 1].end;
      if last <= rest then rest else last + Padding(last)
  }

  predicate Free(arenas: seq<Arena>, cap: nat, base: nat) {
    && 0 < base && base % ALIGN == 0
    && forall k | 0 <= k < |arenas| :: arenas[k].end <= base || base + cap <= arenas[k].base
  }

  /** Any aligned stretch apart from the regions there are. */
  method Malloc(arenas: seq<Arena>, cap: nat) returns (base: nat)
    ensures Free(arenas, cap, base)
  {
    assert Free(arenas, cap, Top(arenas));
    base :| Free(arenas, cap, base);
  }

  // ---- the stack ----

  class ScratchStack {
    var arenas: seq<Arena>
    var i: nat
    ghost var live: seq<Block>
    ghost var marks: seq<Mark>

    ghost predicate Valid()
      reads this
    {
      Safe(arenas, i, live, marks)
    }

    constructor ()
      ensures Valid() && i == 0 && live == [] && marks == []
    {
      arenas, i, live, marks := [], 0, [], [];
    }

    /** Takes one more arena into use: the next one kept from before, or a new one twice
        as large as the last. */
    method Expand()
      requires Valid()
      modifies `arenas, `i
      ensures Valid() && i == old(i) + 1 && old(arenas) <= arenas
      ensures arenas[i - 1].beg == arenas[i - 1].base
      ensures if old(i) < |old(arenas)| then arenas == old(arenas) else
        |arenas| == i && Capacity(arenas[i - 1]) == if old(i) == 0 then 4096 else 2 * Capacity(old(arenas)[old(i) - 1])
    {
      hide Filled, MarksOk, Free, Padding, RegionOk;
      Current(arenas, i, live, marks);
      if i == |arenas| {
        var cap: nat;
        if i == 0 {
          cap := 4096;
        } else {
          var last := arenas[|arenas| - 1];
          CapacityAligned(last);
          cap := 2 * (last.end - last.base);
        }
        var new_ := Malloc(arenas, cap);
        GrowKeeps(arenas, live, marks, new_, cap);
        arenas := arenas + [Region(new_, new_, new_ + cap)];
      }
      NextKeeps(arenas, i, live, marks);
      i := i + 1;
    }

    /** For every size: an aligned block apart from all live ones, the next in the current
        arena if it fits there, otherwise the first in the first later arena that is large
        enough. */
    method Allocate(n: nat) returns (address: nat)
      requires Valid() && 1 <= i
      modifies `arenas, `i, `live
      ensures Valid() && old(i) <= i <= |arenas|
      ensures live == old(live) + [Block(i - 1, address, n)]
      ensures address % ALIGN == 0
      ensures forall k | 0 <= k < |old(live)| :: old(live)[k].Apart(Block(i - 1, address, n))
      ensures old(i) <= |old(arenas)| <= |arenas| && arenas[i - 1].beg == address + n
      ensures forall k | 0 <= k < |old(arenas)| && k != i - 1 :: arenas[k] == old(arenas)[k]
      ensures var a := old(arenas)[old(i) - 1];
        if Fits(a.beg, a.end, n) then i == old(i) && |arenas| == |old(arenas)| && address == a.beg + Padding(a.beg)
        else && old(i) < i && address == arenas[i - 1].base && (|old(arenas)| < |arenas| ==> |arenas| == i)
             && forall k | old(i) <= k < i - 1 :: Capacity(arenas[k]) < n
    {
      hide Filled, MarksOk, Padding;
      Current(arenas, i, live, marks);
      while true
        invariant Valid() && 1 <= i <= |arenas| && old(i) <= i && live == old(live)
        invariant old(arenas) <= arenas && (|old(arenas)| < |arenas| ==> |arenas| == i)
        invariant old(i) < i ==> arenas[i - 1].beg == arenas[i - 1].base
        invariant old(i) < i ==> !Fits(old(arenas)[old(i) - 1].beg, old(arenas)[old(i) - 1].end, n)
        invariant forall k | old(i) <= k < i - 1 :: Capacity(arenas[k]) < n
        decreases |arenas| - i, Lacking(n, arenas), if arenas[i - 1].beg == arenas[i - 1].base then 0 else 1
      {
        var a := arenas[i - 1];
        Current(arenas, i, live, marks);
        RoomForPadding(a.beg, a.end);
        var padding := Padding(a.beg);
        if n > Converted(a.end - a.beg - padding) {
          Expand();
        } else {
          address := Take(n, padding);
          return;
        }
      }
    }

    /** Takes `n` bytes that fit from the current arena. */
    method Take(n: nat, padding: nat) returns (address: nat)
      requires Valid() && 1 <= i <= |arenas| && padding == Padding(arenas[i - 1].beg)
      requires Fits(arenas[i - 1].beg, arenas[i - 1].end, n)
      modifies `arenas, `live
      ensures Valid() && address == old(arenas)[i - 1].beg + padding
      ensures arenas == old(arenas)[i - 1 := old(arenas)[i - 1].(beg := address + n)]
      ensures live == old(live) + [Block(i - 1, address, n)] && address % ALIGN == 0
      ensures forall k | 0 <= k < |old(live)| :: old(live)[k].Apart(Block(i - 1, address, n))
    {
      hide Filled, MarksOk, Padding;
      var a := arenas[i - 1];
      address := a.beg + padding;
      AllocateKeeps(arenas, i, live, marks, n);
      arenas := arenas[i - 1 := a.(beg := a.beg + (padding + n))];
      live := live + [Block(i - 1, address, n)];
      NewestApart(arenas, i, live);
      assert forall k | 0 <= k < |old(live)| :: live[k] == old(live)[k];
    }

    method Save() returns (save: ScratchSave)
      requires Valid() && 1 <= i
      modifies `marks
      ensures Valid() && save == ScratchSave(i, arenas[i - 1].beg)
      ensures marks == old(marks) + [Mark(save, |live|)]
    {
      SaveKeeps(arenas, i, live, marks);
      save := ScratchSave(i, arenas[i - 1].beg);
      marks := marks + [Mark(save, |live|)];
    }

    /** Back to a position `m` that separates blocks: those before it are live again, the
        index and bump pointer are those saved, and the arenas above are empty. */
    method Unwind(save: ScratchSave, ghost m: Mark, ghost kept: nat)
      requires Valid() && m.save == save && Holds(arenas, i, live, m)
      requires kept <= |marks| && forall k | 0 <= k < kept :: Earlier(marks[k], m)
      modifies this
      ensures Valid() && live == old(live)[..m.count] && marks == old(marks)[..kept]
      ensures i == save.i && arenas == Unwound(old(arenas), old(i), save)
    {
      RestoreKeeps(arenas, i, live, marks, m, kept);
      while i > save.i
        invariant save.i <= i <= old(i) && live == old(live) && marks == old(marks)
        invariant |arenas| == |old(arenas)|
        invariant forall k | 0 <= k < |arenas| ::
          arenas[k] == (if i <= k < old(i) then old(arenas)[k].(beg := old(arenas)[k].base) else old(arenas)[k])
      {
        arenas := arenas[i - 1 := arenas[i - 1].(beg := arenas[i - 1].base)];
        i := i - 1;
      }
      arenas := arenas[i - 1 := arenas[i - 1].(beg := save.beg)];
      assert arenas == Unwound(old(arenas), old(i), save);
      live, marks := live[..m.count], marks[..kept];
    }

    /** Any saved position separates the blocks of its time from the later ones. */
    lemma Outstanding(d: nat)
      requires Valid() && d < |marks|
      ensures Holds(arenas, i, live, marks[d]) && forall k | 0 <= k < d :: Earlier(marks[k], marks[d])
    {
    }

    /** Restores the save made at depth `d`, the innermost or one further out: exactly the
        blocks live at that time are live again, and the saves around it stay. */
    method Restore(save: ScratchSave, ghost d: nat)
      requires Valid() && d < |marks| && marks[d].save == save
      modifies this
      ensures Valid() && live == old(live)[..old(marks)[d].count] && marks == old(marks)[..d]
      ensures i == save.i && arenas == Unwound(old(arenas), old(i), save)
    {
      Outstanding(d);
      Unwind(save, marks[d], d);
    }

    method Reset()
      requires Valid() && 1 <= i
      modifies this
      ensures Valid() && i == 1 && live == [] && marks == []
      ensures |arenas| == |old(arenas)| && forall k | 0 <= k < |arenas| :: arenas[k] == old(arenas)[k].(beg := old(arenas)[k].base)
    {
      BottomHolds(arenas, i, live);
      ghost var m := Mark(ScratchSave(1, arenas[0].base), 0);
      Unwind(ScratchSave(1, arenas[0].base), m, 0);
    }
  }

  function Capacity(a: Arena): int { a.end - a.base }

  /** How much the last arena is too small for `n` bytes. */
  ghost function Lacking(n: nat, arenas: seq<Arena>): nat {
    if arenas == [] || n <= Capacity(arenas[|arenas| - 1]) then 0 else n - Capacity(arenas[|arenas| - 1])
  }
}
