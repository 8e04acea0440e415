/** Bump allocation inside one region, shared by the scratch stack and the arenas:
    padding to pointer alignment and the test whether a request fits. */
module Bump {
  const ALIGN: nat := 8

  /** What is missing to the next multiple of the pointer alignment. */
  function Padding(address: nat): (p: nat)
    ensures p < ALIGN && (address + p) % ALIGN == 0
  {
    (ALIGN - address % ALIGN) % ALIGN
  }

  /** A signed 64-bit difference in an unsigned comparison. */
  function Converted(d: int): int {
    if d < 0 then d + 0x1_0000_0000_0000_0000 else d
  }

  /** The test made before allocating `n` bytes between `beg` and `end`. */
  predicate Admits(beg: nat, end: nat, n: nat) {
    !(n > Converted(end - beg - Padding(beg)))
  }

  predicate Fits(beg: nat, end: nat, n: nat) {
    beg + Padding(beg) + n <= end
  }

  /** The test is right for every position and size exactly in regions with an aligned
      end: in the others it admits almost any size once the last partial word is reached. */
  lemma TestExact(end: nat)
    requires ALIGN <= end
    ensures end % ALIGN == 0 <==> forall beg: nat, n: nat | beg <= end :: Admits(beg, end, n) <==> Fits(beg, end, n)
  {
    if end % ALIGN == 0 {
      forall beg: nat, n: nat | beg <= end ensures Admits(beg, end, n) <==> Fits(beg, end, n) {
        RoomForPadding(beg, end);
      }
    } else {
      assert Admits(end, end, 1) && !Fits(end, end, 1);
    }
  }

  /** Padding never leads past an aligned end. */
  lemma RoomForPadding(beg: nat, end: nat)
    requires beg <= end && end % ALIGN == 0
    ensures beg + Padding(beg) <= end
  {
  }

  /** An allocated stretch of memory. */
  datatype Block = Block(region: nat, address: nat, size: nat) {
    predicate Apart(other: Block) {
      address + size <= other.address || other.address + other.size <= address
    }
  }

  // ---- regions and the blocks in them ----

  /** Memory from `base` to `end`, used up to `beg`. */
  datatype Region = Region(base: nat, beg: nat, end: nat)

  predicate RegionOk(r: Region) {
    && 0 < r.base <= r.beg <= r.end && r.base < r.end
    && r.base % ALIGN == 0 && r.end % ALIGN == 0
  }

  /** Twice the capacity of a region is a capacity. */
  lemma CapacityAligned(r: Region)
    requires RegionOk(r)
    ensures 0 < 2 * (r.end - r.base) && 2 * (r.end - r.base) % ALIGN == 0
  {
  }

  predicate RegionsApart(a: Region, b: Region) { a.end <= b.base || b.end <= a.base }

  /** Of the regions the first `i` are in use. */
  ghost predicate RegionsOk(rs: seq<Region>, i: nat) {
    && i <= |rs|
    && (forall k | 0 <= k < |rs| :: RegionOk(rs[k]))
    && (forall j, k | 0 <= j < k < |rs| :: RegionsApart(rs[j], rs[k]))
    && (forall k | i <= k < |rs| :: rs[k].beg == rs[k].base)
  }

  /** The block lies in the used part of a region in use. */
  predicate BlockOk(rs: seq<Region>, i: nat, b: Block) {
    && b.region < i <= |rs|
    && b.address % ALIGN == 0
    && rs[b.region].base <= b.address && b.address + b.size <= rs[b.region].beg
  }

  /** Blocks are handed out region by region and upwards in each. */
  predicate Below(a: Block, b: Block) {
    a.region < b.region || (a.region == b.region && a.address + a.size <= b.address)
  }

  ghost predicate BlocksOk(rs: seq<Region>, i: nat, live: seq<Block>) {
    && (forall k | 0 <= k < |live| :: BlockOk(rs, i, live[k]))
    && (forall j, k | 0 <= j < k < |live| :: Below(live[j], live[k]))
  }

  ghost predicate Filled(rs: seq<Region>, i: nat, live: seq<Block>) {
    RegionsOk(rs, i) && BlocksOk(rs, i, live)
  }

  /** Live blocks never overlap. */
  lemma LiveApart(rs: seq<Region>, i: nat, live: seq<Block>, j: nat, k: nat)
    requires Filled(rs, i, live) && j < k < |live|
    ensures live[j].Apart(live[k])
  {
    var a, b := live[j], live[k];
    assert BlockOk(rs, i, a) && BlockOk(rs, i, b) && Below(a, b);
    assert RegionOk(rs[a.region]) && RegionOk(rs[b.region]);
    if a.region < b.region {
      assert RegionsApart(rs[a.region], rs[b.region]);
    }
  }

  lemma NewestApart(rs: seq<Region>, i: nat, live: seq<Block>)
    requires Filled(rs, i, live) && live != []
    ensures forall k | 0 <= k < |live| - 1 :: live[k].Apart(live[|live| - 1])
  {
    forall k | 0 <= k < |live| - 1 ensures live[k].Apart(live[|live| - 1]) {
      LiveApart(rs, i, live, k, |live| - 1);
    }
  }

  lemma AppendRegion(rs: seq<Region>, live: seq<Block>, r: Region)
    requires Filled(rs, |rs|, live)
    requires RegionOk(r) && r.beg == r.base && forall k | 0 <= k < |rs| :: RegionsApart(rs[k], r)
    ensures Filled(rs + [r], |rs|, live)
  {
    forall k | 0 <= k < |live| ensures BlockOk(rs + [r], |rs|, live[k]) {
      assert BlockOk(rs, |rs|, live[k]);
    }
  }

  lemma UseNext(rs: seq<Region>, i: nat, live: seq<Block>)
    requires Filled(rs, i, live) && i < |rs|
    ensures Filled(rs, i + 1, live)
  {
    forall k | 0 <= k < |live| ensures BlockOk(rs, i + 1, live[k]) {
      assert BlockOk(rs, i, live[k]);
    }
  }

  /** The regions after `n` bytes have been taken from the last one in use. */
  function Bumped(rs: seq<Region>, i: nat, n: nat): seq<Region>
    requires 1 <= i <= |rs|
  {
    rs[i - 1 := rs[i - 1].(beg := rs[i - 1].beg + Padding(rs[i - 1].beg) + n)]
  }

  function NewBlock(rs: seq<Region>, i: nat, n: nat): Block
    requires 1 <= i <= |rs|
  {
    Block(i - 1, rs[i - 1].beg + Padding(rs[i - 1].beg), n)
  }

  /** A request that fits adds a block above all others. */
  lemma Place(rs: seq<Region>, i: nat, live: seq<Block>, n: nat)
    requires Filled(rs, i, live) && 1 <= i && Fits(rs[i - 1].beg, rs[i - 1].end, n)
    ensures Filled(Bumped(rs, i, n), i, live + [NewBlock(rs, i, n)])
  {
    var now, b := Bumped(rs, i, n), NewBlock(rs, i, n);
    assert RegionOk(rs[i - 1]);
    hide Padding;
    assert RegionsOk(now, i);
    forall k | 0 <= k < |live| ensures BlockOk(now, i, live[k]) && Below(live[k], b) {
      assert BlockOk(rs, i, live[k]);
    }
    assert BlockOk(now, i, b);
  }

  /** Dropping the later blocks of regions that are given up. */
  lemma Shrink(rs: seq<Region>, i: nat, live: seq<Block>, m: nat, count: nat)
    requires Filled(rs, i, live) && m <= i && count <= |live|
    requires forall k | 0 <= k < count :: live[k].region < m
    ensures Filled(rs[..m], m, live[..count])
  {
    forall k | 0 <= k < count ensures BlockOk(rs[..m], m, live[k]) {
      assert BlockOk(rs, i, live[k]);
    }
  }
}
