/** String interning: 256 buckets of entries and an index from ids to packed positions.
    The hash is any function; pointers to entries are bucket-and-position pairs. */
module Intern {
  import opened Options

  const BUCKETS: nat := 256

  /** What the `data` pointer of an entry holds: the set itself until the entry is
      committed, then whatever the caller attached. */
  datatype Data = Owner | Attached(value: nat)

  datatype Entry = Entry(id: int, name: string, hash: nat, data: Data)

  /** The first `count` items are committed; one more may have been written after them. */
  datatype Bucket = Bucket(items: seq<Entry>, count: nat)

  datatype Slot = Slot(bucket: nat, position: nat)

  // ---- packed keys ----

  /** Position and bucket in 32 bits. */
  function Pack(position: nat, bucket: nat): (key: nat)
    requires bucket < BUCKETS
    ensures key < 0x1_0000_0000
  {
    (position * 256 + bucket) % 0x1_0000_0000
  }

  function Unpack(key: nat): (s: Slot)
    ensures s.bucket < BUCKETS
  {
    Slot(key % 256, key / 256)
  }

  /** A key leads back to its slot exactly for the first 2^24 positions of a bucket. */
  lemma PackExact(position: nat, bucket: nat)
    requires bucket < BUCKETS
    ensures Unpack(Pack(position, bucket)) == Slot(bucket, position) <==> position < 0x100_0000
  {
  }

  // ---- the abstract view: names in the order of their ids ----

  ghost predicate Distinct(names: seq<string>) {
    forall i, j | 0 <= i < j < |names| :: names[i] != names[j]
  }

  function Assign(names: seq<string>, name: string): seq<string> {
    if name in names then names else names + [name]
  }

  function Run(names: seq<string>, requests: seq<string>): (all: seq<string>)
    ensures names <= all
    decreases |requests|
  {
    if requests == [] then names else Run(Assign(names, requests[0]), requests[1..])
  }

  /** The ids handed out over a run. */
  ghost predicate IsId(names: seq<string>, name: string, id: int) {
    0 <= id < |names| && names[id] == name
  }

  /** Over every run of requests: no name gets two ids and no id two names, ids once given
      stay, every name asked for has one, and no id is given to anything else. */
  lemma {:induction false} RunIsBijection(names: seq<string>, requests: seq<string>)
    requires Distinct(names)
    ensures var all := Run(names, requests);
      && Distinct(all)
      && names <= all
      && (forall s | s in requests :: s in all)
      && (forall id | |names| <= id < |all| :: all[id] in requests)
    decreases |requests|
  {
    if requests != [] {
      var next, all := Assign(names, requests[0]), Run(names, requests);
      RunIsBijection(next, requests[1..]);
      assert next[|next| - 1] in next && requests[0] in next;
      forall id | |names| <= id < |all| ensures all[id] in requests {
        if id < |next| {
          assert all[id] == next[id] == requests[0];
        }
      }
    }
  }

  lemma {:induction false} RunConcat(names: seq<string>, first: seq<string>, then_: seq<string>)
    ensures Run(names, first + then_) == Run(Run(names, first), then_)
    decreases |first|
  {
    if first == [] {
      assert first + then_ == then_;
    } else {
      assert (first + then_)[1..] == first[1..] + then_;
      RunConcat(Assign(names, first[0]), first[1..], then_);
    }
  }

  /** How many of the names belong in a bucket. */
  ghost function InBucket(hash: string -> nat, names: seq<string>, b: nat): nat {
    if names == [] then 0
    else InBucket(hash, names[..|names| - 1], b) + if hash(names[|names| - 1]) % 256 == b then 1 else 0
  }

  lemma {:induction false} InBucketMonotone(hash: string -> nat, names: seq<string>, all: seq<string>, b: nat)
    requires names <= all
    ensures InBucket(hash, names, b) <= InBucket(hash, all, b)
    decreases |all|
  {
    if names != all {
      InBucketMonotone(hash, names, all[..|all| - 1], b);
    }
  }

  /** The next request of a run: the names it adds go into one bucket, and the rest of the
      run keeps them. */
  ghost predicate Follows(hash: string -> nat, names: seq<string>, requests: seq<string>, i: nat, b: nat)
    requires i < |requests|
  {
    var before, now, all := Run(names, requests[..i]), Run(names, requests[..i + 1]), Run(names, requests);
    && now == Assign(before, requests[i])
    && InBucket(hash, now[|names|..], b) == InBucket(hash, before[|names|..], b)
       + (if requests[i] !in before && b == hash(requests[i]) % 256 then 1 else 0)
    && InBucket(hash, now[|names|..], b) <= InBucket(hash, all[|names|..], b)
  }

  lemma NextRequest(hash: string -> nat, names: seq<string>, requests: seq<string>, i: nat, b: nat)
    requires i < |requests|
    ensures Follows(hash, names, requests, i, b)
  {
    var before, now, all := Run(names, requests[..i]), Run(names, requests[..i + 1]), Run(names, requests);
    RunPrefix(names, requests, i);
    hide Run;
    NewInBucket(hash, names, before, requests[i], b);
    InBucketMonotone(hash, now[|names|..], all[|names|..], b);
  }

  lemma RunPrefix(names: seq<string>, requests: seq<string>, i: nat)
    requires i < |requests|
    ensures Run(names, requests[..i + 1]) == Assign(Run(names, requests[..i]), requests[i])
    ensures Run(names, requests[..i + 1]) <= Run(names, requests)
  {
    hide Run, Assign;
    assert requests[..i + 1] == requests[..i] + [requests[i]];
    RunConcat(names, requests[..i], [requests[i]]);
    OneRequest(Run(names, requests[..i]), requests[i]);
    assert requests == requests[..i + 1] + requests[i + 1..];
    RunConcat(names, requests[..i + 1], requests[i + 1..]);
  }

  lemma NewInBucket(hash: string -> nat, names: seq<string>, before: seq<string>, name: string, b: nat)
    requires names <= before
    ensures names <= Assign(before, name)
    ensures InBucket(hash, Assign(before, name)[|names|..], b)
      == InBucket(hash, before[|names|..], b) + (if name !in before && b == hash(name) % 256 then 1 else 0)
  {
    if name !in before {
      var new_ := Assign(before, name)[|names|..];
      assert new_[..|new_| - 1] == before[|names|..];
    }
  }

  /** Every bucket has grown by the new names that belong in it. */
  ghost predicate Filled(hash: string -> nat, names: seq<string>, requests: seq<string>, was: seq<Bucket>, now: seq<Bucket>) {
    && |was| == |now| == BUCKETS
    && forall b | 0 <= b < BUCKETS :: now[b].count == was[b].count + InBucket(hash, Run(names, requests)[|names|..], b)
  }

  lemma FilledFirst(hash: string -> nat, names: seq<string>, requests: seq<string>, was: seq<Bucket>)
    requires |was| == BUCKETS
    ensures Filled(hash, names, requests[..0], was, was) && Run(names, requests[..0]) == names
  {
  }

  lemma HasRoom(hash: string -> nat, names: seq<string>, requests: seq<string>, i: nat, was: seq<Bucket>, now: seq<Bucket>)
    requires i < |requests| && Filled(hash, names, requests[..i], was, now)
    requires forall b | 0 <= b < |was| :: was[b].count + InBucket(hash, Run(names, requests)[|names|..], b) <= 0x100_0000
    ensures |now| == BUCKETS
    ensures requests[i] in Run(names, requests[..i]) || now[hash(requests[i]) % 256].count < 0x100_0000
  {
    hide Run, InBucket;
    NextRequest(hash, names, requests, i, hash(requests[i]) % 256);
  }

  lemma FilledNext(hash: string -> nat, names: seq<string>, requests: seq<string>, i: nat, was: seq<Bucket>, now: seq<Bucket>, next: seq<Bucket>)
    requires i < |requests| && Filled(hash, names, requests[..i], was, now) && |next| == BUCKETS
    requires forall b | 0 <= b < BUCKETS ::
      next[b].count == now[b].count + if requests[i] !in Run(names, requests[..i]) && b == hash(requests[i]) % 256 then 1 else 0
    ensures Filled(hash, names, requests[..i + 1], was, next)
  {
    hide Run, InBucket;
    forall b | 0 <= b < BUCKETS
      ensures next[b].count == was[b].count + InBucket(hash, Run(names, requests[..i + 1])[|names|..], b)
    {
      NextRequest(hash, names, requests, i, b);
    }
  }

  lemma OneRequest(names: seq<string>, name: string)
    ensures Run(names, [name]) == Assign(names, name)
  {
    assert [name][1..] == [];
  }

  lemma AssignKeeps(names: seq<string>, name: string)
    ensures forall s, id | IsId(names, s, id) :: IsId(Assign(names, name), s, id)
  {
  }

  // ---- the representation ----

  /** The slot is committed. */
  predicate Committed(buckets: seq<Bucket>, s: Slot) {
    s.bucket < |buckets| && s.position < buckets[s.bucket].count <= |buckets[s.bucket].items|
  }

  function At(buckets: seq<Bucket>, s: Slot): Entry
    requires s.bucket < |buckets| && s.position < |buckets[s.bucket].items|
  {
    buckets[s.bucket].items[s.position]
  }

  /** Every id leads to a committed entry that has this id. */
  ghost predicate Indexed(buckets: seq<Bucket>, index: seq<nat>) {
    forall id | 0 <= id < |index| :: Committed(buckets, Unpack(index[id])) && At(buckets, Unpack(index[id])).id == id
  }

  /** Every committed entry is in the bucket of its hash and is the one its id leads to. */
  ghost predicate Placed(hash: string -> nat, buckets: seq<Bucket>, index: seq<nat>) {
    forall b, k | 0 <= b < |buckets| && 0 <= k < buckets[b].count && buckets[b].count <= |buckets[b].items| ::
      var e := buckets[b].items[k];
      e.hash == hash(e.name) && b == e.hash % 256 && 0 <= e.id < |index| && Unpack(index[e.id]) == Slot(b, k)
  }

  ghost predicate NamesDiffer(b: Bucket) {
    && b.count <= |b.items| <= b.count + 1
    && forall j, k | 0 <= j < k < b.count :: b.items[j].name != b.items[k].name
  }

  /** An uncommitted entry waits for `Put`: its id names its bucket, its data the set. */
  ghost predicate Waiting(hash: string -> nat, b: Bucket, bucket: nat) {
    |b.items| == b.count + 1 ==>
      var e := b.items[b.count];
      && e.id == -(bucket + 1) && e.hash == hash(e.name) && bucket == e.hash % 256 && e.data == Owner
      && forall k | 0 <= k < b.count :: b.items[k].name != e.name
  }

  ghost predicate Consistent(hash: string -> nat, buckets: seq<Bucket>, index: seq<nat>) {
    && |buckets| == BUCKETS
    && (forall b | 0 <= b < BUCKETS :: NamesDiffer(buckets[b]) && Waiting(hash, buckets[b], b))
    && Indexed(buckets, index)
    && Placed(hash, buckets, index)
  }

  /** The entries in the order of their ids. */
  ghost function Entries(buckets: seq<Bucket>, index: seq<nat>): (es: seq<Entry>)
    requires Indexed(buckets, index)
    ensures |es| == |index|
  {
    seq(|index|, id requires 0 <= id < |index| => At(buckets, Unpack(index[id])))
  }

  ghost function NamesOf(es: seq<Entry>): (names: seq<string>)
    ensures |names| == |es|
  {
    seq(|es|, i requires 0 <= i < |es| => es[i].name)
  }

  /** A name has an id exactly when the bucket of its hash holds it. */
  lemma Present(hash: string -> nat, buckets: seq<Bucket>, index: seq<nat>, name: string, id: int)
    requires Consistent(hash, buckets, index)
    requires IsId(NamesOf(Entries(buckets, index)), name, id)
    ensures var s := Unpack(index[id]);
      s.bucket == hash(name) % 256 && Committed(buckets, s) && At(buckets, s).name == name && At(buckets, s).id == id
  {
    var s := Unpack(index[id]);
    assert Committed(buckets, s);
    assert At(buckets, s) == buckets[s.bucket].items[s.position];
  }

  lemma EntriesDistinct(hash: string -> nat, buckets: seq<Bucket>, index: seq<nat>)
    requires Consistent(hash, buckets, index)
    ensures Distinct(NamesOf(Entries(buckets, index)))
  {
    var names := NamesOf(Entries(buckets, index));
    forall i, j | 0 <= i < j < |names| ensures names[i] != names[j] {
      Present(hash, buckets, index, names[i], i);
      Present(hash, buckets, index, names[j], j);
      assert NamesDiffer(buckets[Unpack(index[i]).bucket]);
    }
  }

  /** Writing after the committed entries of a bucket shows nowhere. */
  lemma WriteKeeps(hash: string -> nat, buckets: seq<Bucket>, index: seq<nat>, b: nat, e: Entry)
    requires Consistent(hash, buckets, index) && b < BUCKETS
    requires e.id == -(b + 1) && e.hash == hash(e.name) && b == e.hash % 256 && e.data == Owner
    requires forall k | 0 <= k < buckets[b].count :: buckets[b].items[k].name != e.name
    ensures var now := buckets[b := Bucket(buckets[b].items[..buckets[b].count] + [e], buckets[b].count)];
      Consistent(hash, now, index) && Entries(now, index) == Entries(buckets, index)
  {
    var was := buckets[b];
    assert NamesDiffer(was);
    var new_ := Bucket(was.items[..was.count] + [e], was.count);
    var now := buckets[b := new_];
    assert NamesDiffer(new_) && Waiting(hash, new_, b);
    WriteIndexed(buckets, index, b, e);
    WritePlaced(hash, buckets, index, b, e);
    hide Indexed, Placed, NamesDiffer, Waiting;
  }

  lemma WriteIndexed(buckets: seq<Bucket>, index: seq<nat>, b: nat, e: Entry)
    requires Indexed(buckets, index) && b < |buckets| && buckets[b].count <= |buckets[b].items|
    ensures var now := buckets[b := Bucket(buckets[b].items[..buckets[b].count] + [e], buckets[b].count)];
      Indexed(now, index) && Entries(now, index) == Entries(buckets, index)
  {
    var now := buckets[b := Bucket(buckets[b].items[..buckets[b].count] + [e], buckets[b].count)];
    forall id | 0 <= id < |index|
      ensures Committed(now, Unpack(index[id])) && At(now, Unpack(index[id])) == At(buckets, Unpack(index[id]))
    {
      assert Committed(buckets, Unpack(index[id]));
    }
  }

  lemma WritePlaced(hash: string -> nat, buckets: seq<Bucket>, index: seq<nat>, b: nat, e: Entry)
    requires Placed(hash, buckets, index) && b < |buckets| && buckets[b].count <= |buckets[b].items|
    ensures Placed(hash, buckets[b := Bucket(buckets[b].items[..buckets[b].count] + [e], buckets[b].count)], index)
  {
    var now := buckets[b := Bucket(buckets[b].items[..buckets[b].count] + [e], buckets[b].count)];
    forall c, k | 0 <= c < |now| && 0 <= k < now[c].count && now[c].count <= |now[c].items|
      ensures var x := now[c].items[k];
        (x.hash == hash(x.name) && c == x.hash % 256 && 0 <= x.id < |index| && Unpack(index[x.id]) == Slot(c, k))
    {
      assert now[c].items[k] == buckets[c].items[k];
    }
  }

  /** The bucket after its waiting entry has become `e`. */
  function Commit(w: Bucket, e: Entry): Bucket
    requires w.count < |w.items|
  {
    Bucket(w.items[w.count := e], w.count + 1)
  }

  /** `e` is the waiting entry of bucket `b` with the next id. */
  ghost predicate Completes(buckets: seq<Bucket>, index: seq<nat>, b: nat, e: Entry) {
    && b < |buckets|
    && |buckets[b].items| == buckets[b].count + 1 && buckets[b].count < 0x100_0000
    && e == buckets[b].items[buckets[b].count].(id := |index|, data := e.data)
  }

  /** Committing the waiting entry of a bucket adds one id. */
  lemma CommitAdds(hash: string -> nat, buckets: seq<Bucket>, index: seq<nat>, b: nat, e: Entry)
    requires Consistent(hash, buckets, index) && Completes(buckets, index, b, e)
    ensures var now, keys := buckets[b := Commit(buckets[b], e)], index + [Pack(buckets[b].count, b)];
      (Consistent(hash, now, keys) && Entries(now, keys) == Entries(buckets, index) + [e])
  {
    var now, keys := buckets[b := Commit(buckets[b], e)], index + [Pack(buckets[b].count, b)];
    CommitIndexed(hash, buckets, index, b, e);
    CommitPlaced(hash, buckets, index, b, e);
    assert NamesDiffer(buckets[b]) && Waiting(hash, buckets[b], b);
    CommitBucket(hash, buckets[b], b, e);
    hide Indexed, Placed, NamesDiffer, Waiting, Completes, Commit, Pack;
    forall c | 0 <= c < BUCKETS ensures NamesDiffer(now[c]) && Waiting(hash, now[c], c) {
    }
  }

  lemma CommitBucket(hash: string -> nat, w: Bucket, b: nat, e: Entry)
    requires NamesDiffer(w) && Waiting(hash, w, b) && |w.items| == w.count + 1 && e.name == w.items[w.count].name
    ensures NamesDiffer(Commit(w, e)) && Waiting(hash, Commit(w, e), b)
  {
  }

  lemma CommitIndexed(hash: string -> nat, buckets: seq<Bucket>, index: seq<nat>, b: nat, e: Entry)
    requires Consistent(hash, buckets, index) && Completes(buckets, index, b, e)
    ensures var now, keys := buckets[b := Commit(buckets[b], e)], index + [Pack(buckets[b].count, b)];
      (Indexed(now, keys) && Entries(now, keys) == Entries(buckets, index) + [e])
  {
    var now, keys := buckets[b := Commit(buckets[b], e)], index + [Pack(buckets[b].count, b)];
    PackExact(buckets[b].count, b);
    hide Placed, NamesDiffer, Waiting, Pack, Unpack;
    forall id | 0 <= id < |keys|
      ensures Committed(now, Unpack(keys[id]))
      ensures At(now, Unpack(keys[id])) == if id < |index| then At(buckets, Unpack(index[id])) else e
    {
      if id < |index| {
        assert keys[id] == index[id];
        assert Committed(buckets, Unpack(index[id]));
      }
    }
  }

  lemma CommitPlaced(hash: string -> nat, buckets: seq<Bucket>, index: seq<nat>, b: nat, e: Entry)
    requires Consistent(hash, buckets, index) && Completes(buckets, index, b, e)
    ensures Placed(hash, buckets[b := Commit(buckets[b], e)], index + [Pack(buckets[b].count, b)])
  {
    var now, keys := buckets[b := Commit(buckets[b], e)], index + [Pack(buckets[b].count, b)];
    PackExact(buckets[b].count, b);
    assert Waiting(hash, buckets[b], b);
    assert keys[|index|] == Pack(buckets[b].count, b);
    hide Indexed, NamesDiffer, Waiting, Pack, Unpack;
    forall c, k | 0 <= c < |now| && 0 <= k < now[c].count && now[c].count <= |now[c].items|
      ensures var x := now[c].items[k];
        (x.hash == hash(x.name) && c == x.hash % 256 && 0 <= x.id < |keys| && Unpack(keys[x.id]) == Slot(c, k))
    {
      if c != b || k < buckets[b].count {
        var x := buckets[c].items[k];
        assert now[c].items[k] == x;
        assert Unpack(index[x.id]) == Slot(c, k);
      }
    }
  }

  /** A committed entry whose key does not lead back to it breaks the set. */
  lemma Misplaced(hash: string -> nat, buckets: seq<Bucket>, index: seq<nat>, s: Slot)
    requires Committed(buckets, s) && 0 <= At(buckets, s).id < |index| && Unpack(index[At(buckets, s).id]) != s
    ensures !Consistent(hash, buckets, index)
  {
    assert At(buckets, s) == buckets[s.bucket].items[s.position];
  }

  // ---- the operations ----

  /** The first committed entry with this hash and name. */
  method Find(bucket: Bucket, name: string, hash: nat) returns (found: Option<nat>)
    requires bucket.count <= |bucket.items|
    ensures found.Some? ==> found.value < bucket.count && bucket.items[found.value].hash == hash && bucket.items[found.value].name == name
    ensures forall k | 0 <= k < (if found.Some? then found.value else bucket.count) ::
      bucket.items[k].hash != hash || bucket.items[k].name != name
  {
    for i := 0 to bucket.count
      invariant forall k | 0 <= k < i :: bucket.items[k].hash != hash || bucket.items[k].name != name
    {
      if bucket.items[i].hash != hash {
        continue;
      }
      if bucket.items[i].name == name {
        return Some(i);
      }
    }
    return None;
  }

  class InternSet {
    const hash: string -> nat
    var buckets: seq<Bucket>
    var index: seq<nat>

    ghost predicate Valid()
      reads this
    {
      Consistent(hash, buckets, index)
    }

    ghost function Contents(): seq<Entry>
      requires Valid()
      reads this
    {
      Entries(buckets, index)
    }

    ghost function Names(): seq<string>
      requires Valid()
      reads this
    {
      NamesOf(Contents())
    }

    constructor (hash: string -> nat)
      ensures Valid() && Contents() == [] && this.hash == hash
    {
      this.hash := hash;
      buckets := seq(BUCKETS, i => Bucket([], 0));
      index := [];
    }

    /** The entry of a known name; otherwise an uncommitted entry in the bucket's next
        place, which no id, name or later lookup can see. */
    method Get(name: string) returns (slot: Slot)
      requires Valid()
      modifies `buckets
      ensures Valid() && |buckets| == BUCKETS && Contents() == old(Contents())
      ensures slot.bucket == hash(name) % 256 && slot.position < |buckets[slot.bucket].items|
      ensures At(buckets, slot).name == name && forall b | 0 <= b < BUCKETS :: buckets[b].count == old(buckets)[b].count
      ensures if name in old(Names())
        then buckets == old(buckets) && Committed(buckets, slot) && IsId(Names(), name, At(buckets, slot).id)
        else slot.position == buckets[slot.bucket].count && At(buckets, slot).id < 0
    {
      var h := hash(name);
      var b := h % 256;
      assert NamesDiffer(buckets[b]);
      var found := Find(buckets[b], name, h);
      if found.Some? {
        KnownName(Slot(b, found.value), name);
        return Slot(b, found.value);
      }
      UnknownName(name);
      var count := buckets[b].count;
      ghost var was := buckets;
      var e := Entry(-(b + 1), name, h, Owner);
      WriteKeeps(hash, buckets, index, b, e);
      buckets := buckets[b := Bucket(buckets[b].items[..count] + [e], count)];
      return Slot(b, count);
    }

    lemma KnownName(s: Slot, name: string)
      requires Valid() && Committed(buckets, s) && At(buckets, s).name == name
      ensures IsId(Names(), name, At(buckets, s).id) && name in Names()
    {
      var e := buckets[s.bucket].items[s.position];
      assert Unpack(index[e.id]) == s;
      assert Names()[e.id] == name;
    }

    lemma UnknownName(name: string)
      requires Valid()
      requires forall k | 0 <= k < buckets[hash(name) % 256].count ::
        buckets[hash(name) % 256].items[k].hash != hash(name) || buckets[hash(name) % 256].items[k].name != name
      ensures name !in Names()
      ensures forall k | 0 <= k < buckets[hash(name) % 256].count :: buckets[hash(name) % 256].items[k].name != name
    {
      var b := hash(name) % 256;
      assert NamesDiffer(buckets[b]);
      forall id | 0 <= id < |Names()| ensures Names()[id] != name {
        Present(hash, buckets, index, Names()[id], id);
      }
      forall k | 0 <= k < buckets[b].count ensures buckets[b].items[k].name != name {
        assert buckets[b].items[k].hash == hash(buckets[b].items[k].name);
      }
    }

    /** Commits the uncommitted entry `e`: it gets the next id, and nothing else changes. The
        set stays valid exactly while the bucket's positions fit in a key. */
    method Put(e: Slot, data: Data) returns (slot: Slot)
      requires Valid()
      requires e.bucket < BUCKETS && e.position == buckets[e.bucket].count < |buckets[e.bucket].items|
      modifies this
      ensures slot == e && |buckets| == BUCKETS && Committed(buckets, slot)
      ensures forall b | 0 <= b < BUCKETS :: buckets[b].count == old(buckets)[b].count + if b == e.bucket then 1 else 0
      ensures At(buckets, slot) == old(At(buckets, e)).(id := old(|index|), data := data)
      ensures Valid() <==> e.position < 0x100_0000
      ensures e.position < 0x100_0000 ==> Contents() == old(Contents()) + [At(buckets, slot)]
      ensures |index| == |old(index)| + 1 && (Unpack(index[|old(index)|]) == slot <==> e.position < 0x100_0000)
    {
      assert NamesDiffer(buckets[e.bucket]) && Waiting(hash, buckets[e.bucket], e.bucket);
      var entry := At(buckets, e);
      var b := -entry.id - 1;
      var count := buckets[b].count;
      entry := entry.(data := data);
      entry := entry.(id := |index|);
      if count < 0x100_0000 {
        CommitAdds(hash, buckets, index, b, entry);
      }
      ghost var now := buckets[b := Commit(buckets[b], entry)];
      buckets := buckets[b := Bucket(buckets[b].items[count := entry], count)];
      index := index + [Pack(count, b)];
      buckets := buckets[b := Bucket(buckets[b].items, count + 1)];
      assert buckets == now;
      PackExact(count, b);
      if count >= 0x100_0000 {
        Misplaced(hash, buckets, index, e);
      }
      return e;
    }

    /** The id of a name: the one it has, or the next. Only a new name in a bucket whose
        positions no longer fit in a key breaks the set. */
    method Intern(name: string) returns (slot: Slot)
      requires Valid()
      modifies this
      ensures |buckets| == BUCKETS && forall b | 0 <= b < BUCKETS ::
        buckets[b].count == old(buckets)[b].count + if name !in old(Names()) && b == hash(name) % 256 then 1 else 0
      ensures Valid() <==> name in old(Names()) || old(buckets[hash(name) % 256].count) < 0x100_0000
      ensures Valid() ==> Committed(buckets, slot) && IsId(Names(), name, At(buckets, slot).id)
      ensures Valid() ==> Names() == Assign(old(Names()), name) && old(Contents()) <= Contents()
    {
      hide Consistent, Entries, Waiting, NamesDiffer;
      slot := Get(name);
      ghost var before := Contents();
      if At(buckets, slot).id < 0 {
        slot := Put(slot, Attached(0));
        if Valid() {
          assert Names() == NamesOf(before) + [name];
        }
      }
    }

    /** A run of requests whose new names fit in their buckets: the names are those of the
        run, every request gets an id, and two requests get the same id exactly if they ask
        for the same name. */
    method InternAll(requests: seq<string>) returns (ids: seq<int>)
      requires Valid()
      requires forall b | 0 <= b < |buckets| ::
        buckets[b].count + InBucket(hash, Run(Names(), requests)[|Names()|..], b) <= 0x100_0000
      modifies this
      ensures Valid() && Names() == Run(old(Names()), requests)
      ensures |ids| == |requests| && forall i | 0 <= i < |ids| :: IsId(Names(), requests[i], ids[i])
      ensures forall i, j | 0 <= i < |ids| && 0 <= j < |ids| :: ids[i] == ids[j] <==> requests[i] == requests[j]
      ensures old(Names()) <= Names() && forall id | |old(Names())| <= id < |Names()| :: Names()[id] in requests
    {
      hide Consistent, Assign, Entries, NamesOf, Filled, Run, Follows;
      EntriesDistinct(hash, buckets, index);
      RunIsBijection(Names(), requests);
      HasBuckets();
      ids := [];
      ghost var names, was := Names(), buckets;
      FilledFirst(hash, names, requests, was);
      for i := 0 to |requests|
        invariant Valid() && |ids| == i
        invariant Names() == Run(names, requests[..i])
        invariant forall j | 0 <= j < i :: IsId(Names(), requests[j], ids[j])
        invariant Filled(hash, names, requests[..i], was, buckets)
      {
        ghost var before := Names();
        ghost var full := buckets;
        HasRoom(hash, names, requests, i, was, buckets);
        var slot := Intern(requests[i]);
        ids := ids + [At(buckets, slot).id];
        RunPrefix(names, requests, i);
        AssignKeeps(before, requests[i]);
        FilledNext(hash, names, requests, i, was, full, buckets);
      }
      assert requests[..|requests|] == requests;
      EntriesDistinct(hash, buckets, index);
    }

    lemma HasBuckets()
      requires Valid()
      ensures |buckets| == BUCKETS
    {
    }

    /** Every id below the number of names leads to the entry that has it. */
    method EntryOf(id: nat) returns (slot: Slot)
      requires Valid() && id < |index|
      ensures Committed(buckets, slot)
      ensures At(buckets, slot) == Contents()[id] && At(buckets, slot).id == id
    {
      var key := index[id];
      slot := Unpack(key);
    }
  }
}
