/**
 The growable arrays and node stacks that share one arena: `GROW_ARRAY` with the `cbm_*_push`
 family, `ts_nstack_init`, `ts_nstack_push` and `ts_nstack_pop`, and `cbm_arena_strndup`.
 Elements are byte strings of a fixed size; growth abandons the old storage inside the arena.
 */
module Growable {
  import opened Prelude
  import opened Arena

  const ARRAY_FIRST_CAP: nat := 32
  const STACK_FIRST_CAP: nat := 512

  /** The header of a growable array or stack. */
  datatype Vec = Vec(elemSize: nat, firstCap: nat, items: Option<Region>, count: nat, cap: nat)

  type Item = seq<Byte>

  function Flatten(items: seq<Item>): seq<Byte> {
    if items == [] then [] else Flatten(items[..|items| - 1]) + items[|items| - 1]
  }

  ghost predicate Sized(items: seq<Item>, size: nat) {
    forall i | 0 <= i < |items| :: |items[i]| == size
  }

  /** `n * size`, by repeated addition; see BytesIsProduct. */
  function Bytes(n: nat, size: nat): nat {
    if n == 0 then 0 else Bytes(n - 1, size) + size
  }

  lemma {:induction false} BytesIsProduct(n: nat, size: nat)
    ensures Bytes(n, size) == n * size
  {
    if n != 0 {
      BytesIsProduct(n - 1, size);
      assert n * size == (n - 1) * size + size;
    }
  }

  lemma {:induction false} BytesGrows(m: nat, n: nat, size: nat)
    requires m <= n
    ensures Bytes(m, size) <= Bytes(n, size)
  {
    if m < n {
      BytesGrows(m, n - 1, size);
    }
  }

  lemma {:induction false} FlattenLength(items: seq<Item>, size: nat)
    requires Sized(items, size)
    ensures |Flatten(items)| == Bytes(|items|, size)
  {
    if items != [] {
      FlattenLength(items[..|items| - 1], size);
    }
  }

  lemma FlattenPush(items: seq<Item>, x: Item)
    ensures Flatten(items + [x]) == Flatten(items) + x
  {
    assert (items + [x])[..|items + [x]| - 1] == items;
  }

  /** The stored bytes determine the elements. */
  lemma {:induction false} FlattenInjective(a: seq<Item>, b: seq<Item>, size: nat)
    requires Sized(a, size) && Sized(b, size) && |a| == |b| && Flatten(a) == Flatten(b)
    ensures a == b
  {
    if a != [] {
      var n := |a| - 1;
      FlattenLength(a[..n], size);
      FlattenLength(b[..n], size);
      var cut := Bytes(n, size);
      assert Flatten(a)[cut..] == a[n] && Flatten(b)[cut..] == b[n];
      assert Flatten(a)[..cut] == Flatten(a[..n]) && Flatten(b)[..cut] == Flatten(b[..n]);
      FlattenInjective(a[..n], b[..n], size);
    }
  }

  /** What a capacity can be: never grown, or the first capacity doubled some number of times. */
  ghost predicate Doubled(first: nat, cap: nat) {
    exists k: nat :: cap == first * Pow2(k)
  }

  function Pow2(k: nat): nat {
    if k == 0 then 1 else 2 * Pow2(k - 1)
  }

  /** A capacity is zero or the first capacity doubled some number of times. */
  ghost predicate CapOk(v: Vec) {
    v.elemSize > 0 && v.firstCap > 0 && (v.cap == 0 || Doubled(v.firstCap, v.cap))
  }

  /** Element size and first capacity never change. */
  predicate SameKind(v: Vec, v': Vec) {
    v.elemSize == v'.elemSize && v.firstCap == v'.firstCap
  }

  /** A header whose storage holds exactly the elements `items`. */
  ghost predicate Holds(blocks: seq<seq<Byte>>, v: Vec, items: seq<Item>) {
    && v.count == |items| <= v.cap
    && Sized(items, v.elemSize)
    && |Flatten(items)| <= Bytes(v.cap, v.elemSize)
    && match v.items
       case None => v.cap == 0
       case Some(r) => InBlocks(blocks, r) && Bytes(v.cap, v.elemSize) <= r.size
                       && Load(blocks, r, |Flatten(items)|) == Flatten(items)
  }

  /** A string stored once and never touched again. */
  datatype Blob = Blob(region: Region, bytes: seq<Byte>)

  ghost predicate Kept(blocks: seq<seq<Byte>>, b: Blob) {
    InBlocks(blocks, b.region) && |b.bytes| <= b.region.size && Load(blocks, b.region, |b.bytes|) == b.bytes
  }

  lemma HoldsGrown(blocks: seq<seq<Byte>>, blocks': seq<seq<Byte>>, v: Vec, items: seq<Item>)
    requires Holds(blocks, v, items) && blocks <= blocks'
    ensures Holds(blocks', v, items)
  {
  }

  lemma HoldsElsewhere(blocks: seq<seq<Byte>>, r: Region, i: nat, data: seq<Byte>, v: Vec, items: seq<Item>)
    requires Holds(blocks, v, items) && InBlocks(blocks, r) && i + |data| <= r.size
    requires v.items.Some? ==> !r.Meets(v.items.value)
    ensures Holds(Store(blocks, r, i, data), v, items)
  {
    if v.items.Some? {
      StoreElsewhere(blocks, r, i, data, v.items.value, |Flatten(items)|);
    }
  }

  lemma KeptElsewhere(blocks: seq<seq<Byte>>, r: Region, i: nat, data: seq<Byte>, b: Blob)
    requires Kept(blocks, b) && InBlocks(blocks, r) && i + |data| <= r.size && !r.Meets(b.region)
    ensures Kept(Store(blocks, r, i, data), b)
  {
    StoreElsewhere(blocks, r, i, data, b.region, |b.bytes|);
  }

  /** Appending one element's bytes behind the others. */
  lemma HoldsAppend(blocks: seq<seq<Byte>>, v: Vec, items: seq<Item>, x: Item)
    requires Holds(blocks, v, items) && v.items.Some? && v.count < v.cap && |x| == v.elemSize
    ensures Bytes(v.count, v.elemSize) + |x| <= v.items.value.size
    ensures Holds(Store(blocks, v.items.value, Bytes(v.count, v.elemSize), x), v.(count := v.count + 1), items + [x])
  {
    FlattenLength(items, v.elemSize);
    FlattenPush(items, x);
    BytesGrows(v.count + 1, v.cap, v.elemSize);
    StoreAtEnd(blocks, v.items.value, Bytes(v.count, v.elemSize), x);
  }

  /** Moving the elements to new storage of larger capacity. */
  lemma HoldsMoved(blocks: seq<seq<Byte>>, v: Vec, items: seq<Item>, r: Region, newCap: nat)
    requires Holds(blocks, v, items) && InBlocks(blocks, r) && Bytes(newCap, v.elemSize) <= r.size
    requires v.cap <= newCap
    ensures |Flatten(items)| <= r.size
    ensures Holds(Store(blocks, r, 0, Flatten(items)), v.(items := Some(r), cap := newCap), items)
  {
    BytesGrows(v.cap, newCap, v.elemSize);
    StoreAtEnd(blocks, r, 0, Flatten(items));
    assert Load(blocks, r, 0) + Flatten(items) == Flatten(items);
  }

  /** The capacity asked for when a vector is full. */
  function NextCap(v: Vec): nat {
    if v.cap == 0 then v.firstCap else v.cap * 2
  }

  lemma DoubledNext(first: nat, cap: nat)
    requires cap == 0 || Doubled(first, cap)
    ensures Doubled(first, if cap == 0 then first else cap * 2)
  {
    if cap == 0 {
      assert first == first * Pow2(0);
    } else {
      var k: nat :| cap == first * Pow2(k);
      assert cap * 2 == first * Pow2(k + 1);
    }
  }

  /** The capacity asked for keeps the doubling and has room for one more. */
  lemma GrowthFits(v: Vec)
    requires CapOk(v) && v.count <= v.cap
    ensures Doubled(v.firstCap, NextCap(v)) && v.cap <= NextCap(v) && v.count < NextCap(v)
  {
    DoubledNext(v.firstCap, v.cap);
  }

  // ----- everything that lives in one arena, as values -----

  datatype State = State(blocks: seq<seq<Byte>>, regions: seq<Region>, vecs: seq<Vec>,
                         contents: seq<seq<Item>>, blobs: seq<Blob>)

  ghost predicate VecOk(s: State, k: nat)
    requires k < |s.vecs| == |s.contents|
  {
    && CapOk(s.vecs[k])
    && Holds(s.blocks, s.vecs[k], s.contents[k])
    && (s.vecs[k].items.Some? ==> s.vecs[k].items.value in s.regions)
  }

  ghost predicate BlobOk(s: State, b: nat)
    requires b < |s.blobs|
  {
    Kept(s.blocks, s.blobs[b]) && s.blobs[b].region in s.regions
  }

  /** Region r is none of vector k's storage. */
  ghost predicate Clear(s: State, r: Region, k: nat)
    requires k < |s.vecs|
  {
    s.vecs[k].items.Some? ==> !r.Meets(s.vecs[k].items.value)
  }

  ghost predicate Apart(s: State, j: nat, k: nat)
    requires j < |s.vecs| && k < |s.vecs|
  {
    s.vecs[j].items.Some? ==> Clear(s, s.vecs[j].items.value, k)
  }

  ghost predicate Ok(s: State) {
    && |s.vecs| == |s.contents|
    && (forall k | 0 <= k < |s.vecs| :: VecOk(s, k))
    && (forall j, k | 0 <= j < |s.vecs| && 0 <= k < |s.vecs| && j != k :: Apart(s, j, k))
    && (forall b | 0 <= b < |s.blobs| :: BlobOk(s, b))
    && (forall b, k | 0 <= b < |s.blobs| && 0 <= k < |s.vecs| :: Clear(s, s.blobs[b].region, k))
  }

  /** Region r has been handed out and belongs to nobody yet. */
  ghost predicate Unclaimed(s: State, r: Region) {
    && InBlocks(s.blocks, r) && r in s.regions
    && (forall k | 0 <= k < |s.vecs| :: Clear(s, r, k))
    && (forall b | 0 <= b < |s.blobs| :: !r.Meets(s.blobs[b].region))
  }

  /** Growth of the arena changes nobody's contents, and a new region is nobody's. */
  lemma GrowOk(s: State, blocks': seq<seq<Byte>>, regions': seq<Region>)
    requires Ok(s) && s.blocks <= blocks' && s.regions <= regions'
    ensures Ok(s.(blocks := blocks', regions := regions'))
  {
    var s' := s.(blocks := blocks', regions := regions');
    forall k | 0 <= k < |s.vecs| ensures VecOk(s', k) {
      assert VecOk(s, k);
      HoldsGrown(s.blocks, blocks', s.vecs[k], s.contents[k]);
    }
    forall j, k | 0 <= j < |s.vecs| && 0 <= k < |s.vecs| && j != k ensures Apart(s', j, k) {
      assert Apart(s, j, k);
    }
    forall b | 0 <= b < |s.blobs| ensures BlobOk(s', b) {
      assert BlobOk(s, b);
    }
    forall b, k | 0 <= b < |s.blobs| && 0 <= k < |s.vecs| ensures Clear(s', s.blobs[b].region, k) {
      assert Clear(s, s.blobs[b].region, k);
    }
  }

  lemma NewIsUnclaimed(s: State, r: Region, blocks': seq<seq<Byte>>)
    requires Ok(s) && InBlocks(blocks', r)
    requires forall i | 0 <= i < |s.regions| :: !r.Meets(s.regions[i])
    ensures Unclaimed(s.(blocks := blocks', regions := s.regions + [r]), r)
  {
    var s' := s.(blocks := blocks', regions := s.regions + [r]);
    forall k | 0 <= k < |s.vecs| ensures Clear(s', r, k) {
      assert VecOk(s, k);
    }
    forall b | 0 <= b < |s.blobs| ensures !r.Meets(s.blobs[b].region) {
      assert BlobOk(s, b);
    }
  }

  /** A store into region r leaves every vector and blob that r is clear of as it was. */
  lemma StoreKeepsVec(s: State, r: Region, i: nat, data: seq<Byte>, k: nat)
    requires |s.vecs| == |s.contents| && k < |s.vecs| && VecOk(s, k) && Clear(s, r, k)
    requires InBlocks(s.blocks, r) && i + |data| <= r.size
    ensures VecOk(s.(blocks := Store(s.blocks, r, i, data)), k)
  {
    HoldsElsewhere(s.blocks, r, i, data, s.vecs[k], s.contents[k]);
  }

  lemma StoreKeepsBlob(s: State, r: Region, i: nat, data: seq<Byte>, b: nat)
    requires b < |s.blobs| && BlobOk(s, b) && !r.Meets(s.blobs[b].region)
    requires InBlocks(s.blocks, r) && i + |data| <= r.size
    ensures BlobOk(s.(blocks := Store(s.blocks, r, i, data)), b)
  {
    KeptElsewhere(s.blocks, r, i, data, s.blobs[b]);
  }

  /** Vector k is given new storage r, filled with data; everyone else is untouched. */
  ghost function Rehomed(s: State, k: nat, r: Region, newCap: nat): State
    requires k < |s.vecs| == |s.contents| && InBlocks(s.blocks, r) && |Flatten(s.contents[k])| <= r.size
  {
    s.(blocks := Store(s.blocks, r, 0, Flatten(s.contents[k])),
       vecs := s.vecs[k := s.vecs[k].(items := Some(r), cap := newCap)])
  }

  lemma RehomeOk(s: State, k: nat, r: Region, newCap: nat)
    requires Ok(s) && k < |s.vecs| && Unclaimed(s, r)
    requires s.vecs[k].cap <= newCap && Bytes(newCap, s.vecs[k].elemSize) <= r.size
    requires Doubled(s.vecs[k].firstCap, newCap)
    ensures |Flatten(s.contents[k])| <= r.size && Ok(Rehomed(s, k, r, newCap))
  {
    assert VecOk(s, k);
    HoldsMoved(s.blocks, s.vecs[k], s.contents[k], r, newCap);
    var s' := Rehomed(s, k, r, newCap);
    forall j | 0 <= j < |s.vecs| ensures VecOk(s', j) {
      if j != k {
        StoreKeepsVec(s, r, 0, Flatten(s.contents[k]), j);
      }
    }
    forall i, j | 0 <= i < |s.vecs| && 0 <= j < |s.vecs| && i != j ensures Apart(s', i, j) {
      assert Apart(s, i, j) && Clear(s, r, i) && Clear(s, r, j);
    }
    forall b | 0 <= b < |s.blobs| ensures BlobOk(s', b) {
      StoreKeepsBlob(s, r, 0, Flatten(s.contents[k]), b);
    }
    forall b, j | 0 <= b < |s.blobs| && 0 <= j < |s.vecs| ensures Clear(s', s.blobs[b].region, j) {
      assert Clear(s, s.blobs[b].region, j);
    }
  }

  /** One element appended to vector k, in place. */
  ghost function Appended(s: State, k: nat, x: Item): State
    requires k < |s.vecs| == |s.contents| && s.vecs[k].items.Some? && InBlocks(s.blocks, s.vecs[k].items.value)
    requires Bytes(s.vecs[k].count, s.vecs[k].elemSize) + |x| <= s.vecs[k].items.value.size
  {
    var v := s.vecs[k];
    s.(blocks := Store(s.blocks, v.items.value, Bytes(v.count, v.elemSize), x),
       vecs := s.vecs[k := v.(count := v.count + 1)],
       contents := s.contents[k := s.contents[k] + [x]])
  }

  lemma AppendOk(s: State, k: nat, x: Item)
    requires Ok(s) && k < |s.vecs| && s.vecs[k].count < s.vecs[k].cap && |x| == s.vecs[k].elemSize
    ensures s.vecs[k].items.Some? && InBlocks(s.blocks, s.vecs[k].items.value)
    ensures Bytes(s.vecs[k].count, s.vecs[k].elemSize) + |x| <= s.vecs[k].items.value.size
    ensures Ok(Appended(s, k, x))
  {
    assert VecOk(s, k);
    var v := s.vecs[k];
    HoldsAppend(s.blocks, v, s.contents[k], x);
    var s', r, i := Appended(s, k, x), v.items.value, Bytes(v.count, v.elemSize);
    forall j | 0 <= j < |s.vecs| ensures VecOk(s', j) {
      if j != k {
        assert Apart(s, k, j);
        StoreKeepsVec(s, r, i, x, j);
      }
    }
    forall i, j | 0 <= i < |s.vecs| && 0 <= j < |s.vecs| && i != j ensures Apart(s', i, j) {
      assert Apart(s, i, j);
    }
    forall b | 0 <= b < |s.blobs| ensures BlobOk(s', b) {
      assert Clear(s, s.blobs[b].region, k);
      StoreKeepsBlob(s, r, i, x, b);
    }
    forall b, j | 0 <= b < |s.blobs| && 0 <= j < |s.vecs| ensures Clear(s', s.blobs[b].region, j) {
      assert Clear(s, s.blobs[b].region, j);
    }
  }

  /** A new header at the end of the list, with or without storage. */
  lemma AddVecOk(s: State, v: Vec)
    requires Ok(s) && CapOk(v) && v.count == 0
    requires v.items.None? ==> v.cap == 0
    requires v.items.Some? ==> Unclaimed(s, v.items.value) && Bytes(v.cap, v.elemSize) <= v.items.value.size
    ensures Ok(s.(vecs := s.vecs + [v], contents := s.contents + [[]]))
  {
    var s' := s.(vecs := s.vecs + [v], contents := s.contents + [[]]);
    forall k | 0 <= k < |s'.vecs| ensures VecOk(s', k) {
      if k < |s.vecs| {
        assert VecOk(s, k);
      }
    }
    forall j, k | 0 <= j < |s'.vecs| && 0 <= k < |s'.vecs| && j != k ensures Apart(s', j, k) {
      if j < |s.vecs| && k < |s.vecs| {
        assert Apart(s, j, k);
      } else if v.items.Some? {
        assert Clear(s, v.items.value, if j < |s.vecs| then j else k);
      }
    }
    forall b | 0 <= b < |s.blobs| ensures BlobOk(s', b) {
      assert BlobOk(s, b);
    }
    forall b, k | 0 <= b < |s.blobs| && 0 <= k < |s'.vecs| ensures Clear(s', s.blobs[b].region, k) {
      if k < |s.vecs| {
        assert Clear(s, s.blobs[b].region, k);
      }
    }
  }

  /** A string written into a region of its own. */
  lemma AddBlobOk(s: State, r: Region, bytes: seq<Byte>)
    requires Ok(s) && Unclaimed(s, r) && |bytes| <= r.size
    ensures Ok(s.(blocks := Store(s.blocks, r, 0, bytes), blobs := s.blobs + [Blob(r, bytes)]))
  {
    var s' := s.(blocks := Store(s.blocks, r, 0, bytes), blobs := s.blobs + [Blob(r, bytes)]);
    StoreAtEnd(s.blocks, r, 0, bytes);
    assert Load(s.blocks, r, 0) + bytes == bytes;
    forall k | 0 <= k < |s.vecs| ensures VecOk(s', k) {
      StoreKeepsVec(s, r, 0, bytes, k);
    }
    forall j, k | 0 <= j < |s.vecs| && 0 <= k < |s.vecs| && j != k ensures Apart(s', j, k) {
      assert Apart(s, j, k);
    }
    forall b | 0 <= b < |s'.blobs| ensures BlobOk(s', b) {
      if b < |s.blobs| {
        StoreKeepsBlob(s, r, 0, bytes, b);
      }
    }
    forall b, k | 0 <= b < |s'.blobs| && 0 <= k < |s.vecs| ensures Clear(s', s'.blobs[b].region, k) {
      assert Clear(s, s'.blobs[b].region, k);
    }
  }

  /** Dropping the last element only lowers a count. */
  lemma DropOk(s: State, k: nat)
    requires Ok(s) && k < |s.vecs| && s.contents[k] != []
    ensures var n := |s.contents[k]| - 1;
            Ok(s.(vecs := s.vecs[k := s.vecs[k].(count := n)], contents := s.contents[k := s.contents[k][..n]]))
  {
    var n := |s.contents[k]| - 1;
    var s' := s.(vecs := s.vecs[k := s.vecs[k].(count := n)], contents := s.contents[k := s.contents[k][..n]]);
    forall j | 0 <= j < |s.vecs| ensures VecOk(s', j) {
      assert VecOk(s, j);
      if j == k {
        DropHolds(s.blocks, s.vecs[k], s.contents[k]);
      }
    }
    forall i, j | 0 <= i < |s.vecs| && 0 <= j < |s.vecs| && i != j ensures Apart(s', i, j) {
      assert Apart(s, i, j);
    }
    forall b | 0 <= b < |s.blobs| ensures BlobOk(s', b) {
      assert BlobOk(s, b);
    }
    forall b, j | 0 <= b < |s.blobs| && 0 <= j < |s.vecs| ensures Clear(s', s.blobs[b].region, j) {
      assert Clear(s, s.blobs[b].region, j);
    }
  }

  lemma DropHolds(blocks: seq<seq<Byte>>, v: Vec, items: seq<Item>)
    requires Holds(blocks, v, items) && items != []
    ensures v.items.Some?
    ensures Holds(blocks, v.(count := |items| - 1), items[..|items| - 1])
    ensures Load(blocks, v.items.value, |Flatten(items)|)[|Flatten(items[..|items| - 1])|..] == items[|items| - 1]
  {
    var n := |items| - 1;
    var all, front := Flatten(items), Flatten(items[..n]);
    assert all == front + items[n];
    var r := v.items.value;
    assert Load(blocks, r, |front|) == Load(blocks, r, |all|)[..|front|];
  }

  // ----- the pool -----

  datatype Op = NewArray(elemSize: nat) | NewStack(elemSize: nat, initialCap: nat)
              | Push(vec: nat, item: Item) | Pop(vec: nat) | Strndup(text: seq<Byte>)

  class Pool {
    const arena: CBMArena
    var vecs: seq<Vec>
    ghost var contents: seq<seq<Item>>
    ghost var blobs: seq<Blob>

    ghost function Now(): State
      reads this, arena
    {
      State(arena.blocks, arena.regions, vecs, contents, blobs)
    }

    ghost predicate Valid()
      reads this, arena
    {
      arena.Valid() && Ok(Now())
    }

    constructor (arena: CBMArena)
      requires arena.Valid()
      ensures Valid() && this.arena == arena && vecs == [] && contents == [] && blobs == []
    {
      this.arena, vecs, contents, blobs := arena, [], [], [];
    }

    /** An allocation for the pool: nobody's contents change, and the region is nobody's. */
    method Claim(n: nat, mallocOk: bool) returns (r: Option<Region>)
      requires Valid()
      modifies arena
      ensures Valid()
      ensures r.Some? ==> Unclaimed(Now(), r.value) && r.value.size >= n
      ensures r.None? ==> arena.blocks == old(arena.blocks)
      ensures r.Some? <==> Grants(old(arena.Level()), n, mallocOk)
      ensures arena.Level() == AfterRequest(old(arena.Level()), n, mallocOk)
    {
      ghost var s := Now();
      r := arena.Alloc(n, mallocOk);
      GrowOk(s, arena.blocks, arena.regions);
      if r.Some? {
        assert arena.regions[|arena.regions| - 1] == r.value;
        NewIsUnclaimed(s, r.value, arena.blocks);
      }
    }

    /** Sizes, counts and capacities of everything, without addresses and bytes. */
    ghost function Form(): Shape
      reads this, arena
    {
      Shape(arena.Level(), Bares(vecs))
    }

    /** Make room for one more element of vector k, doubling its capacity if it is full. */
    method Reserve(k: nat, mallocOk: bool) returns (ok: bool)
      requires Valid() && k < |vecs|
      modifies this`vecs, arena
      ensures Valid() && Form() == Reserved(old(Form()), k, mallocOk)
      ensures ok <==> Accepts(old(Form()), k, mallocOk)
      ensures |vecs| == |old(vecs)| && forall j | 0 <= j < |vecs| && j != k :: vecs[j] == old(vecs)[j]
      ensures ok ==> vecs[k].count < vecs[k].cap && vecs[k].elemSize == old(vecs)[k].elemSize
      ensures !ok ==> vecs == old(vecs) && arena.blocks == old(arena.blocks)
      ensures old(vecs)[k].count < old(vecs)[k].cap ==> ok && vecs == old(vecs) && arena.blocks == old(arena.blocks)
      ensures ok && old(vecs)[k].count >= old(vecs)[k].cap ==>
                vecs[k].cap == if old(vecs)[k].cap == 0 then old(vecs)[k].firstCap else 2 * old(vecs)[k].cap
    {
      if vecs[k].count < vecs[k].cap {
        return true;
      }
      ok := Enlarge(k, mallocOk);
    }

    /** The growth branch. */
    method Enlarge(k: nat, mallocOk: bool) returns (ok: bool)
      requires Valid() && k < |vecs| && vecs[k].count >= vecs[k].cap
      modifies this`vecs, arena
      ensures Valid() && Form() == Reserved(old(Form()), k, mallocOk)
      ensures ok <==> Accepts(old(Form()), k, mallocOk)
      ensures |vecs| == |old(vecs)| && forall j | 0 <= j < |vecs| && j != k :: vecs[j] == old(vecs)[j]
      ensures ok ==> vecs[k].count < vecs[k].cap && vecs[k].elemSize == old(vecs)[k].elemSize
      ensures !ok ==> vecs == old(vecs) && arena.blocks == old(arena.blocks)
      ensures ok ==> vecs[k].cap == if old(vecs)[k].cap == 0 then old(vecs)[k].firstCap else 2 * old(vecs)[k].cap
    {
      var v := vecs[k];
      assert VecOk(Now(), k);
      var newCap := NextCap(v);
      GrowthFits(v);
      BytesIsProduct(newCap, v.elemSize);
      var claim := Claim(newCap * v.elemSize, mallocOk);
      if claim.None? {
        return false;
      }
      Move(k, claim.value, newCap);
      return true;
    }

    /** Copy vector k's elements into fresh storage and switch to it. */
    method Move(k: nat, r: Region, newCap: nat)
      requires Valid() && k < |vecs| && Unclaimed(Now(), r)
      requires vecs[k].cap <= newCap && Bytes(newCap, vecs[k].elemSize) <= r.size
      requires Doubled(vecs[k].firstCap, newCap)
      modifies this`vecs, arena
      ensures Valid() && vecs == old(vecs)[k := old(vecs)[k].(items := Some(r), cap := newCap)]
      ensures Form() == old(Form()).(vecs := old(Form()).vecs[k := old(Form()).vecs[k].(cap := newCap)])
    {
      var v := vecs[k];
      ghost var s := Now();
      RehomeOk(s, k, r, newCap);
      assert VecOk(s, k);
      FlattenLength(contents[k], v.elemSize);
      BytesIsProduct(v.count, v.elemSize);
      if v.items.Some? && v.count > 0 {
        var from := v.items.value;
        var bytes := arena.blocks[from.block][from.offset..from.offset + v.count * v.elemSize];
        assert bytes == Flatten(contents[k]);
        arena.Write(r, 0, bytes);
      } else {
        EmptyStore(arena.blocks, r);
      }
      vecs := vecs[k := v.(items := Some(r), cap := newCap)];
      assert Now() == Rehomed(s, k, r, newCap);
      BaresUpdate(old(vecs), k, v.(items := Some(r), cap := newCap));
    }

    /** `cbm_*_push` and `ts_nstack_push`: append, or drop the element when growth is refused. */
    method PushItem(k: nat, x: Item, mallocOk: bool) returns (accepted: bool)
      requires Valid() && k < |vecs| && |x| == vecs[k].elemSize
      modifies this`vecs, this`contents, arena
      ensures Valid()
      ensures contents == if accepted then old(contents)[k := old(contents)[k] + [x]] else old(contents)
      ensures accepted == Succeeds(old(Form()), Push(k, x), mallocOk)
      ensures Form() == Next(old(Form()), Push(k, x), mallocOk)
      ensures old(vecs)[k].count < old(vecs)[k].cap ==> accepted && vecs[k].cap == old(vecs)[k].cap
      ensures accepted && old(vecs)[k].count >= old(vecs)[k].cap ==>
                vecs[k].cap == if old(vecs)[k].cap == 0 then old(vecs)[k].firstCap else 2 * old(vecs)[k].cap
    {
      accepted := Reserve(k, mallocOk);
      if accepted {
        StoreItem(k, x);
      }
    }

    /** `items[count++] = x` */
    method StoreItem(k: nat, x: Item)
      requires Valid() && k < |vecs| && vecs[k].count < vecs[k].cap && |x| == vecs[k].elemSize
      modifies this`vecs, this`contents, arena
      ensures Valid() && vecs == old(vecs)[k := old(vecs)[k].(count := old(vecs)[k].count + 1)]
      ensures contents == old(contents)[k := old(contents)[k] + [x]]
      ensures Form() == Counted(old(Form()), k)
    {
      ghost var s := Now();
      AppendOk(s, k, x);
      var v := vecs[k];
      BytesIsProduct(v.count, v.elemSize);
      arena.Write(v.items.value, v.count * v.elemSize, x);
      vecs := vecs[k := v.(count := v.count + 1)];
      contents := contents[k := contents[k] + [x]];
      assert Now() == Appended(s, k, x);
      BaresUpdate(old(vecs), k, v.(count := v.count + 1));
    }

    /** `ts_nstack_pop` */
    method PopItem(k: nat) returns (x: Item)
      requires Valid() && k < |vecs| && vecs[k].count > 0
      modifies this`vecs, this`contents
      ensures Valid()
      ensures var was := old(contents)[k];
              was != [] && x == was[|was| - 1] && contents == old(contents)[k := was[..|was| - 1]]
      ensures Form() == Next(old(Form()), Pop(k), true)
    {
      ghost var s := Now();
      assert VecOk(s, k);
      DropOk(s, k);
      DropHolds(s.blocks, vecs[k], contents[k]);
      var v := vecs[k];
      ghost var n := v.count - 1;
      FlattenLength(contents[k], v.elemSize);
      FlattenLength(contents[k][..n], v.elemSize);
      BytesIsProduct(v.count - 1, v.elemSize);
      var from := v.items.value;
      var at := from.offset + (v.count - 1) * v.elemSize;
      x := arena.blocks[from.block][at..at + v.elemSize];
      vecs := vecs[k := v.(count := v.count - 1)];
      contents := contents[k := contents[k][..n]];
      BaresUpdate(old(vecs), k, v.(count := v.count - 1));
    }

    /** A new header, with or without storage of its own. */
    method AddVec(v: Vec)
      requires Valid() && CapOk(v) && v.count == 0 && (v.items.None? ==> v.cap == 0)
      requires v.items.Some? ==> Unclaimed(Now(), v.items.value) && Bytes(v.cap, v.elemSize) <= v.items.value.size
      modifies this`vecs, this`contents
      ensures Valid() && vecs == old(vecs) + [v] && contents == old(contents) + [[]]
      ensures Form() == old(Form()).(vecs := old(Form()).vecs + [Bare(v)])
    {
      AddVecOk(Now(), v);
      BaresSnoc(vecs, v);
      vecs, contents := vecs + [v], contents + [[]];
    }

    /** A zeroed `CBM*Array`: no storage until the first push. */
    method AddArray(elemSize: nat)
      requires Valid() && elemSize > 0
      modifies this`vecs, this`contents
      ensures Valid() && contents == old(contents) + [[]]
      ensures vecs == old(vecs) + [Vec(elemSize, 32, None, 0, 0)]
      ensures Form() == Next(old(Form()), NewArray(elemSize), true)
    {
      AddVec(Vec(elemSize, ARRAY_FIRST_CAP, None, 0, 0));
    }

    /** `ts_nstack_init` */
    method AddStack(elemSize: nat, initialCap: nat, mallocOk: bool)
      requires Valid() && elemSize > 0
      modifies this`vecs, this`contents, arena
      ensures Valid() && contents == old(contents) + [[]]
      ensures |vecs| == |old(vecs)| + 1 && old(vecs) <= vecs
      ensures var v := vecs[|old(vecs)|];
              if v.items.Some? then v == Vec(elemSize, initialCap, v.items, 0, initialCap) else v == Vec(elemSize, 512, None, 0, 0)
      ensures Form() == Next(old(Form()), NewStack(elemSize, initialCap), mallocOk)
    {
      BytesIsProduct(initialCap, elemSize);
      var claim := Claim(initialCap * elemSize, mallocOk);
      if claim.Some? {
        assert initialCap == initialCap * Pow2(0);
        AddVec(Vec(elemSize, initialCap, claim, 0, initialCap));
      } else {
        AddVec(Vec(elemSize, STACK_FIRST_CAP, None, 0, 0));
      }
    }

    /** `cbm_arena_strndup`: the text and a terminating zero, in a region of its own. */
    method AddText(text: seq<Byte>, mallocOk: bool) returns (r: Option<Region>)
      requires Valid()
      modifies this`blobs, arena
      ensures Valid()
      ensures blobs == if r.Some? then old(blobs) + [Blob(r.value, text + [0])] else old(blobs)
      ensures Texts(blobs) == Texts(old(blobs)) + TextOf(Strndup(text), r.Some?)
      ensures r.Some? == Succeeds(old(Form()), Strndup(text), mallocOk)
      ensures Form() == Next(old(Form()), Strndup(text), mallocOk)
    {
      r := Claim(|text| + 1, mallocOk);
      if r.Some? {
        StoreText(r.value, text + [0]);
      }
    }

    /** A string written into a region of its own. */
    method StoreText(r: Region, bytes: seq<Byte>)
      requires Valid() && Unclaimed(Now(), r) && |bytes| <= r.size
      modifies this`blobs, arena
      ensures Valid() && blobs == old(blobs) + [Blob(r, bytes)] && Texts(blobs) == Texts(old(blobs)) + [bytes]
      ensures Form() == old(Form())
    {
      AddBlobOk(Now(), r, bytes);
      TextsSnoc(blobs, Blob(r, bytes));
      arena.Write(r, 0, bytes);
      blobs := blobs + [Blob(r, bytes)];
    }

    /** A pop guarded, as the source's callers guard it, by the count. */
    method PopIfAny(k: nat)
      requires Valid() && k < |vecs|
      modifies this`vecs, this`contents
      ensures Valid() && Form() == Next(old(Form()), Pop(k), true)
      ensures contents == After(old(contents), Pop(k), true)
    {
      assert VecOk(Now(), k);
      if vecs[k].count > 0 {
        var _ := PopItem(k);
      }
    }

    /**
     One operation, a pop only from a stack that holds something; `accepted` is false exactly when a
     push was dropped or a text not stored.
     */
    method Apply(op: Op, mallocOk: bool) returns (accepted: bool)
      requires Valid() && Allowed(Form(), op)
      modifies this, arena
      ensures Valid() && Form() == Next(old(Form()), op, mallocOk) && accepted == Succeeds(old(Form()), op, mallocOk)
      ensures contents == After(old(contents), op, accepted)
      ensures old(blobs) <= blobs && Texts(blobs) == Texts(old(blobs)) + TextOf(op, accepted)
    {
      accepted := true;
      match op
      case NewArray(size) =>
        AddArray(size);
      case NewStack(size, cap) =>
        AddStack(size, cap, mallocOk);
      case Push(k, x) =>
        accepted := PushItem(k, x, mallocOk);
      case Pop(k) =>
        PopIfAny(k);
      case Strndup(text) =>
        var r := AddText(text, mallocOk);
        accepted := r.Some?;
    }

    /**
     Any run of operations on any number of vectors and strings sharing the arena: which operations
     are accepted, and every size, count and capacity afterwards, follow from the form before.
     */
    method Run(ops: seq<Op>, mallocOk: seq<bool>) returns (accepted: seq<bool>)
      requires Valid() && |mallocOk| == |ops|
      requires forall i | 0 <= i < |ops| :: Allowed(FormAfter(Form(), ops[..i], mallocOk[..i]), ops[i])
      modifies this, arena
      ensures Valid() && |accepted| == |ops|
      ensures Form() == FormAfter(old(Form()), ops, mallocOk) && accepted == Outcomes(old(Form()), ops, mallocOk)
      ensures contents == AfterAll(old(contents), ops, accepted)
      ensures old(blobs) <= blobs && Texts(blobs) == Texts(old(blobs)) + TextsOf(ops, accepted)
      ensures forall j | 0 <= j < |vecs| :: CapOk(vecs[j])
    {
      accepted := [];
      ghost var form := Form();
      for i := 0 to |ops|
        invariant Valid() && |accepted| == i
        invariant Form() == FormAfter(form, ops[..i], mallocOk[..i]) && accepted == Outcomes(form, ops[..i], mallocOk[..i])
        invariant contents == AfterAll(old(contents), ops[..i], accepted)
        invariant old(blobs) <= blobs && Texts(blobs) == Texts(old(blobs)) + TextsOf(ops[..i], accepted)
      {
        var ok := Apply(ops[i], mallocOk[i]);
        OneMore(form, old(contents), ops, mallocOk, i, accepted, ok);
        OneMoreText(Texts(old(blobs)), ops, i, accepted, ok);
        accepted := accepted + [ok];
      }
      assert ops[..|ops|] == ops && mallocOk[..|ops|] == mallocOk;
      forall j | 0 <= j < |vecs| ensures CapOk(vecs[j]) {
        assert VecOk(Now(), j);
      }
    }
  }

  // ----- runs -----

  /** A header without the address of its storage. */
  ghost function Bare(v: Vec): Vec {
    v.(items := None)
  }

  ghost function Bares(vecs: seq<Vec>): (r: seq<Vec>)
    ensures |r| == |vecs| && forall k | 0 <= k < |r| :: r[k] == Bare(vecs[k])
  {
    if vecs == [] then [] else Bares(vecs[..|vecs| - 1]) + [Bare(vecs[|vecs| - 1])]
  }

  lemma BaresUpdate(vecs: seq<Vec>, k: nat, v: Vec)
    requires k < |vecs|
    ensures Bares(vecs[k := v]) == Bares(vecs)[k := Bare(v)]
  {
  }

  lemma BaresSnoc(vecs: seq<Vec>, v: Vec)
    ensures Bares(vecs + [v]) == Bares(vecs) + [Bare(v)]
  {
  }

  /** The sizes in a pool: how full the arena is, and every vector's element size, count and capacity. */
  datatype Shape = Shape(level: Fill, vecs: seq<Vec>)

  /** What a caller must see to: the vector exists and the element has its size. */
  ghost predicate Allowed(s: Shape, op: Op) {
    match op
    case NewArray(size) => size > 0
    case NewStack(size, _) => size > 0
    case Push(k, x) => k < |s.vecs| && |x| == s.vecs[k].elemSize
    case Pop(k) => k < |s.vecs|
    case Strndup(_) => true
  }

  /** The bytes asked for when a vector is full. */
  ghost function Need(v: Vec): nat {
    Bytes(NextCap(v), v.elemSize)
  }

  /** A push is accepted when there is room or the arena grants the doubled storage. */
  ghost predicate Accepts(s: Shape, k: nat, mallocOk: bool) {
    k < |s.vecs| && (s.vecs[k].count < s.vecs[k].cap || Grants(s.level, Need(s.vecs[k]), mallocOk))
  }

  /** Room made for one more element of vector k, if it is granted. */
  ghost function Reserved(s: Shape, k: nat, mallocOk: bool): Shape {
    if k >= |s.vecs| || s.vecs[k].count < s.vecs[k].cap || !Accepts(s, k, mallocOk) then s
    else Shape(AfterRequest(s.level, Need(s.vecs[k]), mallocOk), s.vecs[k := s.vecs[k].(cap := NextCap(s.vecs[k]))])
  }

  ghost function Counted(s: Shape, k: nat): Shape {
    if k < |s.vecs| then s.(vecs := s.vecs[k := s.vecs[k].(count := s.vecs[k].count + 1)]) else s
  }

  /** Which operations succeed. */
  ghost predicate Succeeds(s: Shape, op: Op, mallocOk: bool) {
    match op
    case Push(k, _) => Accepts(s, k, mallocOk)
    case Strndup(text) => Grants(s.level, |text| + 1, mallocOk)
    case _ => true
  }

  /** The sizes after one operation. */
  ghost function Next(s: Shape, op: Op, mallocOk: bool): Shape {
    match op
    case NewArray(size) => s.(vecs := s.vecs + [Vec(size, ARRAY_FIRST_CAP, None, 0, 0)])
    case NewStack(size, cap) =>
      Shape(AfterRequest(s.level, Bytes(cap, size), mallocOk),
            s.vecs + [if Grants(s.level, Bytes(cap, size), mallocOk) then Vec(size, cap, None, 0, cap)
                      else Vec(size, STACK_FIRST_CAP, None, 0, 0)])
    case Push(k, _) => if Accepts(s, k, mallocOk) then Counted(Reserved(s, k, mallocOk), k) else s
    case Pop(k) =>
      if k < |s.vecs| && s.vecs[k].count > 0 then s.(vecs := s.vecs[k := s.vecs[k].(count := s.vecs[k].count - 1)]) else s
    case Strndup(text) => s.(level := AfterRequest(s.level, |text| + 1, mallocOk))
  }

  ghost function FormAfter(s: Shape, ops: seq<Op>, mallocOk: seq<bool>): Shape
    requires |mallocOk| == |ops|
  {
    if ops == [] then s
    else var n := |ops| - 1; Next(FormAfter(s, ops[..n], mallocOk[..n]), ops[n], mallocOk[n])
  }

  ghost function Outcomes(s: Shape, ops: seq<Op>, mallocOk: seq<bool>): (r: seq<bool>)
    requires |mallocOk| == |ops|
    ensures |r| == |ops|
  {
    if ops == [] then []
    else
      var n := |ops| - 1;
      Outcomes(s, ops[..n], mallocOk[..n]) + [Succeeds(FormAfter(s, ops[..n], mallocOk[..n]), ops[n], mallocOk[n])]
  }

  /** What each vector holds after one operation. */
  ghost function After(contents: seq<seq<Item>>, op: Op, accepted: bool): seq<seq<Item>> {
    match op
    case NewArray(_) => contents + [[]]
    case NewStack(_, _) => contents + [[]]
    case Push(k, x) => if accepted && k < |contents| then contents[k := contents[k] + [x]] else contents
    case Pop(k) => if k < |contents| && contents[k] != [] then contents[k := contents[k][..|contents[k]| - 1]] else contents
    case Strndup(_) => contents
  }

  ghost function AfterAll(contents: seq<seq<Item>>, ops: seq<Op>, accepted: seq<bool>): seq<seq<Item>>
    requires |accepted| == |ops|
  {
    if ops == [] then contents
    else After(AfterAll(contents, ops[..|ops| - 1], accepted[..|ops| - 1]), ops[|ops| - 1], accepted[|ops| - 1])
  }

  lemma OneMore(s: Shape, contents: seq<seq<Item>>, ops: seq<Op>, mallocOk: seq<bool>, i: nat, accepted: seq<bool>, ok: bool)
    requires i < |ops| == |mallocOk| && |accepted| == i
    ensures var before := FormAfter(s, ops[..i], mallocOk[..i]);
            && FormAfter(s, ops[..i + 1], mallocOk[..i + 1]) == Next(before, ops[i], mallocOk[i])
            && Outcomes(s, ops[..i + 1], mallocOk[..i + 1]) ==
               Outcomes(s, ops[..i], mallocOk[..i]) + [Succeeds(before, ops[i], mallocOk[i])]
    ensures AfterAll(contents, ops[..i + 1], accepted + [ok]) ==
            After(AfterAll(contents, ops[..i], accepted), ops[i], ok)
  {
    assert ops[..i + 1][..i] == ops[..i] && mallocOk[..i + 1][..i] == mallocOk[..i];
    assert (accepted + [ok])[..i] == accepted;
  }

  // ----- what follows from the form -----

  ghost predicate CapsOk(s: Shape) {
    forall j | 0 <= j < |s.vecs| :: CapOk(s.vecs[j])
  }

  ghost predicate AllGranted(mallocOk: seq<bool>) {
    forall i | 0 <= i < |mallocOk| :: mallocOk[i]
  }

  /** Every operation of a run is one its caller may make. */
  ghost predicate AllAllowed(s: Shape, ops: seq<Op>, mallocOk: seq<bool>)
    requires |mallocOk| == |ops|
  {
    forall i | 0 <= i < |ops| :: Allowed(FormAfter(s, ops[..i], mallocOk[..i]), ops[i])
  }

  lemma BytesPositive(n: nat, size: nat)
    requires n > 0 && size > 0
    ensures Bytes(n, size) > 0
  {
  }

  /** One operation keeps the capacities, adds at most one block, and with memory to be had succeeds. */
  lemma NextOk(s: Shape, op: Op, mallocOk: bool)
    requires CapsOk(s) && Allowed(s, op)
    ensures CapsOk(Next(s, op, mallocOk))
    ensures s.level.nblocks <= Next(s, op, mallocOk).level.nblocks <= s.level.nblocks + 1
    ensures 0 < s.level.nblocks < MAX_BLOCKS && mallocOk ==> Succeeds(s, op, mallocOk)
  {
    match op
    case NewStack(size, cap) =>
      if cap > 0 {
        assert cap == cap * Pow2(0);
      }
    case Push(k, _) =>
      var v := s.vecs[k];
      assert CapOk(v);
      DoubledNext(v.firstCap, v.cap);
      BytesPositive(NextCap(v), v.elemSize);
    case _ =>
  }

  /** With every block allocation granted and room for one block an operation, nothing is refused. */
  lemma {:induction false} NothingRefused(s: Shape, ops: seq<Op>, mallocOk: seq<bool>)
    requires |mallocOk| == |ops| && CapsOk(s) && AllAllowed(s, ops, mallocOk) && AllGranted(mallocOk)
    requires 0 < s.level.nblocks && s.level.nblocks + |ops| <= MAX_BLOCKS
    ensures forall i | 0 <= i < |ops| :: Outcomes(s, ops, mallocOk)[i]
    ensures CapsOk(FormAfter(s, ops, mallocOk))
    ensures s.level.nblocks <= FormAfter(s, ops, mallocOk).level.nblocks <= s.level.nblocks + |ops|
    decreases |ops|
  {
    if ops != [] {
      var n := |ops| - 1;
      AllowedFront(s, ops, mallocOk);
      NothingRefused(s, ops[..n], mallocOk[..n]);
      NextOk(FormAfter(s, ops[..n], mallocOk[..n]), ops[n], mallocOk[n]);
    }
  }

  lemma AllowedFront(s: Shape, ops: seq<Op>, mallocOk: seq<bool>)
    requires |mallocOk| == |ops| > 0 && AllAllowed(s, ops, mallocOk)
    ensures AllAllowed(s, ops[..|ops| - 1], mallocOk[..|ops| - 1])
    ensures Allowed(FormAfter(s, ops[..|ops| - 1], mallocOk[..|ops| - 1]), ops[|ops| - 1])
  {
    var n := |ops| - 1;
    forall i | 0 <= i < n ensures Allowed(FormAfter(s, ops[..n][..i], mallocOk[..n][..i]), ops[..n][i]) {
      assert ops[..n][..i] == ops[..i] && mallocOk[..n][..i] == mallocOk[..i];
    }
  }

  // ----- what needs no new block -----

  /** The bytes an operation takes from the arena: nothing for a push that has room. */
  ghost function Demand(s: Shape, op: Op): nat {
    match op
    case NewStack(size, cap) => RoundUp(cap * size)
    case Push(k, _) =>
      if k < |s.vecs| && s.vecs[k].count >= s.vecs[k].cap then
        RoundUp((if s.vecs[k].cap == 0 then s.vecs[k].firstCap else 2 * s.vecs[k].cap) * s.vecs[k].elemSize)
      else 0
    case Strndup(text) => RoundUp(|text| + 1)
    case _ => 0
  }

  ghost function TotalDemand(s: Shape, ops: seq<Op>, mallocOk: seq<bool>): nat
    requires |mallocOk| == |ops|
  {
    if ops == [] then 0
    else
      var n := |ops| - 1;
      TotalDemand(s, ops[..n], mallocOk[..n]) + Demand(FormAfter(s, ops[..n], mallocOk[..n]), ops[n])
  }

  lemma FitsInPlace(a: Fill, n: nat, mallocOk: bool)
    requires a.nblocks > 0 && a.used + RoundUp(n) <= a.blockSize
    ensures Grants(a, n, mallocOk) <==> n > 0
    ensures AfterRequest(a, n, mallocOk) == a.(used := a.used + RoundUp(n))
  {
  }

  /** An operation whose demand fits the current block succeeds there, whatever malloc would do. */
  lemma NextInPlace(s: Shape, op: Op, mallocOk: bool)
    requires CapsOk(s) && Allowed(s, op) && s.level.nblocks > 0
    requires s.level.used + Demand(s, op) <= s.level.blockSize
    ensures Succeeds(s, op, mallocOk)
    ensures Next(s, op, mallocOk).level == s.level.(used := s.level.used + Demand(s, op))
  {
    match op
    case NewStack(size, cap) =>
      BytesIsProduct(cap, size);
      FitsInPlace(s.level, cap * size, mallocOk);
    case Push(k, _) =>
      var v := s.vecs[k];
      assert CapOk(v);
      BytesIsProduct(NextCap(v), v.elemSize);
      BytesPositive(NextCap(v), v.elemSize);
      if v.count >= v.cap {
        FitsInPlace(s.level, Need(v), mallocOk);
      }
    case Strndup(text) =>
      FitsInPlace(s.level, |text| + 1, mallocOk);
    case _ =>
  }

  /** A run whose demands fit the current block together is served there in full: malloc is never needed. */
  lemma {:induction false} RunInPlace(s: Shape, ops: seq<Op>, mallocOk: seq<bool>)
    requires |mallocOk| == |ops| && CapsOk(s) && AllAllowed(s, ops, mallocOk) && s.level.nblocks > 0
    requires s.level.used + TotalDemand(s, ops, mallocOk) <= s.level.blockSize
    ensures forall i | 0 <= i < |ops| :: Outcomes(s, ops, mallocOk)[i]
    ensures CapsOk(FormAfter(s, ops, mallocOk))
    ensures FormAfter(s, ops, mallocOk).level == s.level.(used := s.level.used + TotalDemand(s, ops, mallocOk))
    decreases |ops|
  {
    if ops != [] {
      var n := |ops| - 1;
      AllowedFront(s, ops, mallocOk);
      RunInPlace(s, ops[..n], mallocOk[..n]);
      NextInPlace(FormAfter(s, ops[..n], mallocOk[..n]), ops[n], mallocOk[n]);
      NextOk(FormAfter(s, ops[..n], mallocOk[..n]), ops[n], mallocOk[n]);
    }
  }

  /** The bytes of texts with their terminators, each rounded up to eight. */
  ghost function TextBytes(texts: seq<seq<Byte>>): nat {
    if texts == [] then 0 else TextBytes(texts[..|texts| - 1]) + (|texts[|texts| - 1]| + 8) / 8 * 8
  }

  ghost predicate AllTexts(ops: seq<Op>, texts: seq<seq<Byte>>) {
    |ops| == |texts| && forall i | 0 <= i < |ops| :: ops[i] == Strndup(texts[i])
  }

  lemma {:induction false} DemandOfTexts(s: Shape, ops: seq<Op>, texts: seq<seq<Byte>>, mallocOk: seq<bool>)
    requires |mallocOk| == |ops| && AllTexts(ops, texts)
    ensures TotalDemand(s, ops, mallocOk) == TextBytes(texts)
    decreases |ops|
  {
    if ops != [] {
      DemandOfTexts(s, ops[..|ops| - 1], texts[..|ops| - 1], mallocOk[..|ops| - 1]);
    }
  }

  /** Texts that fit the rest of the current block are all stored, without a new block. */
  lemma TextsInPlace(s: Shape, ops: seq<Op>, texts: seq<seq<Byte>>, mallocOk: seq<bool>)
    requires |mallocOk| == |ops| && AllTexts(ops, texts) && CapsOk(s) && s.level.nblocks > 0
    requires s.level.used + TextBytes(texts) <= s.level.blockSize
    ensures forall i | 0 <= i < |ops| :: Outcomes(s, ops, mallocOk)[i]
    ensures FormAfter(s, ops, mallocOk).level == s.level.(used := s.level.used + TextBytes(texts))
  {
    DemandOfTexts(s, ops, texts, mallocOk);
    RunInPlace(s, ops, mallocOk);
  }

  /** The element size and first capacity of a vector never change. */
  lemma {:induction false} KindsKept(s: Shape, ops: seq<Op>, mallocOk: seq<bool>, k: nat)
    requires |mallocOk| == |ops| && k < |s.vecs|
    ensures k < |FormAfter(s, ops, mallocOk).vecs| && SameKind(FormAfter(s, ops, mallocOk).vecs[k], s.vecs[k])
    decreases |ops|
  {
    if ops != [] {
      KindsKept(s, ops[..|ops| - 1], mallocOk[..|ops| - 1], k);
    }
  }

  /** An array created at any point of a run ends with capacity zero or 32 doubled some number of times. */
  lemma ArrayCapacity(s: Shape, size: nat, ops: seq<Op>, mallocOk: seq<bool>)
    requires |mallocOk| == |ops| && CapsOk(FormAfter(Next(s, NewArray(size), true), ops, mallocOk))
    ensures var form, k := FormAfter(Next(s, NewArray(size), true), ops, mallocOk), |s.vecs|;
            && k < |form.vecs| && form.vecs[k].elemSize == size
            && (form.vecs[k].cap == 0 || Doubled(32, form.vecs[k].cap))
  {
    KindsKept(Next(s, NewArray(size), true), ops, mallocOk, |s.vecs|);
    var form := FormAfter(Next(s, NewArray(size), true), ops, mallocOk);
    assert CapOk(form.vecs[|s.vecs|]);
  }

  // ----- texts -----

  /** What is stored for one text, terminator included. */
  ghost function TextOf(op: Op, accepted: bool): seq<seq<Byte>> {
    if op.Strndup? && accepted then [op.text + [0]] else []
  }

  /** The texts a run stores, in order. */
  ghost function TextsOf(ops: seq<Op>, accepted: seq<bool>): seq<seq<Byte>>
    requires |accepted| == |ops|
  {
    if ops == [] then [] else TextsOf(ops[..|ops| - 1], accepted[..|ops| - 1]) + TextOf(ops[|ops| - 1], accepted[|ops| - 1])
  }

  ghost function Texts(blobs: seq<Blob>): seq<seq<Byte>> {
    if blobs == [] then [] else Texts(blobs[..|blobs| - 1]) + [blobs[|blobs| - 1].bytes]
  }

  lemma TextsSnoc(blobs: seq<Blob>, b: Blob)
    ensures Texts(blobs + [b]) == Texts(blobs) + [b.bytes]
  {
    assert (blobs + [b])[..|blobs|] == blobs;
  }

  lemma OneMoreText(texts: seq<seq<Byte>>, ops: seq<Op>, i: nat, accepted: seq<bool>, ok: bool)
    requires i < |ops| && |accepted| == i
    ensures texts + TextsOf(ops[..i + 1], accepted + [ok]) == texts + TextsOf(ops[..i], accepted) + TextOf(ops[i], ok)
  {
    assert ops[..i + 1][..i] == ops[..i] && (accepted + [ok])[..i] == accepted;
  }

  // ----- one vector alone -----

  predicate Creates(op: Op) {
    op.NewArray? || op.NewStack?
  }

  /** How many vectors there are after a run that starts with n. */
  ghost function CountAfter(n: nat, ops: seq<Op>): nat {
    if ops == [] then n else CountAfter(n, ops[..|ops| - 1]) + if Creates(ops[|ops| - 1]) then 1 else 0
  }

  /** What its own operations make of vector k: nothing before the one that creates it, then a stack. */
  ghost function OwnAfterAll(start: seq<seq<Item>>, k: nat, ops: seq<Op>, accepted: seq<bool>): Option<seq<Item>>
    requires |accepted| == |ops|
  {
    if ops == [] then if k < |start| then Some(start[k]) else None
    else
      var n := |ops| - 1;
      var op, before := ops[n], OwnAfterAll(start, k, ops[..n], accepted[..n]);
      if before.None? then
        if Creates(op) && CountAfter(|start|, ops[..n]) == k then Some([]) else None
      else if op.Push? && op.vec == k && accepted[n] then Some(before.value + [op.item])
      else if op.Pop? && op.vec == k && before.value != [] then Some(before.value[..|before.value| - 1])
      else before
  }

  lemma {:induction false} CountIsLength(start: seq<seq<Item>>, ops: seq<Op>, accepted: seq<bool>)
    requires |accepted| == |ops|
    ensures |AfterAll(start, ops, accepted)| == CountAfter(|start|, ops)
  {
    if ops != [] {
      CountIsLength(start, ops[..|ops| - 1], accepted[..|ops| - 1]);
    }
  }

  /**
   Interleaving does not matter: each vector, whether it was there before the run or created in it,
   ends with exactly what its own operations made of it.
   */
  lemma {:induction false} RunsAreIndependent(start: seq<seq<Item>>, k: nat, ops: seq<Op>, accepted: seq<bool>)
    requires |accepted| == |ops|
    ensures k < |AfterAll(start, ops, accepted)| <==> OwnAfterAll(start, k, ops, accepted).Some?
    ensures k < |AfterAll(start, ops, accepted)| ==>
              OwnAfterAll(start, k, ops, accepted) == Some(AfterAll(start, ops, accepted)[k])
  {
    if ops != [] {
      var n := |ops| - 1;
      RunsAreIndependent(start, k, ops[..n], accepted[..n]);
      CountIsLength(start, ops[..n], accepted[..n]);
    }
  }

  lemma EmptyStore(blocks: seq<seq<Byte>>, r: Region)
    requires InBlocks(blocks, r)
    ensures Store(blocks, r, 0, []) == blocks
  {
    var m := blocks[r.block];
    assert m[..r.offset] + [] + m[r.offset..] == m;
  }
}
