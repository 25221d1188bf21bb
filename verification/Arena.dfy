/**
 The bump arena: block growth, 8-byte rounding, and the regions it has handed out. Blocks are
 held as byte sequences so that stores into a region can be reasoned about. Sizes are unbounded:
 requests so large that `size_t` arithmetic wraps are outside the model.
 */
module Arena {
  import opened Prelude

  const MAX_BLOCKS: nat := 256
  const DEFAULT_BLOCK_SIZE: nat := 64 * 1024

  /** `size` bytes from `offset` in block `block`. A block starts at an address `malloc` aligned. */
  datatype Region = Region(block: nat, offset: nat, size: nat) {
    predicate Meets(r: Region) {
      block == r.block && offset < r.offset + r.size && r.offset < offset + size
    }
  }

  /** `(n + 7) & ~7` */
  function RoundUp(n: nat): (r: nat)
    ensures r % 8 == 0 && n <= r < n + 8
  {
    (n + 7) / 8 * 8
  }

  function Total(blocks: seq<seq<Byte>>): nat {
    if blocks == [] then 0 else Total(blocks[..|blocks| - 1]) + |blocks[|blocks| - 1]|
  }

  ghost predicate InBlocks(blocks: seq<seq<Byte>>, r: Region) {
    r.block < |blocks| && r.offset + r.size <= |blocks[r.block]|
  }

  /** A handed-out region: aligned, inside one block, and behind the bump pointer. */
  ghost predicate HandedOut(blocks: seq<seq<Byte>>, used: nat, r: Region) {
    && r.size > 0
    && r.offset % 8 == 0
    && InBlocks(blocks, r)
    && (r.block == |blocks| - 1 ==> r.offset + r.size <= used)
  }

  /** The bytes of a region's first n bytes. */
  ghost function Load(blocks: seq<seq<Byte>>, r: Region, n: nat): seq<Byte>
    requires InBlocks(blocks, r) && n <= r.size
  {
    blocks[r.block][r.offset..r.offset + n]
  }

  /** `memcpy` of data to byte i of a region. */
  function Store(blocks: seq<seq<Byte>>, r: Region, i: nat, data: seq<Byte>): (b: seq<seq<Byte>>)
    requires r.block < |blocks| && r.offset + i + |data| <= |blocks[r.block]|
    ensures |b| == |blocks| && forall k | 0 <= k < |b| :: |b[k]| == |blocks[k]|
  {
    var m, at := blocks[r.block], r.offset + i;
    blocks[r.block := m[..at] + data + m[at + |data|..]]
  }

  /** A store inside one region is invisible in every region it does not meet. */
  lemma StoreElsewhere(blocks: seq<seq<Byte>>, r: Region, i: nat, data: seq<Byte>, other: Region, n: nat)
    requires InBlocks(blocks, r) && i + |data| <= r.size && InBlocks(blocks, other) && n <= other.size
    requires !r.Meets(other)
    ensures InBlocks(Store(blocks, r, i, data), other)
    ensures Load(Store(blocks, r, i, data), other, n) == Load(blocks, other, n)
  {
  }

  /** A store at the end of what a region holds extends it. */
  lemma StoreAtEnd(blocks: seq<seq<Byte>>, r: Region, i: nat, data: seq<Byte>)
    requires InBlocks(blocks, r) && i + |data| <= r.size
    ensures InBlocks(Store(blocks, r, i, data), r)
    ensures Load(Store(blocks, r, i, data), r, i + |data|) == Load(blocks, r, i) + data
  {
  }

  lemma {:induction false} TotalSame(a: seq<seq<Byte>>, b: seq<seq<Byte>>)
    requires |a| == |b| && forall k | 0 <= k < |a| :: |a[k]| == |b[k]|
    ensures Total(a) == Total(b)
  {
    if a != [] {
      TotalSame(a[..|a| - 1], b[..|b| - 1]);
    }
  }

  /** How full an arena is: its number of blocks, the size of the last one and the bytes used of it. */
  datatype Fill = Fill(nblocks: nat, blockSize: nat, used: nat)

  /** A request is met unless it is empty, the arena has no block, or a needed new block is refused. */
  predicate Grants(a: Fill, n: nat, mallocOk: bool) {
    n > 0 && a.nblocks > 0 && (a.used + RoundUp(n) <= a.blockSize || (a.nblocks < MAX_BLOCKS && mallocOk))
  }

  /** The arena after a request: the rest of the block is used, or a block of at least twice the size. */
  function AfterRequest(a: Fill, n: nat, mallocOk: bool): Fill {
    var size := RoundUp(n);
    if !Grants(a, n, mallocOk) then a
    else if a.used + size <= a.blockSize then a.(used := a.used + size)
    else Fill(a.nblocks + 1, if 2 * a.blockSize < size then size else 2 * a.blockSize, size)
  }

  class CBMArena {
    var blocks: seq<seq<Byte>>
    var blockSize: nat
    var used: nat
    ghost var regions: seq<Region>

    ghost predicate Valid()
      reads this
    {
      && |blocks| <= MAX_BLOCKS
      && used % 8 == 0
      && (|blocks| > 0 ==> |blocks[|blocks| - 1]| == blockSize && used <= blockSize)
      && (|blocks| > 0 ==> Total(blocks) + DEFAULT_BLOCK_SIZE <= 2 * blockSize)
      && (forall i | 0 <= i < |regions| :: HandedOut(blocks, used, regions[i]))
      && (forall i, j | 0 <= i < j < |regions| :: !regions[i].Meets(regions[j]))
    }

    /** `cbm_arena_init`; `mallocOk` says whether the first block could be allocated. */
    constructor (mallocOk: bool)
      ensures Valid() && regions == [] && blockSize == 65536 && used == 0
      ensures |blocks| == if mallocOk then 1 else 0
    {
      blockSize, used, regions := DEFAULT_BLOCK_SIZE, 0, [];
      if mallocOk {
        var block: seq<Byte> := seq(DEFAULT_BLOCK_SIZE, _ => 0);
        blocks := [block];
        assert Total([block][..0]) == 0;
      } else {
        blocks := [];
      }
    }

    /** `arena_grow` */
    method Grow(minSize: nat, mallocOk: bool) returns (ok: bool)
      requires Valid() && |blocks| > 0
      modifies this
      ensures Valid() && regions == old(regions)
      ensures ok <==> old(|blocks|) < MAX_BLOCKS && mallocOk
      ensures !ok ==> blocks == old(blocks) && blockSize == old(blockSize) && used == old(used)
      ensures ok ==> |blocks| == old(|blocks|) + 1 && old(blocks) <= blocks && used == 0
      ensures ok ==> blockSize == if 2 * old(blockSize) < minSize then minSize else 2 * old(blockSize)
    {
      if |blocks| >= MAX_BLOCKS || !mallocOk {
        return false;
      }
      var newSize := blockSize * 2;
      if newSize < minSize {
        newSize := minSize;
      }
      var block: seq<Byte> := seq(newSize, _ => 0);
      ghost var before := blocks;
      blocks := blocks + [block];
      blockSize, used := newSize, 0;
      assert blocks[..|blocks| - 1] == before;
      return true;
    }

    ghost function Level(): Fill
      reads this
    {
      Fill(|blocks|, blockSize, used)
    }

    /** `cbm_arena_alloc` */
    method Alloc(n: nat, mallocOk: bool) returns (r: Option<Region>)
      requires Valid()
      modifies this
      ensures Valid()
      ensures r.None? ==> blocks == old(blocks) && blockSize == old(blockSize) && used == old(used) && regions == old(regions)
      ensures r.Some? ==> regions == old(regions) + [r.value] && r.value.size == RoundUp(n)
      ensures r.Some? ==> forall i | 0 <= i < |old(regions)| :: !r.value.Meets(old(regions)[i])
      ensures old(blocks) <= blocks
      ensures r.Some? <==> Grants(old(Level()), n, mallocOk)
      ensures Level() == AfterRequest(old(Level()), n, mallocOk)
      // a request that fits is met in the current block, whatever malloc would do
      ensures n > 0 && old(|blocks|) > 0 && old(used) + RoundUp(n) <= old(blockSize) ==>
                && blocks == old(blocks) && blockSize == old(blockSize) && used == old(used) + RoundUp(n)
                && r == Some(Region(old(|blocks|) - 1, old(used), RoundUp(n)))
      // one that does not is met at the start of a new block, or refused
      ensures n > 0 && old(|blocks|) > 0 && old(used) + RoundUp(n) > old(blockSize) && old(|blocks|) < 256 && mallocOk ==>
                && |blocks| == old(|blocks|) + 1 && used == RoundUp(n)
                && blockSize == (if 2 * old(blockSize) < RoundUp(n) then RoundUp(n) else 2 * old(blockSize))
                && r == Some(Region(old(|blocks|), 0, RoundUp(n)))
      ensures r.None? <==> n == 0 || old(|blocks|) == 0
                           || (old(used) + RoundUp(n) > old(blockSize) && !(old(|blocks|) < 256 && mallocOk))
    {
      if n == 0 {
        return None;
      }
      var size := RoundUp(n);
      if |blocks| == 0 {
        return None;
      }
      if used + size > blockSize {
        var grown := Grow(size, mallocOk);
        if !grown {
          return None;
        }
      }
      var region := Bump(size);
      return Some(region);
    }

    /** Hand out the next `size` bytes of the current block. */
    method Bump(size: nat) returns (r: Region)
      requires Valid() && |blocks| > 0 && 0 < size && size % 8 == 0 && used + size <= blockSize
      modifies this`used, this`regions
      ensures r == Region(|blocks| - 1, old(used), size)
      ensures Valid() && regions == old(regions) + [r] && used == old(used) + size
      ensures forall i | 0 <= i < |old(regions)| :: !r.Meets(old(regions)[i])
    {
      r := Region(|blocks| - 1, used, size);
      used := used + size;
      regions := regions + [r];
    }

    /** A store by the owner of a region. */
    method Write(r: Region, i: nat, data: seq<Byte>)
      requires Valid() && InBlocks(blocks, r) && i + |data| <= r.size
      modifies this`blocks
      ensures Valid() && blocks == Store(old(blocks), r, i, data) && Level() == old(Level())
    {
      TotalSame(blocks, Store(blocks, r, i, data));
      blocks := Store(blocks, r, i, data);
    }

    /** `cbm_arena_destroy`: every block is freed and every region is gone. */
    method Destroy()
      requires Valid()
      modifies this
      ensures Valid() && blocks == [] && regions == [] && blockSize == 0 && used == 0
    {
      blocks, blockSize, used, regions := [], 0, 0, [];
    }
  }
}
