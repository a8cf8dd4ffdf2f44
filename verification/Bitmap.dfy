/** The allocation bitmaps of easy-fs: 4096 bits a block, scanned as 64 `u64` words. */
module Bitmaps {
  import opened Collections
  import opened Blocks
  import opened BlockCaches
  import opened Bits

  type Cache = BlockCacheManager<Block>

  const BLOCK_BITS: nat := 4096
  const WORD64: nat := 64
  const U64_MAX: nat := 0xFFFF_FFFF_FFFF_FFFF

  lemma U64Bound()
    ensures Pow2(64) == U64_MAX + 1
  {
    assert Pow2(10) == 1024;
    assert Pow2(20) == 1024 * Pow2(10);
    assert Pow2(30) == 1024 * Pow2(20);
    assert Pow2(40) == 1024 * Pow2(30);
    assert Pow2(50) == 1024 * Pow2(40);
    assert Pow2(60) == 1024 * Pow2(50);
  }

  /** The `i`-th little-endian u64 of a block. */
  function Word64(b: Block, i: nat): (w: nat)
    requires i < WORD64
    ensures w <= U64_MAX
  {
    Word(b, 2 * i) + U32_LIMIT * Word(b, 2 * i + 1)
  }

  function PutWord64(b: Block, i: nat, w: nat): (r: Block)
    requires i < WORD64 && w <= U64_MAX
    ensures forall j | 0 <= j < WORD64 :: Word64(r, j) == if j == i then w else Word64(b, j)
  {
    PutWord(PutWord(b, 2 * i, w % U32_LIMIT), 2 * i + 1, w / U32_LIMIT)
  }

  predicate BlockBit(b: Block, k: nat)
    requires k < BLOCK_BITS
  {
    Bit(Word64(b, k / 64), k % 64)
  }

  /** Bit `k` of the bitmap that starts at block `start`. */
  predicate BitAt(d: Disk, start: nat, k: nat)
    requires start + k / BLOCK_BITS in d
  {
    BlockBit(d[start + k / BLOCK_BITS], k % BLOCK_BITS)
  }

  ghost predicate OnDisk(d: Disk, start: nat, blocks: nat) {
    forall i | start <= i < start + blocks :: i in d
  }

  /** The allocated bits of a bitmap. */
  ghost function UsedBits(d: Disk, start: nat, blocks: nat): (s: set<nat>)
    requires OnDisk(d, start, blocks)
  {
    set k | 0 <= k < blocks * BLOCK_BITS && BitAt(d, start, k)
  }

  /** Bit `k` of `b` set to `on`, every other bit kept. */
  ghost predicate Flipped(b: Block, r: Block, k: nat, on: bool) {
    forall j | 0 <= j < BLOCK_BITS :: BlockBit(r, j) == if j == k then on else BlockBit(b, j)
  }

  lemma SetInBlock(b: Block, k: nat)
    requires k < BLOCK_BITS && !BlockBit(b, k)
    ensures Word64(b, k / 64) + Pow2(k % 64) <= U64_MAX
    ensures Flipped(b, PutWord64(b, k / 64, Word64(b, k / 64) + Pow2(k % 64)), k, true)
  {
    hide Word64, PutWord64;
    U64Bound();
    SetBit(Word64(b, k / 64), 64, k % 64);
  }

  lemma ClearInBlock(b: Block, k: nat)
    requires k < BLOCK_BITS && BlockBit(b, k)
    ensures Word64(b, k / 64) >= Pow2(k % 64)
    ensures Flipped(b, PutWord64(b, k / 64, Word64(b, k / 64) - Pow2(k % 64)), k, false)
  {
    hide Word64, PutWord64;
    ClearBit(Word64(b, k / 64), k % 64);
  }

  /** The closure of `Bitmap::alloc` on one block: the lowest clear bit, now set. */
  method AllocInBlock(b: Block) returns (pos: Option<nat>, r: Block)
    ensures pos.None? ==> r == b && forall j | 0 <= j < BLOCK_BITS :: BlockBit(b, j)
    ensures pos.Some? ==> pos.value < BLOCK_BITS && !BlockBit(b, pos.value) && Flipped(b, r, pos.value, true)
    ensures pos.Some? ==> forall j | 0 <= j < pos.value :: BlockBit(b, j)
  {
    hide Word64, PutWord64, Bit, Pow2, TrailingOnes;
    U64Bound();
    var i := 0;
    while i < WORD64 && Word64(b, i) == U64_MAX
      invariant i <= WORD64
      invariant forall j | 0 <= j < 64 * i :: BlockBit(b, j)
    {
      forall j | 64 * i <= j < 64 * i + 64 ensures BlockBit(b, j) {
        AllOnes(64, j % 64);
      }
      i := i + 1;
    }
    if i == WORD64 {
      return None, b;
    }
    var w := Word64(b, i);
    var inner := TrailingOnes(w);
    TrailingOnesIsLowestZero(w, 64);
    pos := Some(64 * i + inner);
    SetInBlock(b, 64 * i + inner);
    r := PutWord64(b, i, w + Pow2(inner));
  }

  lemma FlipOnDisk(d: Disk, start: nat, blocks: nat, k: nat, r: Block, on: bool)
    requires OnDisk(d, start, blocks) && k < blocks * BLOCK_BITS
    requires Flipped(d[start + k / BLOCK_BITS], r, k % BLOCK_BITS, on)
    ensures var e := d[start + k / BLOCK_BITS := r];
            && OnDisk(e, start, blocks)
            && UsedBits(e, start, blocks) == if on then UsedBits(d, start, blocks) + {k} else UsedBits(d, start, blocks) - {k}
  {
    hide BlockBit;
    var e := d[start + k / BLOCK_BITS := r];
    forall j | 0 <= j < blocks * BLOCK_BITS ensures BitAt(e, start, j) == if j == k then on else BitAt(d, start, j) {
      if j / BLOCK_BITS == k / BLOCK_BITS {
        assert BlockBit(r, j % BLOCK_BITS) == if j == k then on else BitAt(d, start, j);
      }
    }
  }

  class Bitmap {
    const startBlock: nat
    const blocks: nat

    constructor (startBlock: nat, blocks: nat)
      ensures this.startBlock == startBlock && this.blocks == blocks
    {
      this.startBlock, this.blocks := startBlock, blocks;
    }

    /** `alloc`: allocates the lowest free bit, touching no block but the one that holds it; `None` only when
        every bit is allocated. */
    method Alloc(cache: Cache) returns (pos: Option<nat>)
      requires cache.Usable() && OnDisk(cache.logical, startBlock, blocks)
      modifies cache
      ensures cache.Usable() && OnDisk(cache.logical, startBlock, blocks)
      ensures pos.None? ==> cache.logical == old(cache.logical)
                            && forall k | 0 <= k < blocks * BLOCK_BITS :: k in UsedBits(cache.logical, startBlock, blocks)
      ensures pos.Some? ==>
                && pos.value < blocks * BLOCK_BITS
                && pos.value !in old(UsedBits(cache.logical, startBlock, blocks))
                && (forall k | 0 <= k < pos.value :: k in old(UsedBits(cache.logical, startBlock, blocks)))
                && UsedBits(cache.logical, startBlock, blocks) == old(UsedBits(cache.logical, startBlock, blocks)) + {pos.value}
                && AgreeOutside(old(cache.logical), cache.logical, {startBlock + pos.value / BLOCK_BITS})
    {
      hide QueueOk, Coherent, Pinned, BlockBit;
      ghost var d := cache.logical;
      var i := 0;
      while i < blocks
        invariant i <= blocks && cache.Usable() && cache.logical == d
        invariant forall k | 0 <= k < i * BLOCK_BITS :: BitAt(d, startBlock, k)
      {
        var b := cache.Load(startBlock + i);
        var inBlock, r := AllocInBlock(b);
        if inBlock.Some? {
          var k := i * BLOCK_BITS + inBlock.value;
          assert k / BLOCK_BITS == i && k % BLOCK_BITS == inBlock.value;
          forall j | 0 <= j < k ensures BitAt(d, startBlock, j) {
            if j >= i * BLOCK_BITS { assert j / BLOCK_BITS == i && j % BLOCK_BITS < inBlock.value; }
          }
          FlipOnDisk(d, startBlock, blocks, k, r, true);
          cache.Store(startBlock + i, r);
          return Some(k);
        }
        forall j | i * BLOCK_BITS <= j < (i + 1) * BLOCK_BITS ensures BitAt(d, startBlock, j) {
          assert j / BLOCK_BITS == i;
        }
        i := i + 1;
      }
      pos := None;
    }

    /** `dealloc`: clears an allocated bit; the assertion that it was set is the precondition. */
    method Dealloc(bit: nat, cache: Cache)
      requires cache.Usable() && OnDisk(cache.logical, startBlock, blocks)
      requires bit in UsedBits(cache.logical, startBlock, blocks)
      modifies cache
      ensures cache.Usable() && OnDisk(cache.logical, startBlock, blocks)
      ensures UsedBits(cache.logical, startBlock, blocks) == old(UsedBits(cache.logical, startBlock, blocks)) - {bit}
      ensures AgreeOutside(old(cache.logical), cache.logical, {startBlock + bit / BLOCK_BITS})
    {
      hide QueueOk, Coherent, Pinned, Word64, PutWord64, Bit, Pow2;
      var blockPos, inBlock := bit / BLOCK_BITS, bit % BLOCK_BITS;
      var b := cache.Load(startBlock + blockPos);
      ClearInBlock(b, inBlock);
      var r := PutWord64(b, inBlock / 64, Word64(b, inBlock / 64) - Pow2(inBlock % 64));
      FlipOnDisk(cache.logical, startBlock, blocks, bit, r, false);
      cache.Store(startBlock + blockPos, r);
    }
  }
}
