/** `DiskInode`: the operations of an inode over the block cache. */
module DiskInodes {
  import opened Collections
  import opened Blocks
  import opened BlockCaches
  import opened Layout

  type Cache = BlockCacheManager<Block>

  /** End of the part of `start..end` that lies in the block of `start`. */
  function ChunkEnd(start: nat, end: nat): (e: nat)
    requires start <= end
    ensures start <= e <= end && start % BLOCK_SZ + (e - start) <= BLOCK_SZ
    ensures e < end ==> start < e && e / BLOCK_SZ == start / BLOCK_SZ + 1
    ensures start < end ==> start < e
  {
    Min((start / BLOCK_SZ + 1) * BLOCK_SZ, end)
  }

  /** Sizes a growing file takes on. */
  ghost predicate Rising(sizes: seq<nat>) {
    (forall i | 0 <= i < |sizes| :: sizes[i] <= MAX_SIZE) && forall i, j | 0 <= i <= j < |sizes| :: sizes[i] <= sizes[j]
  }

  class DiskInode {
    var size: nat
    var direct: seq<nat>
    var indirect1: nat
    var indirect2: nat
    var isDir: bool

    ghost function Rec(): Inode
      reads this
    {
      Inode(size, direct, indirect1, indirect2, isDir)
    }

    constructor (ino: Inode)
      ensures Rec() == ino
    {
      size, direct, indirect1, indirect2, isDir := ino.size, ino.direct, ino.indirect1, ino.indirect2, ino.isDir;
    }

    /** `get_block_id`: three ways to look a block up. */
    method GetBlockId(inner: nat, cache: Cache) returns (id: nat)
      requires cache.Usable() && |direct| == INODE_DIRECT_COUNT && Reachable(Rec(), cache.logical, inner)
      modifies cache`device, cache`copies, cache`queue, cache`detached
      ensures cache.Usable() && id == Looked(Rec(), cache.logical, inner)
    {
      hide QueueOk, Coherent, Pinned, Word;
      if inner < INODE_DIRECT_COUNT {
        id := direct[inner];
      } else if inner < INDIRECT1_BOUND {
        var b := cache.Load(indirect1);
        id := Word(b, inner - INODE_DIRECT_COUNT);
      } else {
        var last := inner - INDIRECT1_BOUND;
        var b := cache.Load(indirect2);
        b := cache.Load(Word(b, last / INODE_INDIRECT1_COUNT));
        id := Word(b, last % INODE_INDIRECT1_COUNT);
      }
    }

    /** The lookup of a data block of the file returns the id supplied for it. */
    lemma PathOfBlock(k: nat, d: Disk)
      requires Tree(Rec(), d) && k < DataBlocks(size)
      ensures |direct| == INODE_DIRECT_COUNT && DataPos(k) < |Owned(Rec(), d)| && Owned(Rec(), d)[DataPos(k)] in d
      ensures Reachable(Rec(), d, k) && Looked(Rec(), d, k) == Owned(Rec(), d)[DataPos(k)]
    {
      hide Tree, Owned, DataPos, Reachable, Looked;
      PathOf(Rec(), d, k);
    }

    static lemma PathOf(ino: Inode, d: Disk, k: nat)
      requires Tree(ino, d) && k < DataBlocks(ino.size)
      ensures |ino.direct| == INODE_DIRECT_COUNT && DataPos(k) < |Owned(ino, d)| && Owned(ino, d)[DataPos(k)] in d
      ensures Reachable(ino, d, k) && Looked(ino, d, k) == Owned(ino, d)[DataPos(k)]
    {
      hide Word, Tree, Owned, SlotId, Parent, Index;
      TreeShaped(ino, d);
      TotalForMonotone(k + 1, DataBlocks(ino.size));
      var p := DataPos(k);
      OwnedAt(ino, d, p);
      if 28 <= k < 156 {
        DataPlace(k);
        OwnedAt(ino, d, 28);
      } else if k >= 156 {
        DataPlace(k);
        var a := (k - 156) / 128;
        OwnedAt(ino, d, 157);
        LowBlock(ino, d, a);
      }
    }

    /** `increase_size`: the supplied ids are appended to the file's blocks, exactly as many as needed. */
    method IncreaseSize(newSize: nat, newBlocks: seq<nat>, cache: Cache)
      requires cache.Usable() && Tree(Rec(), cache.logical) && size <= newSize <= MAX_SIZE
      requires |newBlocks| == TotalBlocks(newSize) - TotalBlocks(size)
      requires Supply(cache.logical, Owned(Rec(), cache.logical) + newBlocks) && Storable(Rec())
      modifies this`size, this`direct, this`indirect1, this`indirect2, cache
      ensures cache.Usable() && Tree(Rec(), cache.logical)
      ensures size == newSize && Storable(Rec())
      ensures Owned(Rec(), cache.logical) == old(Owned(Rec(), cache.logical)) + newBlocks
      ensures Grown(Rec(), old(cache.logical), cache.logical, Owned(Rec(), cache.logical), TotalBlocks(newSize))
      ensures FieldsKept(old(Rec()), Rec())
    {
      hide QueueOk, Coherent, Pinned, Grown, SlotId, Supply, Tree;
      ghost var d0 := cache.logical;
      TreeShaped(Rec(), d0);
      ghost var all := Owned(Rec(), d0) + newBlocks;
      ghost var base := TotalBlocks(size);
      var current := DataBlocks(size);
      TotalForMonotone(0, DataBlocks(newSize));
      assert AreU32(all) by { forall p | 0 <= p < |all| ensures all[p] < U32_LIMIT { SupplyAt(d0, all, p); } }
      Begin(newSize, d0, newBlocks);
      size := newSize;
      var total := DataBlocks(size);
      var next;
      current, next := FillDirect(current, total, base, newBlocks, all, d0);
      if total > INODE_DIRECT_COUNT {
        GrowIndirect(current, total, next, base, newBlocks, all, d0, cache);
      }
      Finish(d0, cache.logical, all);
    }

    /** The part of `increase_size` past the direct pointers. */
    method GrowIndirect(start: nat, blocks: nat, first: nat, ghost base: nat, newBlocks: seq<nat>,
                        ghost all: seq<nat>, ghost d0: Disk, cache: Cache)
      requires cache.Usable() && cache.logical == d0 && Supply(d0, all) && base <= |all| && newBlocks == all[base..]
      requires 28 <= start <= blocks <= MAX_BLOCKS && 28 < blocks && TotalFor(blocks) == |all|
      requires first <= |newBlocks| && base + first == TotalFor(start) && (start > 28 ==> first == 0)
      requires |direct| == INODE_DIRECT_COUNT && Grown(Rec(), d0, d0, all, base + first)
      requires AreU32(all) && indirect1 < U32_LIMIT && indirect2 < U32_LIMIT
      modifies this`indirect1, this`indirect2, cache
      ensures cache.Usable() && indirect1 < U32_LIMIT && indirect2 < U32_LIMIT
      ensures blocks <= INDIRECT1_BOUND ==> indirect2 == old(indirect2)
      ensures Grown(Rec(), d0, cache.logical, all, |all|)
    {
      hide QueueOk, Coherent, Pinned, Grown, SlotId, Supply;
      assert Distinct(all) by { SupplyDistinct(d0, all); }
      var current, total, next := start, blocks, first;
      // alloc indirect1
      if current == INODE_DIRECT_COUNT {
        GrowInRecord(Rec(), Rec().(indirect1 := all[28]), d0, d0, all, 28);
        indirect1 := newBlocks[next];
        next := next + 1;
      }
      current := current - INODE_DIRECT_COUNT;
      total := total - INODE_DIRECT_COUNT;
      // fill indirect1
      next := FillIndirect1(current, total, next, base, newBlocks, all, d0, cache);
      if current < Min(total, INODE_INDIRECT1_COUNT) { current := Min(total, INODE_INDIRECT1_COUNT); }
      if total <= INODE_INDIRECT1_COUNT { return; }
      // alloc indirect2
      if current == INODE_INDIRECT1_COUNT {
        GrowInRecord(Rec(), Rec().(indirect2 := all[157]), d0, cache.logical, all, 157);
        indirect2 := newBlocks[next];
        next := next + 1;
      }
      current := current - INODE_INDIRECT1_COUNT;
      total := total - INODE_INDIRECT1_COUNT;
      FillIndirect2(current, total, next, base, newBlocks, all, d0, cache);
    }

    static lemma SupplyDistinct(d: Disk, all: seq<nat>)
      requires Supply(d, all)
      ensures Distinct(all)
    {
    }

    lemma Begin(newSize: nat, d: Disk, newBlocks: seq<nat>)
      requires Tree(Rec(), d) && |Owned(Rec(), d) + newBlocks| <= MAX_TOTAL
      ensures Grown(Rec().(size := newSize), d, d, Owned(Rec(), d) + newBlocks, TotalBlocks(size))
    {
      var all := Owned(Rec(), d) + newBlocks;
      forall q | 0 <= q < TotalBlocks(size) ensures SlotId(Rec().(size := newSize), d, q) == all[q] {
        SlotIgnoresSize(Rec(), Rec().(size := newSize), d, q);
        assert all[q] == Owned(Rec(), d)[q];
      }
    }

    static lemma {:induction false} SlotIgnoresSize(a: Inode, b: Inode, d: Disk, q: nat)
      requires |a.direct| == INODE_DIRECT_COUNT && b == a.(size := b.size) && q < MAX_TOTAL
      ensures SlotId(b, d, q) == SlotId(a, d, q)
    {
      if InBlock(q) { SlotIgnoresSize(a, b, d, Parent(q)); }
    }

    lemma Finish(d0: Disk, d: Disk, all: seq<nat>)
      requires Shaped(Rec()) && |all| == TotalBlocks(size) && Supply(d0, all)
      requires Grown(Rec(), d0, d, all, |all|)
      ensures Tree(Rec(), d) && Owned(Rec(), d) == all
    {
      assert forall p | 0 <= p < |all| :: Owned(Rec(), d)[p] == all[p];
    }

    /** One pointer of one cached pointer block is overwritten in place. */
    method PutPointer(block: nat, k: nat, id: nat, cache: Cache)
      requires cache.Usable() && block in cache.logical && k < WORDS && id < U32_LIMIT
      modifies cache
      ensures cache.Usable()
      ensures cache.logical == old(cache.logical)[block := PutWord(old(cache.logical)[block], k, id)]
    {
      hide QueueOk, Coherent, Pinned, PutWord;
      var b := cache.Load(block);
      cache.Store(block, PutWord(b, k, id));
    }

    /** The loop that fills the direct pointers. */
    method FillDirect(start: nat, total: nat, ghost base: nat, newBlocks: seq<nat>,
                      ghost all: seq<nat>, ghost d0: Disk) returns (current: nat, next: nat)
      requires base <= |all| && newBlocks == all[base..] && |all| <= MAX_TOTAL
      requires start <= total && TotalFor(start) == base && TotalFor(total) == |all|
      requires AreU32(all) && AreU32(direct)
      requires |direct| == INODE_DIRECT_COUNT && Grown(Rec(), d0, d0, all, base)
      modifies this`direct
      ensures |direct| == INODE_DIRECT_COUNT && next <= |newBlocks| && AreU32(direct)
      ensures current == if start < 28 then Min(total, 28) else start
      ensures forall k | total <= k < INODE_DIRECT_COUNT :: direct[k] == old(direct)[k]
      ensures base + next == TotalFor(current) && (start >= 28 ==> next == 0)
      ensures Grown(Rec(), d0, d0, all, base + next)
    {
      hide Grown, SlotId;
      current, next := start, 0;
      while current < Min(total, INODE_DIRECT_COUNT)
        invariant start <= current <= total && next <= |newBlocks| && |direct| == INODE_DIRECT_COUNT && AreU32(direct)
        invariant if start < 28 then current <= 28 && base + next == current else current == start && next == 0
        invariant forall k | total <= k < INODE_DIRECT_COUNT :: direct[k] == old(direct)[k]
        invariant Grown(Rec(), d0, d0, all, base + next)
      {
        GrowInRecord(Rec(), Rec().(direct := direct[current := all[current]]), d0, d0, all, current);
        direct := direct[current := newBlocks[next]];
        next := next + 1;
        current := current + 1;
      }
    }

    /** The loop that fills the single-indirect block. */
    method FillIndirect1(start: nat, total: nat, first: nat, ghost base: nat, newBlocks: seq<nat>,
                         ghost all: seq<nat>, ghost d0: Disk, cache: Cache) returns (next: nat)
      requires cache.Usable() && Supply(d0, all) && base <= |all| && newBlocks == all[base..]
      requires start <= total && 0 < total && first <= |newBlocks|
      requires TotalFor(total + 28) == |all|
      requires if start < 128 then base + first == 29 + start
               else base + first == TotalFor(start + 28) && (start > 128 ==> first == 0)
      requires Grown(Rec(), d0, cache.logical, all, base + first)
      modifies cache
      ensures cache.Usable() && first <= next <= |newBlocks|
      ensures if start < 128 then base + next == 29 + Min(total, 128) else next == first
      ensures Grown(Rec(), d0, cache.logical, all, base + next)
    {
      hide QueueOk, Coherent, Pinned, PutWord, Grown;
      var current := start;
      next := first;
      while current < Min(total, INODE_INDIRECT1_COUNT)
        invariant start <= current <= total && first <= next <= |newBlocks|
        invariant if start < 128 then current <= 128 && base + next == 29 + current
                  else current == start && next == first
        invariant cache.Usable()
        invariant Grown(Rec(), d0, cache.logical, all, base + next)
      {
        ghost var p := base + next;
        GrownAt(Rec(), d0, cache.logical, all, p, 28);
        assert InBlock(p) && Parent(p) == 28 && Index(p) == current;
        GrowInBlock(Rec(), d0, cache.logical, all, p);
        PutPointer(indirect1, current, newBlocks[next], cache);
        next := next + 1;
        current := current + 1;
      }
    }

    /** One round of the double-indirect loop: a new low-level block if `b0` is 0, then data block (a0, b0). */
    method FillOne(a0: nat, b0: nat, first: nat, ghost base: nat, newBlocks: seq<nat>,
                   ghost all: seq<nat>, ghost d0: Disk, cache: Cache) returns (next: nat)
      requires cache.Usable() && Supply(d0, all) && base <= |all| && newBlocks == all[base..]
      requires a0 < 128 && b0 < 128 && base + first == 158 + 129 * a0 + (if b0 == 0 then 0 else b0 + 1)
      requires 158 + 129 * a0 + b0 + 1 < |all|
      requires Grown(Rec(), d0, cache.logical, all, base + first)
      modifies cache
      ensures cache.Usable()
      ensures base + next == 158 + 129 * a0 + b0 + 2
      ensures Grown(Rec(), d0, cache.logical, all, base + next)
    {
      hide QueueOk, Coherent, Pinned, Word, PutWord, Grown, SlotId, Supply, Parent, Index;
      next := first;
      ghost var s := 158 + 129 * a0;
      PlacesOfRound(a0, b0);
      GrownAt(Rec(), d0, cache.logical, all, base + next, 157);
      if b0 == 0 {
        GrowInBlock(Rec(), d0, cache.logical, all, s);
        SupplyAt(d0, all, s);
        PutPointer(indirect2, a0, newBlocks[next], cache);
        next := next + 1;
      }
      GrownAt(Rec(), d0, cache.logical, all, base + next, s);
      GrowInBlock(Rec(), d0, cache.logical, all, base + next);
      SupplyAt(d0, all, base + next);
      var b := cache.Load(indirect2);
      PutPointer(Word(b, a0), b0, newBlocks[next], cache);
      next := next + 1;
    }

    /** The loop that fills the double-indirect tree from (a0, b0) up to (a1, b1). */
    method FillIndirect2(current: nat, total: nat, first: nat, ghost base: nat, newBlocks: seq<nat>,
                         ghost all: seq<nat>, ghost d0: Disk, cache: Cache)
      requires cache.Usable() && Supply(d0, all) && base <= |all| && newBlocks == all[base..]
      requires current <= total <= INODE_INDIRECT2_COUNT && 0 < total && first <= |newBlocks|
      requires TotalFor(total + 156) == |all|
      requires base + first == if current == 0 then 158 else TotalFor(current + 156)
      requires Grown(Rec(), d0, cache.logical, all, base + first)
      modifies cache
      ensures cache.Usable()
      ensures Grown(Rec(), d0, cache.logical, all, |all|)
    {
      hide QueueOk, Coherent, Pinned, Grown;
      var a0, b0 := current / INODE_INDIRECT1_COUNT, current % INODE_INDIRECT1_COUNT;
      var a1, b1 := total / INODE_INDIRECT1_COUNT, total % INODE_INDIRECT1_COUNT;
      var next := first;
      TotalForIndirect2(a1, b1);
      if current > 0 { TotalForIndirect2(a0, b0); }
      while a0 < a1 || (a0 == a1 && b0 < b1)
        invariant 0 <= b0 < 128 && 0 <= a0 && 128 * a0 + b0 <= total
        invariant base + next == 158 + 129 * a0 + (if b0 == 0 then 0 else b0 + 1)
        invariant cache.Usable()
        invariant Grown(Rec(), d0, cache.logical, all, base + next)
        decreases total - (128 * a0 + b0)
      {
        next := FillOne(a0, b0, next, base, newBlocks, all, d0, cache);
        b0 := b0 + 1;
        if b0 == INODE_INDIRECT1_COUNT {
          b0 := 0;
          a0 := a0 + 1;
        }
      }
    }

    /** `clear_size`: the file is empty afterwards and every block it ever was given is returned,
        in supply order, pointer blocks included. */
    method ClearSize(cache: Cache) returns (v: seq<nat>)
      requires cache.Usable() && Tree(Rec(), cache.logical) && Storable(Rec())
      modifies this`size, this`direct, this`indirect1, this`indirect2
      modifies cache`device, cache`copies, cache`queue, cache`detached
      ensures cache.Usable()
      ensures Cleared(old(Rec()), Rec()) && Storable(Rec())
      ensures v == old(Owned(Rec(), cache.logical))
    {
      hide QueueOk, Coherent, Pinned, SlotId, Tree, Distinct;
      ghost var d, ino := cache.logical, Rec();
      TreeShaped(ino, d);
      ghost var own := Owned(ino, d);
      var blocks := DataBlocks(size);
      size := 0;
      forall k | 0 <= k < Min(blocks, 28) ensures own[k] == direct[k] {
        OwnedAt(ino, d, k);
      }
      v := ClearDirect(blocks, own);
      if blocks <= INODE_DIRECT_COUNT {
        assert own[..blocks] == own;
        return;
      }
      OwnedAt(ino, d, 28);
      v := v + [indirect1];
      blocks := blocks - INODE_DIRECT_COUNT;
      assert v == own[..29];
      v := PushEntries(indirect1, 28, Min(blocks, INODE_INDIRECT1_COUNT), v, ino, cache);
      indirect1 := 0;
      if blocks <= INODE_INDIRECT1_COUNT {
        assert own[..29 + blocks] == own;
        return;
      }
      OwnedAt(ino, d, 157);
      v := v + [indirect2];
      blocks := blocks - INODE_INDIRECT1_COUNT;
      assert v == own[..158];
      v := ClearIndirect2(blocks, v, ino, cache);
      indirect2 := 0;
    }

    /** Whatever the steps by which a file grows, one `clear_size` returns exactly the ids ever supplied. */
    method GrowThenClear(sizes: seq<nat>, supply: seq<nat>, cache: Cache) returns (v: seq<nat>)
      requires cache.Usable() && Tree(Rec(), cache.logical) && Storable(Rec()) && size == 0
      requires Rising(sizes) && Supply(cache.logical, supply)
      requires |supply| == if sizes == [] then 0 else TotalBlocks(sizes[|sizes| - 1])
      modifies this`size, this`direct, this`indirect1, this`indirect2, cache
      ensures cache.Usable() && size == 0 && Storable(Rec())
      ensures v == supply
    {
      hide QueueOk, Coherent, Pinned, Tree, Supply, Grown, Storable, TotalBlocks;
      NoBlocks();
      TreeShaped(Rec(), cache.logical);
      ghost var keys := cache.logical.Keys;
      for i := 0 to |sizes|
        invariant cache.Usable() && Tree(Rec(), cache.logical) && Storable(Rec()) && Shaped(Rec())
        invariant size == if i == 0 then 0 else sizes[i - 1]
        invariant TotalBlocks(size) <= |supply| && Supply(cache.logical, supply)
        invariant Owned(Rec(), cache.logical) == supply[..TotalBlocks(size)]
      {
        RisingBlocks(sizes, size, i);
        var next := supply[TotalBlocks(size)..TotalBlocks(sizes[i])];
        assert supply[..TotalBlocks(size)] + next == supply[..TotalBlocks(sizes[i])];
        SupplyPrefix(cache.logical, supply, TotalBlocks(sizes[i]));
        ghost var d := cache.logical;
        IncreaseSize(sizes[i], next, cache);
        TreeShaped(Rec(), cache.logical);
        SameKeysSupply(Rec(), d, cache.logical, Owned(Rec(), cache.logical), TotalBlocks(size), supply);
      }
      assert supply[..|supply|] == supply;
      v := ClearSize(cache);
    }

    static lemma NoBlocks()
      ensures TotalBlocks(0) == 0
    {
    }

    static lemma RisingBlocks(sizes: seq<nat>, size: nat, i: nat)
      requires Rising(sizes) && i < |sizes| && size == if i == 0 then 0 else sizes[i - 1]
      ensures size <= sizes[i] <= MAX_SIZE && TotalBlocks(size) <= TotalBlocks(sizes[i]) <= TotalBlocks(sizes[|sizes| - 1])
    {
      TotalForMonotone(DataBlocks(size), DataBlocks(sizes[i]));
      TotalForMonotone(DataBlocks(sizes[i]), DataBlocks(sizes[|sizes| - 1]));
    }

    static lemma SupplyPrefix(d: Disk, supply: seq<nat>, n: nat)
      requires Supply(d, supply) && n <= |supply|
      ensures Supply(d, supply[..n])
    {
    }

    static lemma SameKeysSupply(ino: Inode, d: Disk, e: Disk, own: seq<nat>, p: nat, supply: seq<nat>)
      requires Grown(ino, d, e, own, p) && Supply(d, supply)
      ensures Supply(e, supply)
    {
      forall k | 0 <= k < |supply| ensures supply[k] in e { assert supply[k] in d.Keys; }
    }

    method ClearDirect(blocks: nat, ghost own: seq<nat>) returns (v: seq<nat>)
      requires |direct| == INODE_DIRECT_COUNT && Min(blocks, 28) <= |own| && AreU32(direct)
      requires forall k | 0 <= k < Min(blocks, 28) :: own[k] == direct[k]
      modifies this`direct
      ensures |direct| == INODE_DIRECT_COUNT && AreU32(direct)
      ensures forall k | 0 <= k < INODE_DIRECT_COUNT :: direct[k] == if k < blocks then 0 else old(direct)[k]
      ensures v == own[..Min(blocks, 28)]
    {
      v := [];
      var current := 0;
      while current < Min(blocks, INODE_DIRECT_COUNT)
        invariant current <= Min(blocks, 28) && |direct| == INODE_DIRECT_COUNT && AreU32(direct)
        invariant forall k | 0 <= k < INODE_DIRECT_COUNT :: direct[k] == if k < current then 0 else old(direct)[k]
        invariant v == own[..current]
      {
        v := v + [direct[current]];
        direct := direct[current := 0];
        current := current + 1;
      }
    }

    /** Pushes the first `count` pointers of the pointer block in slot `s`. */
    method PushEntries(block: nat, ghost s: nat, count: nat, v0: seq<nat>, ghost ino: Inode, cache: Cache)
      returns (v: seq<nat>)
      requires cache.Usable() && Tree(ino, cache.logical) && count <= WORDS
      requires s == 28 || (s >= 158 && (s - 158) % 129 == 0)
      requires s + count < |Owned(ino, cache.logical)| && block == Owned(ino, cache.logical)[s]
      requires v0 == Owned(ino, cache.logical)[..s + 1]
      modifies cache`device, cache`copies, cache`queue, cache`detached
      ensures cache.Usable()
      ensures v == Owned(ino, cache.logical)[..s + 1 + count]
    {
      hide QueueOk, Coherent, Pinned, SlotId, Tree, Distinct, Word;
      ghost var d := cache.logical;
      TreeShaped(ino, d);
      ghost var own := Owned(ino, d);
      OwnedAt(ino, d, s);
      var b := cache.Load(block);
      v := v0;
      var k := 0;
      while k < count
        invariant k <= count && cache.Usable()
        invariant v == own[..s + 1 + k]
      {
        EntryOfBlock(ino, d, s, k);
        v := v + [Word(b, k)];
        k := k + 1;
      }
    }

    /** The walk over the double-indirect tree: full low-level blocks, then the last partial one. */
    method ClearIndirect2(blocks: nat, v0: seq<nat>, ghost ino: Inode, cache: Cache) returns (v: seq<nat>)
      requires cache.Usable() && Tree(ino, cache.logical)
      requires 0 < blocks <= INODE_INDIRECT2_COUNT && DataBlocks(ino.size) == blocks + 156
      requires v0 == Owned(ino, cache.logical)[..158] && indirect2 == Owned(ino, cache.logical)[157]
      modifies cache`device, cache`copies, cache`queue, cache`detached
      ensures cache.Usable()
      ensures v == Owned(ino, cache.logical)
    {
      hide QueueOk, Coherent, Pinned, SlotId, Tree, Distinct, Word, Owned;
      ghost var d := cache.logical;
      TreeShaped(ino, d);
      ghost var own := Owned(ino, d);
      var a1, b1 := blocks / INODE_INDIRECT1_COUNT, blocks % INODE_INDIRECT1_COUNT;
      TotalForIndirect2(a1, b1);
      OwnedAt(ino, d, 157);
      var t := cache.Load(indirect2);
      v := v0;
      var a := 0;
      while a < a1
        invariant a <= a1 && cache.Usable()
        invariant v == own[..158 + 129 * a]
      {
        v := PushRound(t, a, INODE_INDIRECT1_COUNT, v, ino, cache);
        a := a + 1;
      }
      if b1 > 0 {
        v := PushRound(t, a1, b1, v, ino, cache);
      }
      assert own[..|own|] == own;
    }

    /** One low-level indirect block of `clear_size`: its own id, then the first `count` ids it holds. */
    method PushRound(t: Block, a: nat, count: nat, v0: seq<nat>, ghost ino: Inode, cache: Cache) returns (v: seq<nat>)
      requires cache.Usable() && Tree(ino, cache.logical) && 0 < count <= INODE_INDIRECT1_COUNT
      requires 158 + 129 * a + 1 + count <= |Owned(ino, cache.logical)| && v0 == Owned(ino, cache.logical)[..158 + 129 * a]
      requires ino.indirect2 in cache.logical && t == cache.logical[ino.indirect2]
      modifies cache`device, cache`copies, cache`queue, cache`detached
      ensures cache.Usable()
      ensures v == Owned(ino, cache.logical)[..158 + 129 * a + 1 + count]
    {
      hide QueueOk, Coherent, Pinned, SlotId, Tree, Distinct, Word, Owned;
      TreeShaped(ino, cache.logical);
      LowBlock(ino, cache.logical, a);
      v := v0 + [Word(t, a)];
      assert v == Owned(ino, cache.logical)[..158 + 129 * a + 1];
      v := PushEntries(Word(t, a), 158 + 129 * a, count, v, ino, cache);
    }

    /** `read_at`: the bytes of the file from `offset`, as many as the buffer and the file size allow. */
    method ReadAt(offset: nat, buf: array<Byte>, cache: Cache) returns (n: nat)
      requires cache.Usable() && Tree(Rec(), cache.logical)
      modifies buf, cache`device, cache`copies, cache`queue, cache`detached
      ensures cache.Usable()
      ensures n == |FileRead(Contents(Rec(), cache.logical), offset, buf.Length)|
      ensures buf[..] == FileRead(Contents(Rec(), cache.logical), offset, buf.Length) + old(buf[..])[n..]
    {
      hide QueueOk, Coherent, Pinned, Tree, Owned, Flat, ChunkEnd;
      ghost var d := cache.logical;
      TreeShaped(Rec(), d);
      var start := offset;
      var end := Min(offset + buf.Length, size);
      if start >= end { return 0; }
      var startBlock := start / BLOCK_SZ;
      n := 0;
      ghost var flat := Flat(Rec(), d);
      while true
        invariant offset <= start == offset + n < end && startBlock == start / BLOCK_SZ
        invariant cache.Usable()
        invariant forall i | 0 <= i < n :: buf[i] == flat[offset + i]
        invariant forall i | n <= i < buf.Length :: buf[i] == old(buf[i])
        decreases end - start
      {
        var endCurrent := ChunkEnd(start, end);
        n := ReadChunk(start, endCurrent - start, buf, n, cache);
        if endCurrent == end { break; }
        startBlock := startBlock + 1;
        start := endCurrent;
      }
    }

    /** One round of the read loop: copies `len` bytes of one block into the buffer. */
    method ReadChunk(start: nat, len: nat, buf: array<Byte>, n: nat, cache: Cache) returns (m: nat)
      requires cache.Usable() && Tree(Rec(), cache.logical)
      requires start < start + len <= size && start % BLOCK_SZ + len <= BLOCK_SZ && n + len <= buf.Length
      modifies buf, cache`device, cache`copies, cache`queue, cache`detached
      ensures cache.Usable() && m == n + len
      ensures forall i | 0 <= i < buf.Length && !(n <= i < m) :: buf[i] == old(buf[i])
      ensures forall i | n <= i < m :: buf[i] == Flat(Rec(), cache.logical)[start + i - n]
    {
      hide QueueOk, Coherent, Pinned, Tree, Owned, Flat, DataBlocks, Reachable, Looked;
      TreeShaped(Rec(), cache.logical);
      ChunkOfBlock(Rec(), cache.logical, start, len);
      PathOfBlock(start / BLOCK_SZ, cache.logical);
      var id := GetBlockId(start / BLOCK_SZ, cache);
      var b := cache.Load(id);
      var off := start % BLOCK_SZ;
      m := n + len;
      forall i | n <= i < m {
        buf[i] := b[off + i - n];
      }
      forall i | n <= i < m ensures buf[i] == Flat(Rec(), cache.logical)[start + i - n] {
        assert Flat(Rec(), cache.logical)[start..start + len][i - n] == b[off..off + len][i - n];
      }
    }

    /** `write_at`: patches the file from `offset`, up to the file size; blocks of no other file change. With nothing
        to write right past the last block, it still looks a block up, and needs the lookup to succeed. */
    method WriteAt(offset: nat, buf: seq<Byte>, cache: Cache) returns (n: nat)
      requires cache.Usable() && Tree(Rec(), cache.logical) && |direct| == INODE_DIRECT_COUNT
      requires offset <= Min(offset + |buf|, size) && Writable(Rec(), cache.logical, offset / BLOCK_SZ)
      modifies cache
      ensures cache.Usable() && n == Min(offset + |buf|, size) - offset
      ensures Written(Rec(), old(cache.logical), cache.logical, offset, buf[..n])
    {
      hide QueueOk, Coherent, Pinned, Tree, Written, ChunkEnd, Writable;
      ghost var d0 := cache.logical;
      TreeShaped(Rec(), d0);
      var start := offset;
      var end := Min(offset + |buf|, size);
      var startBlock := start / BLOCK_SZ;
      n := 0;
      WrittenNothing(Rec(), d0, offset);
      assert buf[..0] == [];
      while true
        invariant offset <= start == offset + n <= end && startBlock == start / BLOCK_SZ
        invariant start > offset ==> start < end
        invariant cache.Usable() && Tree(Rec(), cache.logical) && Writable(Rec(), cache.logical, startBlock)
        invariant Written(Rec(), d0, cache.logical, offset, buf[..n])
        decreases end - start
      {
        var endCurrent := ChunkEnd(start, end);
        var src := buf[n..n + endCurrent - start];
        ghost var d := cache.logical;
        WriteChunk(start, src, cache);
        WrittenMore(Rec(), d0, d, cache.logical, offset, buf[..n], src);
        assert buf[..n] + src == buf[..n + endCurrent - start];
        n := n + endCurrent - start;
        if endCurrent == end { break; }
        startBlock := startBlock + 1;
        start := endCurrent;
        InFile(Rec(), cache.logical, startBlock);
      }
    }

    /** The lookup of block `k` succeeds: it is a block of the file, or what the pointers lead to is on the device. */
    static ghost predicate Writable(ino: Inode, d: Disk, k: nat)
      requires |ino.direct| == INODE_DIRECT_COUNT
    {
      k < DataBlocks(ino.size) || (Reachable(ino, d, k) && Looked(ino, d, k) in d)
    }

    static lemma InFile(ino: Inode, d: Disk, k: nat)
      requires |ino.direct| == INODE_DIRECT_COUNT && BLOCK_SZ * k < ino.size
      ensures Writable(ino, d, k)
    {
    }

    /** One round of the write loop: patches one block. */
    method WriteChunk(start: nat, src: seq<Byte>, cache: Cache)
      requires cache.Usable() && Tree(Rec(), cache.logical) && |direct| == INODE_DIRECT_COUNT
      requires Writable(Rec(), cache.logical, start / BLOCK_SZ) && start + |src| <= size && start % BLOCK_SZ + |src| <= BLOCK_SZ
      modifies cache
      ensures cache.Usable() && Tree(Rec(), cache.logical)
      ensures Written(Rec(), old(cache.logical), cache.logical, start, src)
    {
      hide QueueOk, Coherent, Pinned, Tree, Owned, Flat, Reachable, Looked, Patch, Written;
      TreeShaped(Rec(), cache.logical);
      ghost var d := cache.logical;
      var k := start / BLOCK_SZ;
      if k < DataBlocks(size) { PathOfBlock(k, d); }
      var id := GetBlockId(k, cache);
      var b := cache.Load(id);
      var b' := Patch(b, start % BLOCK_SZ, src);
      cache.Store(id, b');
      ChunkWritten(Rec(), d, start, src, id);
    }

    /** What storing one patched block does to the file. */
    static lemma ChunkWritten(ino: Inode, d: Disk, start: nat, src: seq<Byte>, id: nat)
      requires Tree(ino, d) && |ino.direct| == INODE_DIRECT_COUNT && id in d && start + |src| <= ino.size && start % BLOCK_SZ + |src| <= BLOCK_SZ
      requires start / BLOCK_SZ < DataBlocks(ino.size) ==> id == DataId(ino, d, start / BLOCK_SZ)
      ensures var e := d[id := Patch(d[id], start % BLOCK_SZ, src)]; Tree(ino, e) && Written(ino, d, e, start, src)
    {
      hide Tree, Owned, Flat, Patch, SlotId;
      TreeShaped(ino, d);
      var k, e := start / BLOCK_SZ, d[id := Patch(d[id], start % BLOCK_SZ, src)];
      if k < DataBlocks(ino.size) {
        DataWriteKeepsTree(ino, d, k, e[id]);
        DataWritePatches(ino, d, start, src);
        DataIsNoPointer(ino, d, k);
      } else {
        assert src == [];
        assert Patch(d[id], start % BLOCK_SZ, src) == d[id] by { PatchNothing(d[id], start % BLOCK_SZ); }
        assert e == d;
        WrittenNothing(ino, d, start);
      }
    }

    static lemma PatchNothing(b: Block, off: nat)
      requires off <= BLOCK_SZ
      ensures Patch(b, off, []) == b
    {
    }

    /** A data block is none of the file's pointer blocks. */
    static lemma DataIsNoPointer(ino: Inode, d: Disk, k: nat)
      requires Tree(ino, d) && k < DataBlocks(ino.size)
      ensures DataId(ino, d, k) in Elems(Owned(ino, d))
      ensures forall q | 0 <= q < |Owned(ino, d)| && IsPtr(q) :: Owned(ino, d)[q] != DataId(ino, d, k)
    {
      hide SlotId;
      TotalForMonotone(k + 1, DataBlocks(ino.size));
    }
  }
}
