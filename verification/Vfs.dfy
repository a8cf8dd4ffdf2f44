/** `EasyFileSystem` and the operations of a vfs `Inode`: reading, writing and clearing files. */
module Vfs {
  import opened Collections
  import opened Blocks
  import opened BlockCaches
  import opened Bitmaps
  import opened Layout
  import opened DiskInodes
  import opened Efs
  import opened Ownership

  /** What the metadata regions of a disk say. */
  datatype Meta = Meta(super: Block, inodes: seq<Inode>, used: set<nat>, usedInodes: set<nat>)

  ghost function MetaOf(g: Geometry, d: Disk): (m: Meta)
    requires Formatted(g, d)
  {
    Meta(d[0], Inodes(g, d), Used(g, d), UsedInodes(g, d))
  }

  ghost predicate MetaOk(g: Geometry, m: Meta, d: Disk) {
    && |m.inodes| == g.InodeCount() && Opened(m.super) == Some(g)
    && Inv(g, m.inodes, m.used, d)
    && forall i | 0 <= i < |m.inodes| && i !in m.usedInodes :: m.inodes[i].size == 0
  }

  /** The whole file-system invariant of a disk. */
  ghost predicate FsOk(g: Geometry, d: Disk) {
    Formatted(g, d) && MetaOk(g, MetaOf(g, d), d)
  }

  /** The files stored on a disk: one byte sequence for each inode. */
  ghost function FilesOf(g: Geometry, d: Disk): (files: seq<seq<Byte>>)
    requires FsOk(g, d)
    ensures |files| == g.InodeCount()
  {
    Files(Inodes(g, d), d)
  }

  /** Writing `buf` at `off`: the file grows with zeros if need be, then the bytes are replaced. */
  function FileWrite(f: seq<Byte>, off: nat, buf: seq<Byte>): (r: seq<Byte>)
    ensures |r| == if off + |buf| > |f| then off + |buf| else |f|
    ensures forall k | 0 <= k < |r| ::
              r[k] == if off <= k < off + |buf| then buf[k - off] else if k < |f| then f[k] else 0
  {
    Patch(if off + |buf| > |f| then f + ZeroBytes(off + |buf| - |f|) else f, off, buf)
  }

  /** Writing is growing with zeros to the new size, then patching. */
  lemma WriteIsPatch(f: seq<Byte>, off: nat, buf: seq<Byte>, size: nat)
    requires size == if off + |buf| > |f| then off + |buf| else |f|
    ensures off + |buf| <= |f + ZeroBytes(size - |f|)|
    ensures FileWrite(f, off, buf) == Patch(f + ZeroBytes(size - |f|), off, buf)
  {
    if size == |f| { assert f + ZeroBytes(0) == f; }
  }

  /** Blocks that must be free for a file of `size` bytes to reach `newSize`. */
  function BlocksNeeded(size: nat, newSize: nat): (n: nat) {
    if newSize < size then 0
    else TotalForMonotone(DataBlocks(size), DataBlocks(newSize)); TotalBlocks(newSize) - TotalBlocks(size)
  }

  /** The lookup `write_at` begins with succeeds. It goes past the end of the file exactly when the buffer is empty and
      `offset` is a block boundary at or past the end, and fails there at the boundaries of the pointer tree. */
  predicate Addressable(size: nat, offset: nat, len: nat)
    ensures Addressable(size, offset, len) <==>
            offset / BLOCK_SZ < DataBlocks(if offset + len < size then size else offset + len) || !Boundary(offset / BLOCK_SZ)
  {
    len > 0 || offset % BLOCK_SZ != 0 || offset < size || !Boundary(offset / BLOCK_SZ)
  }

  /** On a device that has no block numbered like the magic number, a write to the grown file finds its first block if
      and only if it is `Addressable`. */
  lemma WriteFindsBlockExactly(g: Geometry, m: Meta, d: Disk, i: nat, size: nat, offset: nat, len: nat)
    requires MetaOk(g, m, d) && m.super == BlockAt(d, 0) && i < |m.inodes| && EFS_MAGIC !in d
    requires Shaped(m.inodes[i]) && m.inodes[i].size == if offset + len < size then size else offset + len
    ensures DiskInode.Writable(m.inodes[i], d, offset / BLOCK_SZ) <==> Addressable(size, offset, len)
  {
    hide Tidy, Tree, Inv, Word, Reachable, Looked;
    var ino, k := m.inodes[i], offset / BLOCK_SZ;
    PastEnd(g, m.inodes, m.used, d, i, offset);
  }

  lemma PastEnd(g: Geometry, inodes: seq<Inode>, used: set<nat>, d: Disk, i: nat, offset: nat)
    requires Inv(g, inodes, used, d) && i < |inodes| && Shaped(inodes[i]) && offset <= inodes[i].size
    ensures 0 in d
    ensures var k := offset / BLOCK_SZ;
            k >= DataBlocks(inodes[i].size) ==>
              && (!Boundary(k) ==> DiskInode.Writable(inodes[i], d, k))
              && (Boundary(k) && Word(d[0], 0) !in d ==> !DiskInode.Writable(inodes[i], d, k))
  {
    hide Tidy, Tree, AllTrees, Exclusive, Accounted, Word, Reachable, Looked;
    UsedCovers(g, inodes, used, d, i);
    var k := offset / BLOCK_SZ;
    if k >= DataBlocks(inodes[i].size) { LookupPastEnd(inodes[i], d, k); }
  }

  lemma MetaFrame(g: Geometry, d: Disk, e: Disk)
    requires Formatted(g, d) && SameRegion(d, e, 0, g.DataAreaStart())
    ensures Formatted(g, e) && MetaOf(g, e) == MetaOf(g, d)
  {
    hide UsedBits, Inodes;
    InodesFrame(g, d, e);
    UsedBitsFrame(d, e, g.DataBitmapStart(), g.dataBitmapBlocks);
    UsedBitsFrame(d, e, 1, g.inodeBitmapBlocks);
  }

  /** Changing the data bitmap only. */
  lemma DataBitmapFrame(g: Geometry, d: Disk, e: Disk, block: nat)
    requires Formatted(g, d) && AgreeOutside(d, e, {block})
    requires g.DataBitmapStart() <= block < g.DataAreaStart()
    ensures Formatted(g, e) && MetaOf(g, e) == MetaOf(g, d).(used := Used(g, e))
    ensures SameRegion(d, e, g.DataAreaStart(), g.totalBlocks)
  {
    hide UsedBits, Inodes;
    InodesFrame(g, d, e);
    UsedBitsFrame(d, e, 1, g.inodeBitmapBlocks);
  }

  /** Changing one inode record only. */
  lemma InodeFrame(g: Geometry, d: Disk, e: Disk, block: nat)
    requires Formatted(g, d) && AgreeOutside(d, e, {block})
    requires g.InodeAreaStart() <= block < g.DataBitmapStart()
    ensures Formatted(g, e) && MetaOf(g, e) == MetaOf(g, d).(inodes := Inodes(g, e))
    ensures SameRegion(d, e, g.DataAreaStart(), g.totalBlocks)
  {
    hide UsedBits, Inodes;
    assert forall id :: id in e.Keys <==> id in d.Keys;
    UsedBitsFrame(d, e, 1, g.inodeBitmapBlocks);
    UsedBitsFrame(d, e, g.DataBitmapStart(), g.dataBitmapBlocks);
  }

  /** Changing the inode bitmap only. */
  lemma InodeBitmapFrame(g: Geometry, d: Disk, e: Disk, block: nat)
    requires Formatted(g, d) && AgreeOutside(d, e, {block}) && 1 <= block < g.InodeAreaStart()
    ensures Formatted(g, e) && MetaOf(g, e) == MetaOf(g, d).(usedInodes := UsedInodes(g, e))
    ensures SameRegion(d, e, g.DataAreaStart(), g.totalBlocks)
  {
    hide UsedBits, Inodes;
    InodesFrame(g, d, e);
    UsedBitsFrame(d, e, g.DataBitmapStart(), g.dataBitmapBlocks);
  }

  function Zeros(n: nat): (s: seq<nat>)
    ensures |s| == n && AreU32(s)
  {
    seq(n, _ => 0)
  }

  /** With a free block left in the data area, the lowest free bit is inside the data area. */
  lemma LowestFreeInArea(g: Geometry, bits: set<nat>, k: nat)
    requires |bits| < g.dataAreaBlocks && forall j | 0 <= j < k :: j in bits
    ensures k < g.dataAreaBlocks
  {
    if k >= g.dataAreaBlocks {
      SubsetSize(UpTo(g.dataAreaBlocks), bits);
      assert false;
    }
  }

  lemma UsedSize(g: Geometry, d: Disk)
    requires Formatted(g, d)
    ensures |Used(g, d)| == |UsedBits(d, g.DataBitmapStart(), g.dataBitmapBlocks)|
  {
    hide UsedBits;
    ShiftSize(UsedBits(d, g.DataBitmapStart(), g.dataBitmapBlocks), g.DataAreaStart());
  }

  lemma {:induction false} ShiftSize(s: set<nat>, base: nat)
    ensures |set k | k in s :: base + k| == |s|
    decreases s
  {
    var t := set k | k in s :: base + k;
    if s == {} {
      assert t == {};
    } else {
      var x :| x in s;
      var u := set k | k in s - {x} :: base + k;
      ShiftSize(s - {x}, base);
      forall y | y in t ensures y in u + {base + x} {
        var k :| k in s && y == base + k;
        assert k == x || k in s - {x};
      }
      assert base + x in t;
      assert t == u + {base + x};
    }
  }

  /** Setting or clearing the bit of one data block. */
  lemma UsedAfter(g: Geometry, d: Disk, e: Disk, k: nat, on: bool)
    requires Formatted(g, d) && Formatted(g, e)
    requires UsedBits(e, g.DataBitmapStart(), g.dataBitmapBlocks) ==
             if on then UsedBits(d, g.DataBitmapStart(), g.dataBitmapBlocks) + {k}
             else UsedBits(d, g.DataBitmapStart(), g.dataBitmapBlocks) - {k}
    ensures Used(g, e) == if on then Used(g, d) + {g.DataAreaStart() + k} else Used(g, d) - {g.DataAreaStart() + k}
  {
    hide UsedBits, Used;
    forall id: nat
      ensures id in Used(g, e) <==>
              id in if on then Used(g, d) + {g.DataAreaStart() + k} else Used(g, d) - {g.DataAreaStart() + k}
    {
      UsedMembership(g, d, id);
      UsedMembership(g, e, id);
    }
  }

  class EasyFileSystem {
    const g: Geometry
    const cache: Cache
    const inodeBitmap: Bitmap
    const dataBitmap: Bitmap

    constructor (cache: Cache, g: Geometry)
      ensures this.cache == cache && this.g == g
      ensures inodeBitmap.startBlock == 1 && inodeBitmap.blocks == g.inodeBitmapBlocks
      ensures dataBitmap.startBlock == g.DataBitmapStart() && dataBitmap.blocks == g.dataBitmapBlocks
    {
      this.cache, this.g := cache, g;
      inodeBitmap := new Bitmap(1, g.inodeBitmapBlocks);
      dataBitmap := new Bitmap(g.DataBitmapStart(), g.dataBitmapBlocks);
    }

    ghost predicate Mounted()
      reads this, cache
    {
      && cache.Usable()
      && Formatted(g, cache.logical)
      && inodeBitmap.startBlock == 1 && inodeBitmap.blocks == g.inodeBitmapBlocks
      && dataBitmap.startBlock == g.DataBitmapStart() && dataBitmap.blocks == g.dataBitmapBlocks
    }

    ghost predicate Valid()
      reads this, cache
    {
      Mounted() && FsOk(g, cache.logical)
    }

    /** The files, one byte sequence for each inode. */
    ghost function View(): (files: seq<seq<Byte>>)
      requires Valid()
      reads this, cache
      ensures |files| == g.InodeCount()
    {
      FilesOf(g, cache.logical)
    }

    /** Whether inode `i` is a directory. */
    ghost predicate IsDir(i: nat)
      requires Mounted() && i < g.InodeCount()
      reads this, cache
    {
      Inodes(g, cache.logical)[i].isDir
    }

    /** The inodes in use. */
    ghost function Live(): (s: set<nat>)
      requires Mounted()
      reads this, cache
    {
      UsedInodes(g, cache.logical)
    }

    /** Data blocks not allocated. */
    ghost function FreeBlocks(): (n: int)
      requires Mounted()
      reads this, cache
    {
      g.dataAreaBlocks - |Used(g, cache.logical)|
    }

    /** `alloc_data`: a block of the data area that was free, as long as one is. */
    method AllocData() returns (id: nat)
      requires Mounted() && |Used(g, cache.logical)| < g.dataAreaBlocks
      modifies cache
      ensures Mounted() && InArea(g, id) && id !in old(Used(g, cache.logical))
      ensures MetaOf(g, cache.logical) ==
              old(MetaOf(g, cache.logical)).(used := old(Used(g, cache.logical)) + {id})
      ensures SameRegion(old(cache.logical), cache.logical, g.DataAreaStart(), g.totalBlocks)
    {
      hide QueueOk, Coherent, Pinned, UsedBits, Used, Inodes, UsedInodes;
      ghost var d := cache.logical;
      UsedSize(g, d);
      assert OnDisk(d, dataBitmap.startBlock, dataBitmap.blocks);
      var pos := dataBitmap.Alloc(cache);
      AllocSucceeds(d, pos);
      LowestFreeInArea(g, UsedBits(d, g.DataBitmapStart(), g.dataBitmapBlocks), pos.value);
      id := pos.value + g.DataAreaStart();
      DataBitmapFrame(g, d, cache.logical, g.DataBitmapStart() + pos.value / BLOCK_BITS);
      UsedAfter(g, d, cache.logical, pos.value, true);
      UsedMembership(g, d, id);
    }

    /** `unwrap` on the result of `alloc` never panics while a data block is free. */
    lemma AllocSucceeds(d: Disk, pos: Option<nat>)
      requires Formatted(g, d)
      requires |UsedBits(d, g.DataBitmapStart(), g.dataBitmapBlocks)| < g.dataAreaBlocks
      requires pos.None? ==> forall k | 0 <= k < g.dataBitmapBlocks * BLOCK_BITS ::
                 k in UsedBits(d, g.DataBitmapStart(), g.dataBitmapBlocks)
      ensures pos.Some?
    {
      hide UsedBits;
      if pos.None? {
        LowestFreeInArea(g, UsedBits(d, g.DataBitmapStart(), g.dataBitmapBlocks), g.dataAreaBlocks);
        assert false;
      }
    }

    /** `dealloc_data`: zeroes the block, then clears its bit. */
    method DeallocData(id: nat)
      requires Mounted() && InArea(g, id) && id in Used(g, cache.logical)
      modifies cache
      ensures Mounted()
      ensures MetaOf(g, cache.logical) ==
              old(MetaOf(g, cache.logical)).(used := old(Used(g, cache.logical)) - {id})
      ensures SameRegion(old(cache.logical)[id := ZeroBlock], cache.logical, g.DataAreaStart(), g.totalBlocks)
    {
      hide QueueOk, Coherent, Pinned, UsedBits, Used, Inodes, UsedInodes;
      cache.Store(id, ZeroBlock);
      ghost var d := cache.logical;
      MetaFrame(g, old(cache.logical), d);
      UsedMembership(g, d, id);
      assert OnDisk(d, dataBitmap.startBlock, dataBitmap.blocks);
      var bit := id - g.DataAreaStart();
      dataBitmap.Dealloc(bit, cache);
      DataBitmapFrame(g, d, cache.logical, g.DataBitmapStart() + bit / BLOCK_BITS);
      UsedAfter(g, d, cache.logical, bit, false);
    }

    /** `read_disk_inode`: the record of inode `i`. */
    method LoadInode(i: nat) returns (ino: Inode)
      requires Mounted() && i < g.InodeCount()
      modifies cache`device, cache`copies, cache`queue, cache`detached
      ensures Mounted() && ino == Inodes(g, cache.logical)[i] && AreU32(ino.direct)
      ensures ino.indirect1 < U32_LIMIT && ino.indirect2 < U32_LIMIT
    {
      hide QueueOk, Coherent, Pinned, Word;
      var (block, slot) := InodePos(g, i);
      var b := cache.Load(block);
      ino := InodeIn(b, slot);
    }

    /** The record of inode `i` is overwritten in its cached block. */
    method StoreInode(i: nat, ino: Inode)
      requires Mounted() && i < g.InodeCount() && Storable(ino)
      modifies cache
      ensures Mounted()
      ensures MetaOf(g, cache.logical) ==
              old(MetaOf(g, cache.logical)).(inodes := old(Inodes(g, cache.logical))[i := ino])
      ensures SameRegion(old(cache.logical), cache.logical, g.DataAreaStart(), g.totalBlocks)
    {
      hide QueueOk, Coherent, Pinned, Word, PutWords, Used, UsedInodes, Inodes;
      ghost var d := cache.logical;
      var (block, slot) := InodePos(g, i);
      InodeStored(g, d, i, ino);
      var b := cache.Load(block);
      cache.Store(block, PutWords(b, INODE_WORDS * slot, InodeWords(ino)));
      InodeFrame(g, d, cache.logical, block);
    }

    /** The state between reading inode `i` and storing its record back: `node` is the record to be stored. */
    ghost predicate Pending(i: nat, node: DiskInode)
      reads this, cache, node
    {
      && Mounted() && i < g.InodeCount() && Storable(node.Rec())
      && i in UsedInodes(g, cache.logical)
      && MetaOk(g, PendingMeta(i, node), cache.logical)
    }

    ghost function PendingMeta(i: nat, node: DiskInode): (m: Meta)
      requires Formatted(g, cache.logical) && i < g.InodeCount()
      reads this, cache, node
    {
      MetaOf(g, cache.logical).(inodes := Inodes(g, cache.logical)[i := node.Rec()])
    }

    ghost function PendingFiles(i: nat, node: DiskInode): (files: seq<seq<Byte>>)
      requires Pending(i, node)
      reads this, cache, node
    {
      Files(PendingMeta(i, node).inodes, cache.logical)
    }

    method Begin(i: nat) returns (node: DiskInode)
      requires Valid() && i in UsedInodes(g, cache.logical) && i < g.InodeCount()
      modifies cache`device, cache`copies, cache`queue, cache`detached
      ensures fresh(node) && Pending(i, node)
      ensures node.Rec() == Inodes(g, cache.logical)[i]
      ensures PendingFiles(i, node) == FilesOf(g, cache.logical)
    {
      hide QueueOk, Coherent, Pinned, Used, UsedInodes, Inodes, Inv;
      var ino := LoadInode(i);
      node := new DiskInode(ino);
      assert Inodes(g, cache.logical)[i := ino] == Inodes(g, cache.logical);
      assert Shaped(ino) by { UsedCovers(g, Inodes(g, cache.logical), Used(g, cache.logical), cache.logical, i); }
    }

    method End(i: nat, node: DiskInode)
      requires Pending(i, node)
      modifies cache
      ensures Valid() && cache.device == cache.logical
      ensures FilesOf(g, cache.logical) == old(PendingFiles(i, node))
      ensures MetaOf(g, cache.logical) == old(PendingMeta(i, node))
    {
      hide QueueOk, Coherent, Pinned, Used, UsedInodes, Inodes, Inv;
      ghost var d := cache.logical;
      ghost var m := PendingMeta(i, node);
      StoreInode(i, Inode(node.size, node.direct, node.indirect1, node.indirect2, node.isDir));
      AreaFrame(g, m.inodes, m.used, d, cache.logical);
      cache.SyncAll();
    }

    /** The allocation loop of `Inode::increase_size`. */
    method AllocBlocks(n: nat) returns (v: seq<nat>)
      requires Mounted() && |Used(g, cache.logical)| + n <= g.dataAreaBlocks
      modifies cache
      ensures Mounted() && |v| == n && Distinct(v)
      ensures forall k | 0 <= k < n :: InArea(g, v[k]) && v[k] !in old(Used(g, cache.logical))
      ensures MetaOf(g, cache.logical) ==
              old(MetaOf(g, cache.logical)).(used := old(Used(g, cache.logical)) + Elems(v))
      ensures SameRegion(old(cache.logical), cache.logical, g.DataAreaStart(), g.totalBlocks)
    {
      hide QueueOk, Coherent, Pinned, Used, UsedInodes, Inodes, SameRegion, Elems, Distinct;
      ghost var m := MetaOf(g, cache.logical);
      SameRegionTrans(cache.logical, cache.logical, cache.logical, g.DataAreaStart(), g.totalBlocks);
      v := [];
      TakeNone(m.used);
      while |v| < n
        invariant |v| <= n && Mounted() && Distinct(v)
        invariant forall k | 0 <= k < |v| :: InArea(g, v[k]) && v[k] !in m.used
        invariant MetaOf(g, cache.logical) == m.(used := m.used + Elems(v))
        invariant SameRegion(old(cache.logical), cache.logical, g.DataAreaStart(), g.totalBlocks)
      {
        TakenSize(m.used, v);
        ghost var d := cache.logical;
        var id := AllocData();
        SameRegionTrans(old(cache.logical), d, cache.logical, g.DataAreaStart(), g.totalBlocks);
        ElemsAppend(v, id);
        assert m.used + Elems(v) + {id} == m.used + Elems(v + [id]);
        v := v + [id];
      }
    }

    static lemma TakeNone(used: set<nat>)
      ensures Distinct([]) && used + Elems([]) == used
    {
    }

    static lemma TakenSize(used: set<nat>, v: seq<nat>)
      requires Distinct(v)
      ensures |used + Elems(v)| <= |used| + |v|
    {
      DistinctSize(v);
      assert |used + Elems(v)| <= |used| + |Elems(v)|;
    }

    /** `Inode::increase_size`: allocates what is missing and appends zeros; never shrinks. */
    method Grow(i: nat, node: DiskInode, newSize: nat)
      requires Pending(i, node) && newSize <= MAX_SIZE
      requires |Used(g, cache.logical)| + BlocksNeeded(node.size, newSize) <= g.dataAreaBlocks
      modifies cache, node`size, node`direct, node`indirect1, node`indirect2
      ensures Pending(i, node) && node.size == if newSize < old(node.size) then old(node.size) else newSize
      ensures UsedInodes(g, cache.logical) == old(UsedInodes(g, cache.logical))
      ensures Inodes(g, cache.logical) == old(Inodes(g, cache.logical))
      ensures var f := old(PendingFiles(i, node))[i];
              PendingFiles(i, node) == old(PendingFiles(i, node))[i := f + ZeroBytes(node.size - |f|)]
    {
      hide QueueOk, Coherent, Pinned, Used, UsedInodes, Inodes, Inv, TotalBlocks, BlocksNeeded, Owned, Tree, Opened, Contents,
        Supply, Distinct, Grown, FieldsKept, SameRegion, SlackZero;
      ghost var m, rec := PendingMeta(i, node), node.Rec();
      ghost var files := PendingFiles(i, node);
      UsedCovers(g, m.inodes, m.used, cache.logical, i);
      if newSize < node.size {
        assert files[i] + ZeroBytes(0) == files[i];
        return;
      }
      ghost var d0 := cache.logical;
      NeededIsDifference(node.size, newSize);
      var v := AllocBlocks(BlocksNeeded(node.size, newSize));
      ghost var d1 := cache.logical;
      BeforeGrow(m.inodes, m.used, d0, d1, i, v);
      node.IncreaseSize(newSize, v, cache);
      AfterGrow(m, d1, i, node.Rec(), v, cache.logical);
    }

    lemma NeededIsDifference(size: nat, newSize: nat)
      requires size <= newSize <= MAX_SIZE
      ensures TotalBlocks(size) + BlocksNeeded(size, newSize) == TotalBlocks(newSize) <= MAX_TOTAL
    {
      TotalForMonotone(0, DataBlocks(newSize));
    }

    lemma BeforeGrow(inodes: seq<Inode>, used: set<nat>, d0: Disk, d1: Disk, i: nat, v: seq<nat>)
      requires Inv(g, inodes, used, d0) && Formatted(g, d1) && i < |inodes|
      requires SameRegion(d0, d1, g.DataAreaStart(), g.totalBlocks)
      requires Distinct(v) && forall k | 0 <= k < |v| :: InArea(g, v[k]) && v[k] !in used
      requires TotalBlocks(inodes[i].size) + |v| <= MAX_TOTAL
      ensures Inv(g, inodes, used, d1) && Files(inodes, d1) == Files(inodes, d0)
      ensures Tree(inodes[i], d1) && Supply(d1, Owned(inodes[i], d1) + v)
    {
      hide Inv, Owned, Tree, Supply, Used;
      AreaFrame(g, inodes, used, d0, d1);
      UsedCovers(g, inodes, used, d1, i);
      SupplyOfNew(inodes, used, d1, i, v);
    }

    lemma AfterGrow(m: Meta, d: Disk, i: nat, ino: Inode, v: seq<nat>, e: Disk)
      requires Formatted(g, d) && MetaOf(g, d) == m.(inodes := Inodes(g, d), used := m.used + Elems(v))
      requires i < |m.inodes| == g.InodeCount() && i in m.usedInodes && MetaOk(g, m, d)
      requires m.inodes == Inodes(g, d)[i := m.inodes[i]]
      requires Shaped(ino) && Tree(ino, e) && m.inodes[i].size <= ino.size
      requires Shaped(m.inodes[i]) && Owned(ino, e) == Owned(m.inodes[i], d) + v && FieldsKept(m.inodes[i], ino)
      requires Grown(ino, d, e, Owned(ino, e), |Owned(ino, e)|)
      requires forall k | 0 <= k < |v| :: v[k] in d && InArea(g, v[k]) && v[k] !in m.used
      ensures Formatted(g, e) && MetaOk(g, MetaOf(g, e).(inodes := Inodes(g, e)[i := ino]), e)
      ensures UsedInodes(g, e) == UsedInodes(g, d) && Inodes(g, e) == Inodes(g, d)
      ensures var f := Files(m.inodes, d)[i];
              Files(Inodes(g, e)[i := ino], e) == Files(m.inodes, d)[i := f + ZeroBytes(ino.size - |f|)]
    {
      hide Inv, Owned, Tree, Used, UsedInodes, Inodes, Grown;
      GrowFile(g, m.inodes, m.used, d, i, ino, v, e);
      GrowMeta(m.inodes, m.used, d, i, ino, v, e);
      assert Inodes(g, e)[i := ino] == m.inodes[i := ino];
    }

    lemma SupplyOfNew(inodes: seq<Inode>, used: set<nat>, d: Disk, i: nat, v: seq<nat>)
      requires Inv(g, inodes, used, d) && i < |inodes| && Shaped(inodes[i])
      requires Distinct(v) && forall k | 0 <= k < |v| :: InArea(g, v[k]) && v[k] !in used
      requires |Owned(inodes[i], d) + v| <= MAX_TOTAL
      ensures Supply(d, Owned(inodes[i], d) + v)
    {
      hide Owned, AllTrees, Exclusive, Accounted;
      UsedCovers(g, inodes, used, d, i);
      var own := Owned(inodes[i], d);
      assert Distinct(own);
      forall p | 0 <= p < |own| ensures own[p] in used && own[p] in d && own[p] < U32_LIMIT {
        assert own[p] in OwnSet(inodes[i], d);
      }
      forall p, q | 0 <= p < q < |own + v| ensures (own + v)[p] != (own + v)[q] {
      }
    }

    /** Growth touches the data area only. */
    lemma GrowMeta(inodes: seq<Inode>, used: set<nat>, d: Disk, i: nat, ino: Inode, v: seq<nat>, e: Disk)
      requires Inv(g, inodes, used, d) && i < |inodes| && Shaped(ino)
      requires Owned(ino, e) == Owned(inodes[i], d) + v
      requires Grown(ino, d, e, Owned(ino, e), |Owned(ino, e)|)
      requires forall k | 0 <= k < |v| :: InArea(g, v[k])
      ensures Formatted(g, e) && MetaOf(g, e) == MetaOf(g, d)
    {
      hide Owned, AllTrees, Exclusive, Accounted, MetaOf, SlotId;
      UsedCovers(g, inodes, used, d, i);
      var own := Owned(inodes[i], d);
      forall p | 0 <= p < |own + v| ensures InArea(g, (own + v)[p]) {
        if p < |own| { assert own[p] in OwnSet(inodes[i], d); }
      }
      assert SameRegion(d, e, 0, g.DataAreaStart());
      MetaFrame(g, d, e);
    }

    /** `Inode::read_at`. */
    method ReadAt(i: nat, offset: nat, buf: array<Byte>) returns (n: nat)
      requires Valid() && i in Live() && i < g.InodeCount()
      modifies buf, cache`device, cache`copies, cache`queue, cache`detached
      ensures Valid()
      ensures n == |FileRead(View()[i], offset, buf.Length)|
      ensures buf[..] == FileRead(View()[i], offset, buf.Length) + old(buf[..])[n..]
    {
      hide QueueOk, Coherent, Pinned, Used, UsedInodes, Inodes, Inv, Contents, Tree;
      var node := Begin(i);
      UsedCovers(g, Inodes(g, cache.logical), Used(g, cache.logical), cache.logical, i);
      n := node.ReadAt(offset, buf, cache);
    }

    /** `Inode::write_at`: the file becomes `FileWrite`, no other file changes, and the device holds it. */
    method WriteAt(i: nat, offset: nat, buf: seq<Byte>) returns (n: nat)
      requires Valid() && i in Live() && i < g.InodeCount()
      requires Addressable(|View()[i]|, offset, |buf|) && offset + |buf| <= MAX_SIZE
      requires BlocksNeeded(|View()[i]|, offset + |buf|) <= FreeBlocks()
      modifies cache
      ensures Valid() && cache.device == cache.logical && n == |buf|
      ensures Live() == old(Live()) && forall j | 0 <= j < g.InodeCount() :: IsDir(j) == old(IsDir(j))
      ensures View() ==
              old(View())[i := FileWrite(old(View())[i], offset, buf)]
    {
      hide QueueOk, Coherent, Pinned, Used, UsedInodes, Inodes, Inv, BlocksNeeded, FileWrite, Addressable, Contents, Opened, Tree,
        SlackZero;
      var node := Begin(i);
      n := WriteNode(i, node, offset, buf);
      End(i, node);
    }

    /** Grows the file as far as the write reaches, then writes the bytes. */
    method WriteNode(i: nat, node: DiskInode, offset: nat, buf: seq<Byte>) returns (n: nat)
      requires Pending(i, node) && offset + |buf| <= MAX_SIZE
      requires |PendingFiles(i, node)[i]| == node.size && Addressable(node.size, offset, |buf|)
      requires |Used(g, cache.logical)| + BlocksNeeded(node.size, offset + |buf|) <= g.dataAreaBlocks
      modifies cache, node`size, node`direct, node`indirect1, node`indirect2
      ensures Pending(i, node) && n == |buf|
      ensures UsedInodes(g, cache.logical) == old(UsedInodes(g, cache.logical))
      ensures Inodes(g, cache.logical) == old(Inodes(g, cache.logical))
      ensures PendingFiles(i, node) == old(PendingFiles(i, node))[i := FileWrite(old(PendingFiles(i, node))[i], offset, buf)]
    {
      hide QueueOk, Coherent, Pinned, Used, UsedInodes, Inodes, Inv, Contents, BlocksNeeded, Opened, FileWrite, Patch, Tree, SlackZero;
      ghost var files := PendingFiles(i, node);
      Grow(i, node, offset + |buf|);
      WriteIsPatch(files[i], offset, buf, node.size);
      n := PatchNode(i, node, offset, buf);
    }

    /** The second half of `write_at`: the bytes themselves. */
    method PatchNode(i: nat, node: DiskInode, offset: nat, buf: seq<Byte>) returns (n: nat)
      requires Pending(i, node) && offset + |buf| <= node.size
      requires offset / BLOCK_SZ < DataBlocks(node.size) || !Boundary(offset / BLOCK_SZ)
      modifies cache
      ensures Pending(i, node) && n == |buf|
      ensures UsedInodes(g, cache.logical) == old(UsedInodes(g, cache.logical))
      ensures Inodes(g, cache.logical) == old(Inodes(g, cache.logical))
      ensures |old(PendingFiles(i, node))[i]| == node.size
      ensures PendingFiles(i, node) == old(PendingFiles(i, node))[i := Patch(old(PendingFiles(i, node))[i], offset, buf)]
    {
      hide QueueOk, Coherent, Pinned, Used, UsedInodes, Inodes, Inv, Contents, Tree, Written, Opened, Reachable, Looked;
      ghost var m := PendingMeta(i, node);
      ghost var d := cache.logical;
      UsedCovers(g, m.inodes, m.used, d, i);
      PastEnd(g, m.inodes, m.used, d, i, offset);
      n := node.WriteAt(offset, buf, cache);
      assert buf[..n] == buf;
      PatchFile(g, m.inodes, m.used, d, i, cache.logical, offset, buf);
      WriteMeta(m.inodes, m.used, d, i, cache.logical, offset, buf);
    }

    lemma WriteMeta(inodes: seq<Inode>, used: set<nat>, d: Disk, i: nat, e: Disk, off: nat, src: seq<Byte>)
      requires Inv(g, inodes, used, d) && i < |inodes| && Written(inodes[i], d, e, off, src)
      ensures Formatted(g, e) && MetaOf(g, e) == MetaOf(g, d)
    {
      hide Owned, AllTrees, Exclusive, Accounted, MetaOf, Flat, Tree;
      UsedCovers(g, inodes, used, d, i);
      assert SameRegion(d, e, 0, g.DataAreaStart());
      MetaFrame(g, d, e);
    }

    /** The loop of `Inode::clear` that gives every block back. */
    method DeallocBlocks(v: seq<nat>)
      requires Mounted() && Distinct(v)
      requires forall k | 0 <= k < |v| :: InArea(g, v[k]) && v[k] in Used(g, cache.logical)
      modifies cache
      ensures Mounted()
      ensures MetaOf(g, cache.logical) ==
              old(MetaOf(g, cache.logical)).(used := old(Used(g, cache.logical)) - Elems(v))
      ensures forall id | InArea(g, id) :: id in cache.logical && id in old(cache.logical)
                && cache.logical[id] == if id in v then ZeroBlock else old(cache.logical)[id]
    {
      hide QueueOk, Coherent, Pinned, Used, UsedInodes, Inodes;
      ghost var m, d := MetaOf(g, cache.logical), cache.logical;
      var k := 0;
      assert Elems(v[..0]) == {};
      while k < |v|
        invariant k <= |v| && Mounted()
        invariant MetaOf(g, cache.logical) == m.(used := m.used - Elems(v[..k]))
        invariant forall id | InArea(g, id) :: id in cache.logical && id in d
                    && cache.logical[id] == if id in v[..k] then ZeroBlock else d[id]
      {
        assert v[k] !in Elems(v[..k]);
        DeallocData(v[k]);
        assert v[..k + 1] == v[..k] + [v[k]];
        assert Elems(v[..k + 1]) == Elems(v[..k]) + {v[k]};
        k := k + 1;
      }
      assert v[..|v|] == v;
    }

    /** `Inode::clear`: the file becomes empty and its blocks are free and zero again. The number of blocks
        returned is the one asserted by the source. */
    method Clear(i: nat)
      requires Valid() && i in Live() && i < g.InodeCount()
      modifies cache
      ensures Valid() && cache.device == cache.logical
      ensures Live() == old(Live()) && forall j | 0 <= j < g.InodeCount() :: IsDir(j) == old(IsDir(j))
      ensures View() == old(View())[i := []]
    {
      hide QueueOk, Coherent, Pinned, Used, UsedInodes, Inodes, Inv, Contents, Tree, Owned, Opened;
      var node := Begin(i);
      ghost var m := PendingMeta(i, node);
      ghost var d := cache.logical;
      UsedCovers(g, m.inodes, m.used, d, i);
      ghost var ino := node.Rec();
      var v := node.ClearSize(cache);
      assert |v| == TotalBlocks(ino.size);
      ClearedBlank(ino, node.Rec(), d);
      BlocksOfFile(m.inodes, m.used, d, i);
      DeallocBlocks(v);
      AfterClear(m, d, i, node.Rec(), cache.logical);
      End(i, node);
    }

    lemma AfterClear(m: Meta, d: Disk, i: nat, ino: Inode, e: Disk)
      requires i < |m.inodes| == g.InodeCount() && MetaOk(g, m, d)
      requires Blank(ino) && Shaped(m.inodes[i])
      requires Formatted(g, e) && MetaOf(g, e) == m.(inodes := Inodes(g, e), used := m.used - OwnSet(m.inodes[i], d))
      requires m.inodes == Inodes(g, e)[i := m.inodes[i]]
      requires forall id | InArea(g, id) ::
                 id in d && id in e && e[id] == if id in OwnSet(m.inodes[i], d) then ZeroBlock else d[id]
      ensures MetaOk(g, MetaOf(g, e).(inodes := Inodes(g, e)[i := ino]), e)
      ensures Files(Inodes(g, e)[i := ino], e) == Files(m.inodes, d)[i := []]
    {
      hide Inv, Owned, Tree, Used, UsedInodes, Inodes;
      ClearFile(g, m.inodes, m.used, d, i, ino, e);
      assert Inodes(g, e)[i := ino] == m.inodes[i := ino];
    }

    lemma BlocksOfFile(inodes: seq<Inode>, used: set<nat>, d: Disk, i: nat)
      requires Inv(g, inodes, used, d) && i < |inodes| && Shaped(inodes[i])
      ensures Distinct(Owned(inodes[i], d))
      ensures forall k | 0 <= k < |Owned(inodes[i], d)| ::
                InArea(g, Owned(inodes[i], d)[k]) && Owned(inodes[i], d)[k] in used
    {
      hide Owned, AllTrees, Exclusive, Accounted;
      UsedCovers(g, inodes, used, d, i);
      forall k | 0 <= k < |Owned(inodes[i], d)|
        ensures InArea(g, Owned(inodes[i], d)[k]) && Owned(inodes[i], d)[k] in used
      {
        assert Owned(inodes[i], d)[k] in OwnSet(inodes[i], d);
      }
    }

    /** `alloc_inode`: the lowest free inode, as long as there is one. */
    method AllocInode() returns (i: nat)
      requires Valid() && |Live()| < g.InodeCount()
      modifies cache
      ensures Valid() && i < g.InodeCount() && i !in old(Live()) && forall j | 0 <= j < i :: j in old(Live())
      ensures Live() == old(Live()) + {i} && View() == old(View())
      ensures MetaOf(g, cache.logical) == old(MetaOf(g, cache.logical)).(usedInodes := Live())
    {
      hide QueueOk, Coherent, Pinned, UsedBits, Used, Inodes, Inv;
      ghost var d := cache.logical;
      assert OnDisk(d, inodeBitmap.startBlock, inodeBitmap.blocks);
      var pos := inodeBitmap.Alloc(cache);
      if pos.None? {
        SubsetSize(UpTo(g.InodeCount()), UsedInodes(g, d));
        assert false;
      }
      i := pos.value;
      InodeBitmapFrame(g, d, cache.logical, 1 + i / BLOCK_BITS);
      ghost var m := MetaOf(g, d);
      AreaFrame(g, m.inodes, m.used, d, cache.logical);
    }

    /** `DiskInode::initialize` on a newly allocated inode, stored at once. */
    method InitInode(i: nat, isDir: bool)
      requires Valid() && i < g.InodeCount() && |View()[i]| == 0
      modifies cache
      ensures Valid() && View() == old(View()) && Live() == old(Live())
      ensures forall j | 0 <= j < g.InodeCount() :: IsDir(j) == if j == i then isDir else old(IsDir(j))
      ensures Used(g, cache.logical) == old(Used(g, cache.logical))
    {
      hide QueueOk, Coherent, Pinned, UsedBits, Used, UsedInodes, Inodes, Inv;
      ghost var d := cache.logical;
      ghost var m := MetaOf(g, d);
      var ino := Inode(0, Zeros(INODE_DIRECT_COUNT), 0, 0, isDir);
      EmptyInode(m.inodes, m.used, d, i, ino);
      StoreInode(i, ino);
      AreaFrame(g, m.inodes[i := ino], m.used, d, cache.logical);
    }

    /** A new empty record in place of an empty one changes no file. */
    lemma EmptyInode(inodes: seq<Inode>, used: set<nat>, d: Disk, i: nat, ino: Inode)
      requires Inv(g, inodes, used, d) && i < |inodes| && Files(inodes, d)[i] == []
      requires Blank(ino)
      ensures Inv(g, inodes[i := ino], used, d) && Files(inodes[i := ino], d) == Files(inodes, d)
    {
      hide AllTrees, Exclusive, Accounted, SlotId, Tidy;
      UsedCovers(g, inodes, used, d, i);
      BlankTidy(ino, d);
      assert |Contents(inodes[i], d)| == 0;
      assert Owned(inodes[i], d) == [] && Owned(ino, d) == [];
      assert OwnSet(inodes[i], d) == {} && OwnSet(ino, d) == {};
      ReplaceFile(g, inodes, used, d, i, ino, used, d);
      assert Contents(ino, d) == [];
    }
  }
}
