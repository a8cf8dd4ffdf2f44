/** The on-disk layout of easy-fs: super block, inode bitmap, inode area, data bitmap, data area. */
module Efs {
  import opened Collections
  import opened Blocks
  import opened Bitmaps
  import opened Layout

  const EFS_MAGIC: nat := 0x3b800001
  const INODE_SIZE: nat := 128
  const INODES_PER_BLOCK: nat := 4
  const INODE_WORDS: nat := 32

  /** Sizes of the five regions, in blocks. */
  datatype Geometry = Geometry(totalBlocks: nat, inodeBitmapBlocks: nat, inodeAreaBlocks: nat,
                               dataBitmapBlocks: nat, dataAreaBlocks: nat)
  {
    function InodeCount(): (n: nat) { inodeBitmapBlocks * BLOCK_BITS }
    function InodeAreaStart(): (b: nat) { 1 + inodeBitmapBlocks }
    function DataBitmapStart(): (b: nat) { 1 + inodeBitmapBlocks + inodeAreaBlocks }
    function DataAreaStart(): (b: nat) { 1 + inodeBitmapBlocks + inodeAreaBlocks + dataBitmapBlocks }
  }

  /** The regions fill the device, every inode has a place, and every data block has a bit. */
  predicate Sound(g: Geometry) {
    && g.DataAreaStart() + g.dataAreaBlocks == g.totalBlocks < U32_LIMIT
    && g.InodeCount() == g.inodeAreaBlocks * INODES_PER_BLOCK
    && g.dataAreaBlocks <= g.dataBitmapBlocks * BLOCK_BITS
  }

  /** The sizes computed by `EasyFileSystem::create`. */
  function Plan(totalBlocks: nat, inodeBitmapBlocks: nat): (g: Geometry)
    requires 1 + inodeBitmapBlocks + inodeBitmapBlocks * 1024 <= totalBlocks < U32_LIMIT
    ensures g.totalBlocks == totalBlocks && g.inodeBitmapBlocks == inodeBitmapBlocks
  {
    var inodeNum := inodeBitmapBlocks * BLOCK_BITS;
    var inodeAreaBlocks := (inodeNum * INODE_SIZE + BLOCK_SZ - 1) / BLOCK_SZ;
    var dataTotal := totalBlocks - 1 - (inodeBitmapBlocks + inodeAreaBlocks);
    var dataBitmapBlocks := (dataTotal + 4096) / 4097;
    Geometry(totalBlocks, inodeBitmapBlocks, inodeAreaBlocks, dataBitmapBlocks, dataTotal - dataBitmapBlocks)
  }

  /** Every device large enough for its inode area gets a sound layout, with no bitmap block to spare. */
  lemma PlanIsSound(totalBlocks: nat, inodeBitmapBlocks: nat)
    requires 1 + inodeBitmapBlocks + inodeBitmapBlocks * 1024 <= totalBlocks < U32_LIMIT
    ensures var g := Plan(totalBlocks, inodeBitmapBlocks);
            && Sound(g)
            && (g.dataBitmapBlocks > 0 ==> (g.dataBitmapBlocks - 1) * BLOCK_BITS <= g.dataAreaBlocks)
  {
  }

  // ---------- words, records and the inode area ----------

  /** `ws` stored from word `at` on. */
  function PutWords(b: Block, at: nat, ws: seq<nat>): (r: Block)
    requires at + |ws| <= WORDS && AreU32(ws)
    ensures forall j | 0 <= j < WORDS :: Word(r, j) == if at <= j < at + |ws| then ws[j - at] else Word(b, j)
  {
    if ws == [] then b
    else PutWord(PutWords(b, at, ws[..|ws| - 1]), at + |ws| - 1, ws[|ws| - 1])
  }

  /** A `DiskInode` record is 32 words: size, direct, indirect1, indirect2, type. */
  function InodeWords(ino: Inode): (ws: seq<nat>)
    requires Storable(ino)
    ensures |ws| == INODE_WORDS && AreU32(ws)
  {
    [ino.size] + ino.direct + [ino.indirect1, ino.indirect2, if ino.isDir then 1 else 0]
  }

  function DirectIn(b: Block, at: nat): (s: seq<nat>)
    requires at + INODE_DIRECT_COUNT <= WORDS
    ensures |s| == INODE_DIRECT_COUNT && AreU32(s)
  {
    var s := seq<nat>(INODE_DIRECT_COUNT, k requires 0 <= k < INODE_DIRECT_COUNT => Word(b, at + k));
    assert forall k | 0 <= k < INODE_DIRECT_COUNT :: s[k] == Word(b, at + k);
    s
  }

  function InodeIn(b: Block, slot: nat): (ino: Inode)
    requires slot < INODES_PER_BLOCK
    ensures |ino.direct| == INODE_DIRECT_COUNT && AreU32(ino.direct)
  {
    var at := INODE_WORDS * slot;
    Inode(Word(b, at), DirectIn(b, at + 1),
          Word(b, at + 29), Word(b, at + 30), Word(b, at + 31) % 256 == 1)
  }

  /** Writing one record of a block reads back and leaves the other three alone. */
  lemma InodeRoundTrip(b: Block, slot: nat, ino: Inode, other: nat)
    requires slot < INODES_PER_BLOCK && other < INODES_PER_BLOCK && Storable(ino)
    ensures InodeIn(PutWords(b, INODE_WORDS * slot, InodeWords(ino)), other) == if other == slot then ino else InodeIn(b, other)
  {
    hide Word, PutWords;
    var ws := InodeWords(ino);
    var r := PutWords(b, INODE_WORDS * slot, ws);
    var x := InodeIn(r, other);
    if other == slot {
      assert forall k | 0 <= k < 28 :: ws[1 + k] == ino.direct[k];
      assert x.direct == ino.direct;
    } else {
      assert x.direct == InodeIn(b, other).direct;
    }
  }

  /** `get_disk_inode_pos`: block, and record within the block (its byte offset divided by 128). */
  function InodePos(g: Geometry, i: nat): (pos: (nat, nat))
    requires Sound(g) && i < g.InodeCount()
    ensures g.InodeAreaStart() <= pos.0 < g.DataBitmapStart()
    ensures pos.1 < INODES_PER_BLOCK && pos.1 * INODE_SIZE + INODE_SIZE <= BLOCK_SZ
    ensures BLOCK_SZ * pos.0 + INODE_SIZE * pos.1 == BLOCK_SZ * g.InodeAreaStart() + INODE_SIZE * i
  {
    (g.InodeAreaStart() + i / INODES_PER_BLOCK, i % INODES_PER_BLOCK)
  }

  /** Inode records never overlap. */
  lemma InodePosInjective(g: Geometry, i: nat, j: nat)
    requires Sound(g) && i < g.InodeCount() && j < g.InodeCount()
    ensures InodePos(g, i) == InodePos(g, j) <==> i == j
  {
  }

  ghost predicate Formatted(g: Geometry, d: Disk) {
    Sound(g) && forall id :: id in d <==> 0 <= id < g.totalBlocks
  }

  /** The inode table stored in the inode area. */
  ghost function Inodes(g: Geometry, d: Disk): (inodes: seq<Inode>)
    requires Formatted(g, d)
    ensures |inodes| == g.InodeCount()
  {
    seq(g.InodeCount(), i requires 0 <= i < g.InodeCount() => InodeIn(d[InodePos(g, i).0], InodePos(g, i).1))
  }

  /** The ids of the blocks whose data-bitmap bit is set. */
  ghost function Used(g: Geometry, d: Disk): (s: set<nat>)
    requires Formatted(g, d)
  {
    var bits := UsedBits(d, g.DataBitmapStart(), g.dataBitmapBlocks);
    set k | k in bits :: g.DataAreaStart() + k
  }

  lemma UsedMembership(g: Geometry, d: Disk, id: nat)
    requires Formatted(g, d)
    ensures id in Used(g, d) <==>
            id >= g.DataAreaStart() && id - g.DataAreaStart() in UsedBits(d, g.DataBitmapStart(), g.dataBitmapBlocks)
  {
    hide BitAt;
    if id >= g.DataAreaStart() && id - g.DataAreaStart() in UsedBits(d, g.DataBitmapStart(), g.dataBitmapBlocks) {
      assert g.DataAreaStart() + (id - g.DataAreaStart()) in Used(g, d);
    }
  }

  /** The allocated inodes. */
  ghost function UsedInodes(g: Geometry, d: Disk): (s: set<nat>)
    requires Formatted(g, d)
  {
    UsedBits(d, 1, g.inodeBitmapBlocks)
  }

  /** The two disks agree on blocks `lo..hi`. */
  ghost predicate SameRegion(d: Disk, e: Disk, lo: nat, hi: nat) {
    d.Keys == e.Keys && forall id | lo <= id < hi && id in d :: e[id] == d[id]
  }

  lemma SameRegionTrans(d: Disk, e: Disk, f: Disk, lo: nat, hi: nat)
    requires d == e || SameRegion(d, e, lo, hi)
    requires e == f || SameRegion(e, f, lo, hi)
    ensures SameRegion(d, f, lo, hi)
  {
  }

  lemma InodesFrame(g: Geometry, d: Disk, e: Disk)
    requires Formatted(g, d) && SameRegion(d, e, g.InodeAreaStart(), g.DataBitmapStart())
    ensures Formatted(g, e) && Inodes(g, e) == Inodes(g, d)
  {
    assert forall id :: id in d <==> id in d.Keys;
    assert forall i | 0 <= i < g.InodeCount() :: Inodes(g, e)[i] == Inodes(g, d)[i];
  }

  lemma UsedBitsFrame(d: Disk, e: Disk, start: nat, blocks: nat)
    requires OnDisk(d, start, blocks) && SameRegion(d, e, start, start + blocks)
    ensures OnDisk(e, start, blocks) && UsedBits(e, start, blocks) == UsedBits(d, start, blocks)
  {
    hide BlockBit;
    forall i | start <= i < start + blocks ensures i in e { assert i in d.Keys; }
    forall k | 0 <= k < blocks * BLOCK_BITS ensures BitAt(e, start, k) == BitAt(d, start, k) {
      assert start + k / BLOCK_BITS in d.Keys;
    }
  }

  /** The effect of storing inode record `i`. */
  lemma InodeStored(g: Geometry, d: Disk, i: nat, ino: Inode)
    requires Formatted(g, d) && i < g.InodeCount() && Storable(ino)
    ensures var (b, slot) := InodePos(g, i);
            && b in d
            && var e := d[b := PutWords(d[b], INODE_WORDS * slot, InodeWords(ino))];
               Formatted(g, e) && Inodes(g, e) == Inodes(g, d)[i := ino]
  {
    hide Word, PutWords;
    var (b, slot) := InodePos(g, i);
    var e := d[b := PutWords(d[b], INODE_WORDS * slot, InodeWords(ino))];
    forall j | 0 <= j < g.InodeCount() ensures Inodes(g, e)[j] == Inodes(g, d)[i := ino][j] {
      var (c, other) := InodePos(g, j);
      InodePosInjective(g, i, j);
      if c == b { InodeRoundTrip(d[b], slot, ino, other); }
    }
  }

  // ---------- super block ----------

  function SuperWords(g: Geometry): (ws: seq<nat>)
    requires Sound(g)
    ensures |ws| == 6 && AreU32(ws)
  {
    [EFS_MAGIC, g.totalBlocks, g.inodeBitmapBlocks, g.inodeAreaBlocks, g.dataBitmapBlocks, g.dataAreaBlocks]
  }

  /** `EasyFileSystem::open`: the geometry read from the super block; the magic check fails otherwise. */
  function Opened(super: Block): (g: Option<Geometry>) {
    if Word(super, 0) != EFS_MAGIC then None
    else Some(Geometry(Word(super, 1), Word(super, 2), Word(super, 3), Word(super, 4), Word(super, 5)))
  }

  /** `open` recovers the geometry `create` wrote, and rejects a block without the magic number. */
  lemma OpenAfterCreate(b: Block, g: Geometry)
    requires Sound(g)
    ensures Opened(PutWords(b, 0, SuperWords(g))) == Some(g)
    ensures Opened(b).None? <==> Word(b, 0) != EFS_MAGIC
  {
    hide Word, PutWords;
    var r := PutWords(b, 0, SuperWords(g));
    assert forall j | 0 <= j < 6 :: Word(r, j) == SuperWords(g)[j];
  }
}
