/** The device format, byte by byte: a reader that knows nothing but offsets finds the files. */
module DiskFormat {
  import opened Collections
  import opened Bits
  import opened Blocks
  import opened BlockCaches
  import opened Bitmaps
  import opened Layout
  import opened DiskInodes
  import opened Efs
  import opened Ownership
  import opened Vfs
  import opened Directories

  // ---------- the reader ----------

  /** A little-endian u32 at a byte offset. */
  function U32(b: Block, at: nat): (w: nat)
    requires at + 4 <= 512
  {
    (b[at] as int) + 256 * ((b[at + 1] as int) + 256 * ((b[at + 2] as int) + 256 * (b[at + 3] as int)))
  }

  function Raw(d: Disk, id: nat): (b: Block) {
    if id in d then d[id] else ZeroBlock
  }

  /** Bit `k` of the bitmap that starts at block `start`: eight to a byte, lowest first. */
  predicate RawBit(d: Disk, start: nat, k: nat) {
    Bit(Raw(d, start + k / 4096)[k % 4096 / 8], k % 8)
  }

  /** The block that holds record `i`: four to a block, behind the super block and the inode bitmap. */
  function RecordBlock(d: Disk, i: nat): (b: Block) {
    Raw(d, 1 + U32(Raw(d, 0), 8) + i / 4)
  }

  /** The u32 at offset `at` of record `i`: the size, 28 direct pointers, and the two indirect ones. */
  function Field(d: Disk, i: nat, at: nat): (w: nat)
    requires at + 4 <= 128
  {
    U32(RecordBlock(d, i), 128 * (i % 4) + at)
  }

  /** The block of the `k`-th 512 bytes of file `i`. */
  function RawPointer(d: Disk, i: nat, k: nat): (id: nat)
    requires k < 28 + 128 + 128 * 128
  {
    if k < 28 then Field(d, i, 4 + 4 * k)
    else if k < 28 + 128 then U32(Raw(d, Field(d, i, 116)), 4 * (k - 28))
    else U32(Raw(d, U32(Raw(d, Field(d, i, 120)), 4 * ((k - 156) / 128))), 4 * ((k - 156) % 128))
  }

  function RawByte(d: Disk, i: nat, j: nat): (x: Byte)
    requires j / 512 < 28 + 128 + 128 * 128
  {
    Raw(d, RawPointer(d, i, j / 512))[j % 512]
  }

  // ---------- it reads what the file system means ----------

  lemma WordIsU32(b: Block, k: nat)
    requires k < WORDS
    ensures Word(b, k) == U32(b, 4 * k)
  {
  }

  /** The super block: six words, the magic number first. */
  lemma SuperBytes(g: Geometry, b: Block)
    requires Opened(b) == Some(g)
    ensures U32(b, 0) == 0x3b800001 && U32(b, 4) == g.totalBlocks && U32(b, 8) == g.inodeBitmapBlocks
    ensures U32(b, 12) == g.inodeAreaBlocks && U32(b, 16) == g.dataBitmapBlocks && U32(b, 20) == g.dataAreaBlocks
  {
    hide Word, U32;
    forall k | 0 <= k < 6 ensures Word(b, k) == U32(b, 4 * k) { WordIsU32(b, k); }
    assert Word(b, 0) == U32(b, 4 * 0) && Word(b, 1) == U32(b, 4 * 1) && Word(b, 2) == U32(b, 4 * 2);
    assert Word(b, 3) == U32(b, 4 * 3) && Word(b, 4) == U32(b, 4 * 4) && Word(b, 5) == U32(b, 4 * 5);
  }

  /** An inode record: size, direct, indirect1, indirect2 and the type byte, at these offsets. */
  lemma RecordBytes(b: Block, slot: nat)
    requires slot < 4
    ensures var ino, at := InodeIn(b, slot), 128 * slot;
            && ino.size == U32(b, at) && |ino.direct| == 28 && (forall k | 0 <= k < 28 :: ino.direct[k] == U32(b, at + 4 + 4 * k))
            && ino.indirect1 == U32(b, at + 116) && ino.indirect2 == U32(b, at + 120) && (ino.isDir <==> b[at + 124] == 1)
  {
    hide Word, U32;
    var at := 32 * slot;
    WordIsU32(b, at);
    WordIsU32(b, at + 29);
    WordIsU32(b, at + 30);
    forall k | 0 <= k < 28 ensures InodeIn(b, slot).direct[k] == U32(b, 128 * slot + 4 + 4 * k) {
      WordIsU32(b, at + 1 + k);
      assert 4 * (at + 1 + k) == 128 * slot + 4 + 4 * k;
    }
    LowByte(b, at + 31);
  }

  lemma LowByte(b: Block, k: nat)
    requires k < WORDS
    ensures Word(b, k) % 256 == b[4 * k]
  {
  }

  /** Bit `k` of a bitmap block is bit `k % 8` of byte `k / 8`. */
  lemma BitIsInByte(b: Block, k: nat)
    requires k < 4096
    ensures BlockBit(b, k) <==> Bit(b[k / 8], k % 8)
  {
    hide Bit, Pow2, Word;
    var i, r := k / 64, k % 64;
    assert Pow2(32) == U32_LIMIT by { Powers(); }
    var lo, hi := Word(b, 2 * i), Word(b, 2 * i + 1);
    BitJoin(lo, hi, 32, r);
    if r < 32 { BitInWord(b, 2 * i, r); } else { BitInWord(b, 2 * i + 1, r - 32); }
  }

  lemma Powers()
    ensures Pow2(8) == 256 && Pow2(32) == U32_LIMIT
  {
    assert Pow2(10) == 1024;
    assert Pow2(20) == 1024 * Pow2(10);
    assert Pow2(30) == 1024 * Pow2(20);
  }

  lemma BitInWord(b: Block, k: nat, r: nat)
    requires k < WORDS && r < 32
    ensures Bit(Word(b, k), r) <==> Bit(b[4 * k + r / 8], r % 8)
  {
    hide Bit, Pow2;
    assert Pow2(8) == 256 by { Powers(); }
    var b0: nat, b1: nat, b2: nat, b3: nat := b[4 * k], b[4 * k + 1], b[4 * k + 2], b[4 * k + 3];
    WordIsU32(b, k);
    BitJoin(b0, b1 + 256 * (b2 + 256 * b3), 8, r);
    if r >= 8 { BitJoin(b1, b2 + 256 * b3, 8, r - 8); }
    if r >= 16 { BitJoin(b2, b3, 8, r - 16); }
  }

  lemma BitOnDisk(d: Disk, start: nat, k: nat)
    requires start + k / BLOCK_BITS in d
    ensures BitAt(d, start, k) <==> RawBit(d, start, k)
  {
    hide BlockBit, Bit;
    BitIsInByte(d[start + k / BLOCK_BITS], k % BLOCK_BITS);
    assert k % 4096 % 8 == k % 8;
  }

  /** What the reader finds on a valid device: the geometry, each inode's record, and which inodes are in use. */
  lemma DeviceHoldsInodes(fs: EasyFileSystem, i: nat)
    requires fs.Valid() && i < fs.g.InodeCount()
    ensures var g, d := fs.g, fs.cache.logical;
            && U32(Raw(d, 0), 0) == 0x3b800001 && U32(Raw(d, 0), 8) == g.inodeBitmapBlocks
            && Field(d, i, 0) == |fs.View()[i]| && (fs.IsDir(i) <==> RecordBlock(d, i)[128 * (i % 4) + 124] == 1)
            && (i in fs.Live() <==> RawBit(d, 1, i))
  {
    hide Inv, Used, QueueOk, Coherent, Pinned, InodeIn, U32, Opened, RawBit;
    var g, d := fs.g, fs.cache.logical;
    SuperBytes(g, d[0]);
    RecordOf(g, d, i);
    UsedCovers(g, Inodes(g, d), Used(g, d), d, i);
    InodeBit(g, d, i);
  }

  lemma RecordOf(g: Geometry, d: Disk, i: nat)
    requires Formatted(g, d) && Opened(d[0]) == Some(g) && i < g.InodeCount()
    ensures var ino := Inodes(g, d)[i];
            && ino.size == Field(d, i, 0) && |ino.direct| == 28 && (forall k | 0 <= k < 28 :: ino.direct[k] == Field(d, i, 4 + 4 * k))
            && ino.indirect1 == Field(d, i, 116) && ino.indirect2 == Field(d, i, 120)
            && (ino.isDir <==> RecordBlock(d, i)[128 * (i % 4) + 124] == 1)
  {
    hide InodeIn, U32, Opened;
    SuperBytes(g, d[0]);
    var (b, slot) := InodePos(g, i);
    assert b == 1 + g.inodeBitmapBlocks + i / 4 && slot == i % 4;
    RecordBytes(d[b], slot);
  }

  lemma InodeBit(g: Geometry, d: Disk, i: nat)
    requires Formatted(g, d) && i < g.InodeCount()
    ensures i in UsedInodes(g, d) <==> RawBit(d, 1, i)
  {
    hide BitAt, RawBit;
    assert 1 + i / BLOCK_BITS in d;
    BitOnDisk(d, 1, i);
  }

  /** The reader finds every byte of every file. */
  lemma DeviceHoldsFiles(fs: EasyFileSystem, i: nat, j: nat)
    requires fs.Valid() && i < fs.g.InodeCount() && j < |fs.View()[i]|
    ensures var d := fs.cache.logical;
            j / 512 < 28 + 128 + 128 * 128 && RawPointer(d, i, j / 512) in d && RawByte(d, i, j) == fs.View()[i][j]
  {
    hide Inv, Used, UsedInodes, QueueOk, Coherent, Pinned, Inodes, Tree, Owned, Opened, RawPointer;
    var g, d := fs.g, fs.cache.logical;
    UsedCovers(g, Inodes(g, d), Used(g, d), d, i);
    ByteOf(g, d, i, j);
  }

  lemma ByteOf(g: Geometry, d: Disk, i: nat, j: nat)
    requires Formatted(g, d) && Opened(d[0]) == Some(g) && i < g.InodeCount()
    requires var ino := Inodes(g, d)[i]; Shaped(ino) && Tree(ino, d) && j < ino.size
    ensures j / 512 < 28 + 128 + 128 * 128 && RawPointer(d, i, j / 512) in d
    ensures RawByte(d, i, j) == Contents(Inodes(g, d)[i], d)[j]
  {
    hide Tree, Owned, Inodes, Opened, RawPointer, Flat, Reachable, Looked, DataPos;
    var ino, k := Inodes(g, d)[i], j / BLOCK_SZ;
    assert k < DataBlocks(ino.size);
    DiskInode.PathOf(ino, d, k);
    FlatAt(ino, d, j);
    BlocksBelow(ino, k);
    PointerOf(g, d, i, k);
  }

  lemma BlocksBelow(ino: Layout.Inode, k: nat)
    requires Shaped(ino) && k < DataBlocks(ino.size)
    ensures k < 28 + 128 + 128 * 128
  {
  }

  lemma PointerOf(g: Geometry, d: Disk, i: nat, k: nat)
    requires Formatted(g, d) && Opened(d[0]) == Some(g) && i < g.InodeCount() && k < 28 + 128 + 128 * 128
    requires |Inodes(g, d)[i].direct| == INODE_DIRECT_COUNT && Reachable(Inodes(g, d)[i], d, k)
    ensures RawPointer(d, i, k) == Looked(Inodes(g, d)[i], d, k)
  {
    hide Inodes, Opened, Word, U32, Field;
    RecordOf(g, d, i);
    var ino := Inodes(g, d)[i];
    if 28 <= k < 156 {
      WordIsU32(d[ino.indirect1], k - 28);
    } else if 156 <= k {
      var a, b := (k - 156) / 128, (k - 156) % 128;
      WordIsU32(d[ino.indirect2], a);
      WordIsU32(d[Word(d[ino.indirect2], a)], b);
    }
  }

  /** Block `id` of the data area is in use exactly when its bit is set in the data bitmap. */
  lemma DeviceHoldsDataBits(fs: EasyFileSystem, k: nat)
    requires fs.Valid() && k < fs.g.dataAreaBlocks
    ensures var g, d := fs.g, fs.cache.logical;
            g.DataAreaStart() + k in Used(g, d) <==> RawBit(d, 1 + U32(Raw(d, 0), 8) + U32(Raw(d, 0), 12), k)
  {
    hide Inv, UsedInodes, Inodes, QueueOk, Coherent, Pinned, BitAt, RawBit, Opened, U32;
    var g, d := fs.g, fs.cache.logical;
    SuperBytes(g, d[0]);
    assert g.DataBitmapStart() + k / BLOCK_BITS in d;
    BitOnDisk(d, g.DataBitmapStart(), k);
    UsedMembership(g, d, g.DataAreaStart() + k);
  }

  /** A directory entry: the name from byte 0, padded with zeroes to 28 bytes, then the inode number, little-endian. */
  lemma EntryBytes(name: Name, id: nat)
    requires Fits(name) && id < U32_LIMIT
    ensures var e := NewEntry(name, id);
            && |e| == 32 && e[..|name|] == name && (forall k | |name| <= k < 28 :: e[k] == 0)
            && (e[28] as int) + 256 * ((e[29] as int) + 256 * ((e[30] as int) + 256 * (e[31] as int))) == id
  {
    hide Utf8;
    EntryParts(name, id);
  }
}
