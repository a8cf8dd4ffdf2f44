/** Creating and opening a file system, and whole runs of file operations over it. */
module FsRuns {
  import opened Collections
  import opened Blocks
  import opened BlockCaches
  import opened Bits
  import opened Bitmaps
  import opened Layout
  import opened DiskInodes
  import opened Efs
  import opened Ownership
  import opened Vfs

  // ---------- a fresh disk ----------

  lemma {:induction false} ZeroHasNoBit(i: nat)
    ensures !Bit(0, i)
  {
    if i > 0 { ZeroHasNoBit(i - 1); }
  }

  lemma ZeroBitmap(d: Disk, start: nat, blocks: nat)
    requires forall id | start <= id < start + blocks :: id in d && d[id] == ZeroBlock
    ensures OnDisk(d, start, blocks) && UsedBits(d, start, blocks) == {}
  {
    hide Word, Bit;
    forall k | 0 <= k < blocks * BLOCK_BITS ensures !BitAt(d, start, k) {
      ZeroWords(2 * (k % BLOCK_BITS / 64));
      ZeroWords(2 * (k % BLOCK_BITS / 64) + 1);
      ZeroHasNoBit(k % BLOCK_BITS % 64);
    }
  }

  lemma EmptyTree(ino: Inode, d: Disk)
    requires Blank(ino)
    ensures Tree(ino, d) && SlackZero(ino, d) && OwnSet(ino, d) == {} && Contents(ino, d) == []
  {
    BlankTidy(ino, d);
  }

  lemma ZeroInodes(g: Geometry, d: Disk, i: nat)
    requires Formatted(g, d) && i < g.InodeCount()
    requires forall id | 1 <= id < g.totalBlocks :: id in d && d[id] == ZeroBlock
    ensures Blank(Inodes(g, d)[i])
  {
    hide Word;
    forall j | 0 <= j < WORDS { ZeroWords(j); }
  }

  /** A zeroed device with a super block is a valid file system in which every file is empty. */
  lemma ZeroDiskIsValid(g: Geometry, d: Disk)
    requires Formatted(g, d)
    requires forall id | 1 <= id < g.totalBlocks :: id in d && d[id] == ZeroBlock
    requires Opened(d[0]) == Some(g)
    ensures FsOk(g, d) && UsedInodes(g, d) == {}
    ensures forall i | 0 <= i < g.InodeCount() :: FilesOf(g, d)[i] == []
  {
    hide UsedBits, Inodes, Tree, SlackZero, Contents, OwnSet, Opened;
    ZeroBitmap(d, 1, g.inodeBitmapBlocks);
    ZeroBitmap(d, g.DataBitmapStart(), g.dataBitmapBlocks);
    var inodes := Inodes(g, d);
    forall i | 0 <= i < |inodes|
      ensures Shaped(inodes[i]) && inodes[i].size == 0 && Tree(inodes[i], d) && SlackZero(inodes[i], d)
      ensures OwnSet(inodes[i], d) == {} && Contents(inodes[i], d) == []
    {
      ZeroInodes(g, d, i);
      EmptyTree(inodes[i], d);
    }
    assert Used(g, d) == {};
  }

  /** `EasyFileSystem::create`. */
  method Create(cache: Cache, totalBlocks: nat, inodeBitmapBlocks: nat) returns (fs: EasyFileSystem)
    requires cache.Usable() && 0 < inodeBitmapBlocks
    requires 1 + inodeBitmapBlocks + inodeBitmapBlocks * 1024 <= totalBlocks < U32_LIMIT
    requires forall id :: id in cache.logical <==> 0 <= id < totalBlocks
    modifies cache
    ensures fs.Valid() && fs.cache == cache && fs.g == Plan(totalBlocks, inodeBitmapBlocks)
    ensures forall i | 0 <= i < fs.g.InodeCount() :: fs.View()[i] == []
    ensures fs.Live() == {0} && fs.IsDir(0)
    ensures cache.device == cache.logical && Opened(cache.device[0]) == Some(fs.g)
  {
    hide QueueOk, Coherent, Pinned, UsedBits, Used, UsedInodes, Inodes, Inv, Opened, FsOk, FilesOf;
    PlanIsSound(totalBlocks, inodeBitmapBlocks);
    var g := Plan(totalBlocks, inodeBitmapBlocks);
    fs := new EasyFileSystem(cache, g);
    WriteSuper(cache, g);
    ZeroDiskIsValid(g, cache.logical);
    var root := FormatRoot(fs);
    SuperOf(g, cache.logical);
  }

  lemma SuperOf(g: Geometry, d: Disk)
    requires FsOk(g, d)
    ensures 0 in d && Opened(d[0]) == Some(g)
  {
  }

  method WriteSuper(cache: Cache, g: Geometry)
    requires cache.Usable() && Formatted(g, cache.logical)
    modifies cache
    ensures cache.Usable() && Formatted(g, cache.logical) && Opened(cache.logical[0]) == Some(g)
    ensures forall id | 1 <= id < g.totalBlocks :: id in cache.logical && cache.logical[id] == ZeroBlock
  {
    hide QueueOk, Coherent, Pinned, PutWords, Opened;
    ClearAll(cache, g.totalBlocks);
    cache.Store(0, PutWords(ZeroBlock, 0, SuperWords(g)));
    OpenAfterCreate(ZeroBlock, g);
  }

  /** The last part of `create`: the root directory is inode 0. */
  method FormatRoot(fs: EasyFileSystem) returns (root: nat)
    requires fs.Valid() && fs.Live() == {} && 0 < fs.g.InodeCount()
    requires forall i | 0 <= i < fs.g.InodeCount() :: fs.View()[i] == []
    modifies fs.cache
    ensures fs.Valid() && fs.View() == old(fs.View()) && root == 0
    ensures fs.Live() == {0} && fs.IsDir(0)
    ensures fs.cache.device == fs.cache.logical
  {
    hide QueueOk, Coherent, Pinned, UsedBits, Used, Inodes, Inv;
    ghost var live := fs.Live();
    root := fs.AllocInode();
    assert root > 0 ==> 0 in live;
    fs.InitInode(root, true);
    fs.cache.SyncAll();
  }

  /** The loop of `create` that clears the device. */
  method ClearAll(cache: Cache, totalBlocks: nat)
    requires cache.Usable() && forall id :: id in cache.logical <==> 0 <= id < totalBlocks
    modifies cache
    ensures cache.Usable() && forall id :: id in cache.logical <==> 0 <= id < totalBlocks
    ensures forall id | 0 <= id < totalBlocks :: cache.logical[id] == ZeroBlock
  {
    hide QueueOk, Coherent, Pinned;
    var i := 0;
    while i < totalBlocks
      invariant i <= totalBlocks && cache.Usable()
      invariant forall id :: id in cache.logical <==> 0 <= id < totalBlocks
      invariant forall id | 0 <= id < i :: cache.logical[id] == ZeroBlock
    {
      cache.Store(i, ZeroBlock);
      i := i + 1;
    }
  }

  /** `EasyFileSystem::open`: panics exactly when the super block lacks the magic number; otherwise mounts
      with the geometry recorded there. */
  method Open(cache: Cache) returns (fs: EasyFileSystem?)
    requires cache.Usable() && 0 in cache.logical
    modifies cache`device, cache`copies, cache`queue, cache`detached
    ensures cache.Usable()
    ensures fs == null <==> Opened(cache.logical[0]).None?
    ensures fs != null ==> fs.cache == cache && Some(fs.g) == Opened(cache.logical[0])
    ensures fs != null && FsOk(fs.g, cache.logical) ==> fs.Valid()
  {
    hide QueueOk, Coherent, Pinned, Word, MetaOk;
    var b := cache.Load(0);
    var g := Opened(b);
    if g.None? { return null; }
    fs := new EasyFileSystem(cache, g.value);
  }

  // ---------- runs ----------

  datatype FileOp =
    | Write(inode: nat, offset: nat, buf: seq<Byte>)
    | Read(inode: nat, offset: nat, len: nat)
    | Clear(inode: nat)

  /** The same operation on a plain table of byte sequences. */
  function Apply(files: seq<seq<Byte>>, op: FileOp): (r: seq<seq<Byte>>)
    requires op.inode < |files|
    ensures |r| == |files|
  {
    match op
    case Write(i, off, buf) => files[i := FileWrite(files[i], off, buf)]
    case Read(_, _, _) => files
    case Clear(i) => files[i := []]
  }

  function Output(files: seq<seq<Byte>>, op: FileOp): (out: seq<Byte>)
    requires op.inode < |files|
  {
    if op.Read? then FileRead(files[op.inode], op.offset, op.len) else []
  }

  /** What the source demands of a call: a live inode, a block to write to, a size within the limit and room. */
  predicate Allowed(files: seq<seq<Byte>>, live: set<nat>, capacity: nat, op: FileOp) {
    && op.inode < |files| && op.inode in live
    && (op.Write? ==>
          && Addressable(|files[op.inode]|, op.offset, |op.buf|) && op.offset + |op.buf| <= MAX_SIZE
          && SumTotal(Sizes(files)) + BlocksNeeded(|files[op.inode]|, op.offset + |op.buf|) <= capacity)
  }

  predicate AllAllowed(files: seq<seq<Byte>>, live: set<nat>, capacity: nat, ops: seq<FileOp>)
    decreases |ops|
  {
    ops == [] || (Allowed(files, live, capacity, ops[0]) && AllAllowed(Apply(files, ops[0]), live, capacity, ops[1..]))
  }

  function ApplyAll(files: seq<seq<Byte>>, live: set<nat>, capacity: nat, ops: seq<FileOp>): (r: seq<seq<Byte>>)
    requires AllAllowed(files, live, capacity, ops)
    decreases |ops|
  {
    if ops == [] then files else ApplyAll(Apply(files, ops[0]), live, capacity, ops[1..])
  }

  function OutputAll(files: seq<seq<Byte>>, live: set<nat>, capacity: nat, ops: seq<FileOp>): (r: seq<seq<Byte>>)
    requires AllAllowed(files, live, capacity, ops)
    decreases |ops|
  {
    if ops == [] then []
    else [Output(files, ops[0])] + OutputAll(Apply(files, ops[0]), live, capacity, ops[1..])
  }

  /** One operation of a run. */
  method Step(fs: EasyFileSystem, op: FileOp) returns (out: seq<Byte>)
    requires fs.Valid() && Allowed(fs.View(), fs.Live(), fs.g.dataAreaBlocks, op)
    modifies fs.cache
    ensures fs.Valid() && fs.Live() == old(fs.Live())
    ensures forall j | 0 <= j < fs.g.InodeCount() :: fs.IsDir(j) == old(fs.IsDir(j))
    ensures fs.View() == Apply(old(fs.View()), op) && out == Output(old(fs.View()), op)
  {
    hide QueueOk, Coherent, Pinned, FsOk, FilesOf, UsedInodes, Used, FileWrite, FileRead, SumTotal, Sizes, BlocksNeeded;
    ConservationOf(fs);
    match op
    case Write(i, off, buf) =>
      var n := fs.WriteAt(i, off, buf);
      out := [];
    case Read(i, off, len) =>
      var buf := new Byte[len](_ => 0);
      var n := fs.ReadAt(i, off, buf);
      out := buf[..n];
    case Clear(i) =>
      fs.Clear(i);
      out := [];
  }

  /** Over every run, the file system behaves as a table of independent byte sequences, and the blocks in use
      are exactly those the files need. */
  method Run(fs: EasyFileSystem, ops: seq<FileOp>) returns (outs: seq<seq<Byte>>)
    requires fs.Valid() && AllAllowed(fs.View(), fs.Live(), fs.g.dataAreaBlocks, ops)
    modifies fs.cache
    ensures fs.Valid() && fs.Live() == old(fs.Live())
    ensures forall j | 0 <= j < fs.g.InodeCount() :: fs.IsDir(j) == old(fs.IsDir(j))
    ensures fs.View() == ApplyAll(old(fs.View()), old(fs.Live()), fs.g.dataAreaBlocks, ops)
    ensures outs == OutputAll(old(fs.View()), old(fs.Live()), fs.g.dataAreaBlocks, ops)
    ensures fs.FreeBlocks() == fs.g.dataAreaBlocks - SumTotal(Sizes(fs.View()))
  {
    hide QueueOk, Coherent, Pinned, FsOk, FilesOf, UsedInodes, Allowed, Apply, Output;
    ghost var files, live, cap := fs.View(), fs.Live(), fs.g.dataAreaBlocks;
    outs := [];
    var k := 0;
    assert ops[0..] == ops;
    while k < |ops|
      invariant k <= |ops| && fs.Valid() && fs.Live() == live
      invariant forall j | 0 <= j < fs.g.InodeCount() :: fs.IsDir(j) == old(fs.IsDir(j))
      invariant AllAllowed(fs.View(), live, cap, ops[k..])
      invariant ApplyAll(fs.View(), live, cap, ops[k..]) == ApplyAll(files, live, cap, ops)
      invariant outs + OutputAll(fs.View(), live, cap, ops[k..]) == OutputAll(files, live, cap, ops)
    {
      ghost var before := fs.View();
      assert ops[k..][0] == ops[k] && ops[k..][1..] == ops[k + 1..];
      var out := Step(fs, ops[k]);
      outs := outs + [out];
      k := k + 1;
    }
    ConservationOf(fs);
  }

  lemma ConservationOf(fs: EasyFileSystem)
    requires fs.Valid()
    ensures fs.FreeBlocks() == fs.g.dataAreaBlocks - SumTotal(Sizes(fs.View()))
  {
    hide Inv, Used, Inodes;
    Conservation(fs.g, Inodes(fs.g, fs.cache.logical), Used(fs.g, fs.cache.logical), fs.cache.logical);
  }

  // ---------- an empty write that fails ----------

  /** Inode `i` holds `k` whole blocks, and the lookup of a write at its end leads nowhere. */
  ghost predicate EndUnreachable(fs: EasyFileSystem, i: nat, k: nat)
    requires fs.Valid() && i < fs.g.InodeCount()
    reads fs, fs.cache
  {
    var ino := Inodes(fs.g, fs.cache.logical)[i];
    && |fs.View()[i]| == BLOCK_SZ * k && |ino.direct| == INODE_DIRECT_COUNT
    && !DiskInode.Writable(ino, fs.cache.logical, k)
  }

  /** At the end of a file whose last block is a boundary of the pointer tree, an empty write finds no block. */
  lemma EmptyWriteFails(fs: EasyFileSystem, i: nat, k: nat)
    requires fs.Valid() && i < fs.g.InodeCount() && |fs.View()[i]| == BLOCK_SZ * k && Boundary(k)
    requires EFS_MAGIC !in fs.cache.logical
    ensures EndUnreachable(fs, i, k)
  {
    hide Inv, Used, UsedInodes, Inodes, QueueOk, Coherent, Pinned, DiskInode.Writable, Boundary;
    var g, d := fs.g, fs.cache.logical;
    var m := MetaOf(g, d);
    UsedCovers(g, m.inodes, m.used, d, i);
    var n := BLOCK_SZ * k;
    assert n / BLOCK_SZ == k && n % BLOCK_SZ == 0;
    WriteFindsBlockExactly(g, m, d, i, n, n, 0);
  }

  /** A cache over a device of `n` zeroed blocks. */
  method ZeroDevice(n: nat) returns (cache: BlockCacheManager<Block>)
    ensures fresh(cache) && cache.Usable() && forall id :: id in cache.logical <==> 0 <= id < n
  {
    var device: map<nat, Block> := map[];
    for i := 0 to n
      invariant forall id :: id in device <==> 0 <= id < i
    {
      device := device[i := ZeroBlock];
    }
    cache := new BlockCacheManager<Block>(device);
    assert Pinned(cache.copies) == {};
  }

  lemma {:induction false} SumTotalZero(sizes: seq<nat>)
    requires forall i | 0 <= i < |sizes| :: sizes[i] == 0
    ensures SumTotal(sizes) == 0
  {
    if sizes != [] { SumTotalZero(sizes[..|sizes| - 1]); }
  }

  /** A freshly made file system of 2048 blocks with one file of 28 blocks, on which an empty write at the end fails. */
  method EmptyWriteCanFail() returns (fs: EasyFileSystem)
    ensures fs.Valid() && 0 < fs.g.InodeCount() && EndUnreachable(fs, 0, INODE_DIRECT_COUNT)
  {
    hide Used, UsedInodes, Inodes, QueueOk, Coherent, Pinned, FsOk, FilesOf, FileWrite, Sizes, SumTotal, EndUnreachable, Opened;
    var cache := ZeroDevice(2048);
    fs := Create(cache, 2048, 1);
    RoomAtFirst(fs);
    var n := fs.WriteAt(0, 0, ZeroBytes(BLOCK_SZ * INODE_DIRECT_COUNT));
    Blocks28(fs);
    EmptyWriteFails(fs, 0, INODE_DIRECT_COUNT);
  }

  lemma RoomAtFirst(fs: EasyFileSystem)
    requires fs.Valid() && fs.g == Plan(2048, 1) && forall i | 0 <= i < fs.g.InodeCount() :: fs.View()[i] == []
    ensures 0 < fs.g.InodeCount() && BlocksNeeded(0, BLOCK_SZ * INODE_DIRECT_COUNT) <= fs.FreeBlocks()
  {
    hide Used, UsedInodes, Inodes, QueueOk, Coherent, Pinned, FsOk, FilesOf;
    ConservationOf(fs);
    SumTotalZero(Sizes(fs.View()));
  }

  lemma Blocks28(fs: EasyFileSystem)
    requires fs.Valid() && fs.g == Plan(2048, 1)
    ensures EFS_MAGIC !in fs.cache.logical && Boundary(INODE_DIRECT_COUNT)
  {
    hide Used, UsedInodes, Inodes, QueueOk, Coherent, Pinned, Inv;
  }

  /** Mounting the device afresh, with an empty cache, after everything was synced finds the same files. */
  method Remount(fs: EasyFileSystem) returns (again: EasyFileSystem)
    requires fs.Valid() && fs.cache.device == fs.cache.logical
    ensures fresh(again) && again.Valid() && again.g == fs.g
    ensures again.View() == fs.View() && again.Live() == fs.Live()
  {
    hide QueueOk, Coherent, Inv, Used, Inodes, UsedInodes;
    var cache := new BlockCacheManager<Block>(fs.cache.device);
    assert Pinned(cache.copies) == {};
    var mounted := Open(cache);
    again := mounted;
  }
}
