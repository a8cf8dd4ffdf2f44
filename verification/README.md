# A verified model of the kernel's file system, address spaces and small IPC cores

This project models parts of an rCore-style teaching kernel in Dafny and proves what those parts are for.

- **easy-fs.** A file is a `DiskInode` of direct, indirect and double-indirect block pointers, reached through a
  16-entry write-back cache and allocated from bitmaps. Over every run of `read_at`, `write_at` and `clear`, each
  inode is its own byte sequence, no block belongs to two places, and the set bits of the data bitmap are exactly the
  blocks the files need. Runs of these with `create`, `create_dir`, `find` and `ls` are a fold over a table of byte
  sequences. As long as names read back whole and no bytes are written into directories, the file system is a tree
  throughout: every inode in use has exactly one path from the root, keeps it, and every reply comes from the tree.
  The format is pinned by a second, naive reader that knows only byte offsets: it finds every byte of every file.
- **Address spaces.** Areas with tracked frames, a page table, reference-counted frames and a stack allocator. Over
  every run of fork, user stores, COW faults, demand faults, exit, `mmap`, `brk`, `munmap` and `mprotect`, each process
  sees in its private memory exactly what it would see had fork copied every page, unless an `mprotect` grants W to a
  private page whose frame another page maps. That exception is exact: it is when a store is seen where it should not.
- **The page table** itself, a three-level radix tree in node frames, acts as a finite map from page numbers modulo
  2^27, its entries with the bits the hardware reads. **User copies** are all-or-nothing for every address of every process,
  shared pages included; when a range reads back as written is known exactly, and reads and writes fail where the
  process may read or write only for want of frames.
- **Pipe, timerfd, SysV shared memory and message queues**, each over all its runs: the object and every reply are
  those of a fold of pure steps, about which the promised laws are proved.

Files and modules: `Blocks`, `BlockCache`, `Bits`, `Bitmap`, `Layout`, `DiskInode`, `Efs`, `Ownership`, `Vfs`,
`FsRuns`, `Directory`, `VfsRuns`, `FsTree` and `DiskFormat` are easy-fs, bottom up. `Frames`, `AddressSpace`,
`AreaList`, `Fork`, `MemorySet`, `ForkRun`, `Cow`, `Isolation`, `PageTable`, `UserMem`, `UserBytes` and `UserProgress`
are memory. `Pipe`, `TimerFd`, `Shm` and `MessageQueue` stand alone. What the source changes in place is a class here,
proved against pure functions; the results over runs and over all processes are lemmas about those functions, or
methods that perform a whole run.

`dafny verify dfyconfig.toml` checks the project.

## What the proofs found

Where the code does not do what one would expect, the model follows the code and the exact condition is proved.

- `unmap_range` on a hole inside an area also drops the pages after the hole (`UnmapKeepsOutsideExactly`,
  `UnmapCanDropTail`).
- `change_protection` writes entries directly. Granting W to a private page whose frame another page still maps lets
  one process change another's memory (`ProtectKeepsIsolationExactly`, `ProtectLeaks`, `ProtectCanLeak`).
- A shared page that was not materialised before fork is not shared after it (`SharedFrameExactly`,
  `UnmaterialisedDiverges`, `UnmaterialisedCanDiverge`).
- A heap area split by `change_protection` can grow into its own other half, because `append_heap_to` does not look at
  heap areas (`ExtendAreaExactly`, `SplitHeapOverlaps`).
- An empty write at a block boundary at or past the end of a file looks up a block the file does not have. That finds
  block 0 and is harmless, except where the offset is 28 blocks or 156 + 128a blocks, where the first word of block 0,
  the magic number, is taken for a block id (`WriteFindsBlockExactly`, `EmptyWriteFails`,
  `EmptyWriteCanFail`).
- A name of 28 bytes is stored and cannot be read again, so its directory cannot be listed any more; a name with a NUL
  reads back up to the NUL (`EntryRoundTrip`, `FullNameUnreadable`, `AppendedExactly`).
- `alloc_more` refuses a request that would use the last frame of the range, and ignores recycled frames (`AllocMore`).
- `receive` with the least 64-bit type finds nothing, because the type cannot be negated; this assumes wrapping
  arithmetic, checked arithmetic would panic instead (`SelectMeetsRuleExactly`).
- `copy_to_user_inline` refuses a null pointer, `copy_to_user` does not (`CopyToUserInline`).

## Model

| member | source | states |
|---|---|---|
| `Bits.TrailingOnesIsLowestZero` | easy-fs/src/bitmap.rs:37-42 | for every word, the count of trailing ones is the position of its lowest zero bit |
| `Bitmaps.AllocInBlock` | easy-fs/src/bitmap.rs:29-55 | in one bitmap block, the lowest clear bit is found and only that bit is set, or every bit was set |
| `Bitmaps.Bitmap.Alloc` | easy-fs/src/bitmap.rs:29-55 | returns and sets the lowest clear bit of the whole bitmap, changing no other bit; fails exactly when all bits are set |
| `Bitmaps.Bitmap.Dealloc` | easy-fs/src/bitmap.rs:57-65 | clears exactly the given bit, whose assertion that it was set is the precondition |
| `BlockCaches.PanicsExactlyWhenAllHeld` | easy-fs/src/block_cache.rs:99-112 | a request for an uncached block panics if and only if all 16 cached blocks are held |
| `BlockCaches.CanGet` | easy-fs/src/block_cache.rs:91-121 | with fewer than 16 blocks held no request panics |
| `BlockCaches.BlockCacheManager.constructor` | easy-fs/src/block_cache.rs:84-89 | an empty cache whose logical disk is the device |
| `BlockCaches.BlockCacheManager.Sync` | easy-fs/src/block_cache.rs:64-70 | writes a modified copy to the device once and clears its flag, leaving the logical disk alone |
| `BlockCaches.BlockCacheManager.FindUnheld` | easy-fs/src/block_cache.rs:100-107 | the first queue entry nobody else holds, or none |
| `BlockCaches.BlockCacheManager.Evict` | easy-fs/src/block_cache.rs:72-76 | dropping the last reference writes the copy back; the logical disk is unchanged |
| `BlockCaches.BlockCacheManager.GetBlockCache` | easy-fs/src/block_cache.rs:91-121 | hit, miss and eviction leave the logical disk and every held copy unchanged; the copy reads as the logical block; the queue is exactly the old one, without its first unheld entry if it held 16, with the block appended on a miss |
| `BlockCaches.BlockCacheManager.HoldThree` | easy-fs/src/block_cache.rs:91-121 | three handles held at once, on top of any 13 other held blocks, never panic and all read as the logical disk |
| `BlockCaches.BlockCacheManager.Release` | easy-fs/src/block_cache.rs:80-121 | dropping a handle lowers one strong count and nothing else |
| `BlockCaches.BlockCacheManager.Modify` | easy-fs/src/block_cache.rs:45-62 | a held copy takes the new data, is marked, and the logical disk changes at that block only |
| `BlockCaches.BlockCacheManager.SyncAll` | easy-fs/src/block_cache.rs:139-144 | afterwards the device equals the logical disk |
| `BlockCaches.BlockCacheManager.Load` | easy-fs/src/block_cache.rs:56-58 | get, read and drop return the logical block and pin nothing |
| `BlockCaches.BlockCacheManager.Store` | easy-fs/src/block_cache.rs:60-62 | get, modify and drop change the logical disk at one block and pin nothing |
| `Layout.DataPos` | easy-fs/src/layout.rs:118-138 | the place of data block k in supply order: after exactly total_blocks of the first k blocks, never a pointer block |
| `Layout.DataPosInjective` | easy-fs/src/layout.rs:140-163 | different data blocks have different places |
| `Layout.PlaceIsUnique` | easy-fs/src/layout.rs:140-163 | no two block ids share a word of a pointer block |
| `Layout.EntryOfBlock` | easy-fs/src/layout.rs:140-163 | word k of a pointer block names the k-th block supplied after it |
| `Layout.GrowInRecord` | easy-fs/src/layout.rs:165-236 | setting an inode field no filled slot uses keeps every filled slot |
| `Layout.GrowInBlock` | easy-fs/src/layout.rs:165-236 | writing the next pointer word keeps every earlier slot and adds the next one |
| `Layout.DataWriteKeepsTree` | easy-fs/src/layout.rs:353-389 | writing a data block of a file changes none of the block ids the file resolves to |
| `Layout.DataWritePatches` | easy-fs/src/layout.rs:353-389 | writing part of one data block patches exactly those bytes of the file |
| `Layout.GrownTidy` | easy-fs/src/layout.rs:165-236 | growth leaves every pointer word past the file zero |
| `Layout.TidyFrame` | easy-fs/src/layout.rs:140-163 | pointers past the end stay zero while the file's pointer blocks are unchanged |
| `Layout.LookupPastEnd` | easy-fs/src/layout.rs:140-163 | the lookup right past the end of a file ends at block 0, except at 28 and at 156 + 128a blocks, where it takes the first word of block 0 for a block id |
| `Layout.FileRead` | easy-fs/src/layout.rs:312-352 | a read returns the file's bytes from the offset, as many as the buffer and the file allow |
| `DiskInodes.DiskInode.GetBlockId` | easy-fs/src/layout.rs:140-163 | the lookup of any block number, inside or past the file, follows the direct, indirect or double-indirect pointers |
| `DiskInodes.DiskInode.PathOfBlock` | easy-fs/src/layout.rs:140-163 | for a block of the file that lookup succeeds and ends at the id supplied for it |
| `DiskInodes.DiskInode.IncreaseSize` | easy-fs/src/layout.rs:165-236 | consumes exactly the blocks needed, keeps all earlier blocks of the file in place and appends the new ones; only pointer blocks of this file are written, and no pointer field not yet needed is set |
| `DiskInodes.DiskInode.GrowIndirect` | easy-fs/src/layout.rs:184-236 | the part of growth past the direct pointers fills every remaining slot from the supply |
| `DiskInodes.DiskInode.ClearSize` | easy-fs/src/layout.rs:240-310 | returns every block of the file, pointer blocks included, in supply order, and leaves it empty with its pointer fields zero |
| `DiskInodes.DiskInode.GrowThenClear` | easy-fs/src/layout.rs:165-310 | for every rising sequence of sizes, one clear_size returns exactly the ids ever supplied |
| `DiskInodes.DiskInode.ReadAt` | easy-fs/src/layout.rs:312-352 | fills the buffer with the file's bytes and touches no other byte of it |
| `DiskInodes.DiskInode.WriteAt` | easy-fs/src/layout.rs:353-389 | patches the file's bytes across block boundaries, an empty buffer at any offset it can look up included; blocks of no other file change |
| `Efs.PlanIsSound` | easy-fs/src/efs.rs:29-48 | for every sufficiently large device the regions are disjoint and fill it, and the data bitmap is the smallest that covers the data area |
| `Efs.InodePos` | easy-fs/src/efs.rs:115-123 | the records lie one after the other: the position of inode i is 128 i bytes after the start of the inode area, and the record does not cross its block |
| `Efs.InodeRoundTrip` | easy-fs/src/layout.rs:83-100 | an inode record written to its slot reads back unchanged, and the other slots of the block are untouched |
| `Efs.InodePosInjective` | easy-fs/src/efs.rs:115-123 | inode slots never overlap |
| `Efs.InodeStored` | easy-fs/src/vfs.rs:33-43 | storing an inode replaces that entry of the inode table only |
| `Efs.OpenAfterCreate` | easy-fs/src/efs.rs:85-105 | open recovers the geometry create wrote |
| `DiskFormat.SuperBytes` | easy-fs/src/layout.rs:25-76 | a super block open accepts holds the magic number and the five counts as little-endian words at these byte offsets |
| `DiskFormat.RecordBytes` | easy-fs/src/layout.rs:83-91 | size, direct pointers, indirect pointers and type byte of an inode, at their byte offsets |
| `DiskFormat.BitIsInByte` | easy-fs/src/bitmap.rs:14-19 | bit k of a bitmap block is bit k mod 8 of byte k / 8 |
| `DiskFormat.DeviceHoldsInodes` | easy-fs/src/efs.rs:85-123 | on every valid file system a reader that knows only byte offsets finds each inode's length and kind, and whether it is in use |
| `DiskFormat.DeviceHoldsFiles` | easy-fs/src/layout.rs:140-165 | that reader, following direct, indirect and double-indirect words from the record, finds every byte of every file |
| `DiskFormat.DeviceHoldsDataBits` | easy-fs/src/efs.rs:125-148 | and finds a block of the data area in use exactly when its bit is set |
| `DiskFormat.EntryBytes` | easy-fs/src/layout.rs:393-434 | an entry is the name from byte 0, zeroes up to byte 28 and the inode number, little-endian |
| `Ownership.Conservation` | easy-fs/src/vfs.rs:85-100 | in every valid state the number of set data bits is the sum of total_blocks over all inodes |
| `Ownership.ReplaceFile` | easy-fs/src/vfs.rs:85-100 | changing one inode and only blocks no other inode owns keeps the invariant and every other file |
| `Ownership.GrowFile` | easy-fs/src/vfs.rs:85-100 | a grown file is the old one followed by zeros |
| `Ownership.PatchFile` | easy-fs/src/vfs.rs:218-226 | a write inside a file patches that file only |
| `Ownership.ClearFile` | easy-fs/src/vfs.rs:228-239 | a cleared file is empty and its blocks are free and zero |
| `Vfs.FileWrite` | easy-fs/src/vfs.rs:218-226 | what a write makes of a byte sequence: the bytes in range are the buffer's, a gap past the end reads as zeros |
| `Vfs.Addressable` | easy-fs/src/vfs.rs:218-226 | the first lookup of a write lies in the grown file or at no boundary of its pointer tree |
| `Vfs.WriteFindsBlockExactly` | easy-fs/src/layout.rs:353-389 | on a device with no block numbered like the magic number, a write finds its first block if and only if it is Addressable |
| `Vfs.LowestFreeInArea` | easy-fs/src/efs.rs:134-136 | lowest-bit-first allocation stays inside the data area whenever fewer bits are set than it has blocks |
| `Vfs.EasyFileSystem.AllocData` | easy-fs/src/efs.rs:134-136 | hands out a block of the data area whose bit was clear, sets that bit only, and leaves the data area alone |
| `Vfs.EasyFileSystem.DeallocData` | easy-fs/src/efs.rs:138-150 | zeroes the block and clears its bit, and changes nothing else of the data area or the tables |
| `Vfs.EasyFileSystem.AllocBlocks` | easy-fs/src/vfs.rs:85-100 | hands out as many distinct free blocks as asked |
| `Vfs.EasyFileSystem.Grow` | easy-fs/src/vfs.rs:85-100 | a file never shrinks, grows by zeros, and no other file changes |
| `Vfs.EasyFileSystem.ReadAt` | easy-fs/src/vfs.rs:208-211 | reads the inode's own byte sequence and changes no file |
| `Vfs.EasyFileSystem.WriteAt` | easy-fs/src/vfs.rs:218-226 | the inode's sequence becomes FileWrite of it, no other inode changes, and the device holds the result |
| `Vfs.EasyFileSystem.Clear` | easy-fs/src/vfs.rs:228-239 | the inode's sequence becomes empty, all its blocks are free, and neither assertion can fire |
| `Vfs.EasyFileSystem.AllocInode` | easy-fs/src/efs.rs:129-132 | hands out the lowest unused inode, whose file is empty |
| `FsRuns.ZeroDiskIsValid` | easy-fs/src/efs.rs:24-83 | a zeroed device satisfies the file-system invariant with every file empty |
| `FsRuns.Create` | easy-fs/src/efs.rs:24-83 | create leaves a valid file system with one live inode, the empty root directory |
| `FsRuns.Open` | easy-fs/src/efs.rs:85-105 | fails exactly on a wrong magic number; otherwise the geometry on the device is mounted and valid if the device is |
| `FsRuns.Remount` | easy-fs/src/efs.rs:85-105 | opening a written-back device again shows the same files and the same live inodes |
| `FsRuns.Step` | easy-fs/src/vfs.rs:208-239 | each of read_at, write_at and clear acts on one byte sequence of the table and on nothing else of the file system |
| `FsRuns.Run` | easy-fs/src/vfs.rs:208-239 | over every run of read_at, write_at and clear on any inodes, each inode is its own byte sequence, keeps its kind, and free blocks are what conservation leaves |
| `FsRuns.ConservationOf` | easy-fs/src/vfs.rs:85-100 | free data blocks are the area minus the sum of total_blocks |
| `FsRuns.EmptyWriteFails` | easy-fs/src/layout.rs:353-389 | at the end of any file of 28 or 156 + 128a blocks the lookup of an empty write leads to no block |
| `FsRuns.EmptyWriteCanFail` | easy-fs/src/layout.rs:353-389 | a freshly made file system of 2048 blocks with a file of 28 blocks on which it does |
| `Directories.EntryRoundTrip` | easy-fs/src/layout.rs:393-434 | for every name of up to 28 bytes an entry gives back its inode id; its name can be read if and only if it has at most 27 bytes or a NUL, and reads back whole if and only if it has at most 27 bytes and no NUL |
| `Directories.FullNameUnreadable` | easy-fs/src/layout.rs:393-434 | a concrete 28-byte name whose entry cannot be read |
| `Directories.BindsUnique` | easy-fs/src/vfs.rs:45-60 | a name has one inode in a directory |
| `Directories.AppendedExactly` | easy-fs/src/vfs.rs:123-136 | appending an entry extends the list of names and ids by one; the directory stays readable if and only if the entry can be read, and its names stay distinct if and only if the name up to the first NUL is new |
| `Directories.Appended` | easy-fs/src/vfs.rs:123-136 | appending an entry keeps all bindings and adds one |
| `Directories.ScannableExactly` | easy-fs/src/vfs.rs:45-60 | a scan that finds nothing has read every entry |
| `Directories.VisibleIsUtf8` | easy-fs/src/layout.rs:426-429 | a UTF-8 name cut at its first NUL is UTF-8 |
| `Directories.CharsAreEncodings` | easy-fs/src/layout.rs:426-429 | bytes start with a well-formed character if and only if they start with the UTF-8 encoding of some Unicode scalar value |
| `Directories.EncodingStarts` | easy-fs/src/layout.rs:426-429 | and the length read off the first byte is the length of that encoding |
| `Directories.Inode.NameOf` | easy-fs/src/layout.rs:426-429 | the loop stops at the first NUL, and what it finds is UTF-8, on every entry that can be read |
| `Directories.Inode.Find` | easy-fs/src/vfs.rs:45-75 | returns the inode of the first entry with the name, none exactly when there is none, on every directory whose entries can be read that far |
| `Directories.Inode.Ls` | easy-fs/src/vfs.rs:191-206 | the list of names in entry order, for every inode whose entries can be read |
| `Directories.Inode.Create` | easy-fs/src/vfs.rs:102-189 | for every name: a duplicate returns None and changes nothing; otherwise the lowest free inode, empty and of the right kind, gets an entry after the last whole one and no other file changes; the directory stays readable exactly when stated |
| `Directories.CreateMany` | easy-fs/src/vfs.rs:102-189 | over every sequence of create and create_dir in a directory that does not panic, the names are those of the successful calls in creation order, every entry lasts, and no other file changes |
| `Directories.CreateNext` | easy-fs/src/vfs.rs:102-189 | one such call, with the room it uses up |
| `VfsRuns.LowestFree` | easy-fs/src/bitmap.rs:29-55 | the lowest inode not in use |
| `VfsRuns.Perform` | easy-fs/src/vfs.rs:45-239 | each of create, create_dir, find, ls, read_at, write_at and clear, on any inode the source accepts and with any name, has the state and the reply the table describes |
| `VfsRuns.Run` | easy-fs/src/vfs.rs:45-239 | over every run of all of them that does not panic, the whole file system and every reply are those of the fold, and free blocks are what conservation leaves |
| `FileTrees.Format` | easy-fs/src/efs.rs:24-83 | a new file system is the tree that is only a root |
| `FileTrees.NextIsTree` | easy-fs/src/vfs.rs:45-239 | every operation on a tree leaves a tree: inodes numbered from the root, names distinct, and every inode but the root named by exactly one entry of one earlier directory |
| `FileTrees.ExactlyOnePath` | easy-fs/src/vfs.rs:45-75 | in a tree every inode in use has exactly one path from the root |
| `FileTrees.OnePath` | easy-fs/src/vfs.rs:45-75 | following names from the root leads to an inode in use, by its one path, or nowhere |
| `FileTrees.PathsLast` | easy-fs/src/vfs.rs:102-239 | every operation leaves every path where it led, and create adds exactly one path, to its new inode |
| `FileTrees.StepIsTree` | easy-fs/src/vfs.rs:45-239 | each operation of the file system is the operation on its tree, which stays a tree |
| `FileTrees.ReplyIsTree` | easy-fs/src/vfs.rs:45-239 | each reply is read off the tree: a new inode is the next one, and an inode that was found is in use |
| `FileTrees.RunsAreTrees` | easy-fs/src/vfs.rs:45-239 | throughout every run the file system is a tree, every step is the operation on it, and every reply comes from it alone |
| `FileTrees.RunsHaveOnePath` | easy-fs/src/vfs.rs:45-239 | throughout every run a path leads to an inode if and only if it is in use and this is its one path |
| `FileTrees.RunsKeepPaths` | easy-fs/src/vfs.rs:45-239 | an inode, once in use, stays in use in every later state, on the same path |
| `Frames.StackFrameAllocator.constructor` | os/src/mm/frame_allocator.rs:53-67 | no frame of the range is live |
| `Frames.StackFrameAllocator.Alloc` | os/src/mm/frame_allocator.rs:68-77 | a frame that was not live, and no other change to what is live; None exactly when every frame is live |
| `Frames.StackFrameAllocator.AllocMore` | os/src/mm/frame_allocator.rs:78-87 | distinct frames that were not live; refused exactly when the request reaches the end, recycled frames not counted |
| `Frames.StackFrameAllocator.Dealloc` | os/src/mm/frame_allocator.rs:88-97 | exactly that frame stops being live |
| `Frames.AllocFresh` | os/src/mm/frame_allocator.rs:16-26 | a new frame is zero, unreferenced before, and disturbs no other frame |
| `Frames.DropKeeps` | os/src/mm/frame_allocator.rs:34-38 | a frame is freed exactly when its last reference goes, and dealloc cannot panic |
| `Frames.FrameTable.Alloc` | os/src/mm/frame_allocator.rs:117-123 | the table follows AllocFrame, or is unchanged when frames ran out |
| `Frames.FrameTable.Drop` | os/src/mm/frame_allocator.rs:34-38 | the table follows DropRef |
| `AddressSpaces.SetFrameOk` | os/src/mm/memory_set.rs:441-497 | installing a frame for a page keeps the bookkeeping invariant |
| `AddressSpaces.SetFlagsOk` | os/src/mm/memory_set.rs:1324-1401 | changing W within the area's permission keeps the bookkeeping invariant |
| `AreaLists.UnmapPageOk` | os/src/mm/memory_set.rs:2100-2112 | unmapping one page keeps the invariant and drops one reference |
| `AreaLists.ReplaceArea` | os/src/mm/memory_set.rs:550-638 | putting parts of an area in its place keeps the invariant |
| `AreaLists.UnmapKeepsOutsideExactly` | os/src/mm/memory_set.rs:616-634 | pages outside the range survive if and only if it is no hole inside an area that is no heap, stack or ELF segment |
| `AreaLists.UnmapRemovesInsideExactly` | os/src/mm/memory_set.rs:550-638 | inside the range exactly the pages of heap, stack and ELF areas survive |
| `AreaLists.UnmapKeepsArea` | os/src/mm/memory_set.rs:550-638 | a page that survives stays in a piece of its area: same kind, type, permission, laziness, mapping data and frames |
| `AreaLists.ProtectKeepsArea` | os/src/mm/memory_set.rs:1816-1865 | through change_protection every page stays in a piece of its area, same in all but the permission, which is the new one exactly inside the range |
| `AreaLists.ExtendAreaExactly` | os/src/mm/memory_set.rs:1613-1650 | extending an area keeps areas disjoint if and only if no other area meets the new pages |
| `AreaLists.SplitHeapOverlaps` | os/src/mm/memory_set.rs:1613-1650 | a concrete heap split in two whose growth overlaps itself |
| `Forks.ScanAllCloses` | os/src/mm/memory_set.rs:1171-1238 | the full page scan computes the closed form of fork |
| `Forks.ScanTrackedCloses` | os/src/mm/memory_set.rs:1239-1279 | the sparse scan computes it too, in any order |
| `Forks.SparseRefinesFullScan` | os/src/mm/memory_set.rs:1171-1279 | both scans yield the same child entries, child frames, parent entries and counts |
| `Forks.ForkOk` | os/src/mm/memory_set.rs:1149-1287 | parent and child satisfy the bookkeeping invariant and map the frames mapped before |
| `Forks.ForkExactly` | os/src/mm/memory_set.rs:1149-1287 | both sides have the same areas, and on every mapped page the same frame and U; a private page is writable on neither side, a shared one on both exactly as its area allows |
| `Forks.ForkedRefs` | os/src/mm/memory_set.rs:1149-1287 | each frame gains one reference per page that maps it, and nothing else of the allocator or memory changes |
| `ForkRuns.ScanArea` | os/src/mm/memory_set.rs:1171-1238 | the loop over every page follows ScanAll |
| `ForkRuns.ScanFrames` | os/src/mm/memory_set.rs:1239-1279 | the loop over tracked pages follows ScanTracked |
| `ForkRuns.CloneArea` | os/src/mm/memory_set.rs:1161-1280 | either loop extends the closed form by the area |
| `ForkRuns.FromExistedUser` | os/src/mm/memory_set.rs:1149-1287 | fork produces exactly the closed-form parent, child and counts, never panics for want of a tracked frame, and leaves both consistent, with a reference for every page of each |
| `MemorySets.MemorySet.UnmapOne` | os/src/mm/memory_set.rs:2100-2112 | the page, its frame record and one reference go together |
| `MemorySets.MemorySet.UnmapArea` | os/src/mm/memory_set.rs:557-637 | one round of unmap_range leaves the parts stated and keeps the accounts |
| `MemorySets.MemorySet.UnmapRange` | os/src/mm/memory_set.rs:550-638 | page by page what is left, entries of surviving pages unchanged, references dropped to match; keeps the invariant and terminates |
| `MemorySets.MemorySet.CheckCovered` | os/src/mm/memory_set.rs:1781-1798 | true exactly when every page of the range is in some area |
| `MemorySets.MemorySet.CheckDenied` | os/src/mm/memory_set.rs:1800-1814 | true exactly when W is asked for and some area meeting the range is a shared mapping of a file not open for writing |
| `MemorySets.MemorySet.ApplyPerm` | os/src/mm/memory_set.rs:2026-2042 | sets the permission and the flags of the area's tracked pages, nothing else |
| `MemorySets.MemorySet.SplitOffOk` | os/src/mm/memory_set.rs:2001-2024 | splitting repartitions the tracked frames without loss |
| `MemorySets.MemorySet.ProtectArea` | os/src/mm/memory_set.rs:1816-1865 | one round of change_protection replaces an area by its parts |
| `MemorySets.MemorySet.ChangeProtection` | os/src/mm/memory_set.rs:1769-1868 | AccessDenied exactly when the range is covered, W is asked for and some area meeting it is a shared mapping of a file not open for writing; the other error exactly on a range that is not covered; then nothing changes; on success pages in range have the new permission and entries the new W and U on the same frame, the rest keep theirs |
| `MemorySets.MemorySet.HandleDemandFault` | os/src/mm/memory_set.rs:441-497 | follows DemandFault, about which DemandExactly speaks, and keeps the invariant and the accounts |
| `MemorySets.MemorySet.DemandExactly` | os/src/mm/memory_set.rs:441-497 | a demand fault succeeds exactly on an unmapped page of a lazy area with a frame left; the page gets a zeroed frame nobody held and the flags of its area, and otherwise nothing changes |
| `MemorySets.MemorySet.HandleCowFault` | os/src/mm/memory_set.rs:1324-1401 | follows CowFault, about which CowSucceedsExactly and CowMoves speak, and keeps the invariant and the accounts |
| `MemorySets.MemorySet.CowSucceedsExactly` | os/src/mm/memory_set.rs:1324-1401 | a COW fault succeeds exactly on a mapped page without W in an area with it that is shared, is the last of its frame or can be copied; otherwise nothing changes |
| `MemorySets.MemorySet.CowMoves` | os/src/mm/memory_set.rs:1324-1401 | the page gets W and keeps U; shared pages and last references stay in place, any other page moves to a frame nobody held with the same bytes and the old frame loses one reference |
| `MemorySets.MemorySet.InsertLazyAnonArea` | os/src/mm/memory_set.rs:261-276 | adds one area on a free range and changes nothing else: lazy, anonymous, without frames, with the given permission and mapping data, shared exactly if the mapping is |
| `MemorySets.MemorySet.Push` | os/src/mm/memory_set.rs:642-649 | every page of the new area is mapped to a zeroed frame unless frames ran out; a lazy area is as if added and then faulted in page by page |
| `MemorySets.MemorySet.AppendHeapTo` | os/src/mm/memory_set.rs:1613-1650 | refuses exactly when an area that is no heap meets the new pages, touching ends not counting; otherwise the heap is extended, or made private, lazy and readable, writable and user; the invariant survives if and only if no other heap area meets the new pages |
| `MemorySets.MemorySet.ShrinkHeapTo` | os/src/mm/memory_set.rs:1602-1612 | the heap is cut off at the new end and its pages from there on go with their references; past its end it grows instead, exactly when stated without harm |
| `Cow.SoleHolder` | os/src/mm/memory_set.rs:1324-1401 | a frame with one reference is mapped by one page of one process |
| `Cow.CowFaultOk` | os/src/mm/memory_set.rs:1324-1401 | a COW fault keeps the invariant and changes no process's view and no byte of any page, shared pages included |
| `Cow.DemandFaultOk` | os/src/mm/memory_set.rs:441-497 | a demand fault keeps the invariant and changes no process's view and no byte of any page, shared pages included |
| `Cow.ForkStepOk` | os/src/mm/memory_set.rs:1149-1287 | after fork the child sees what the parent sees, and nobody else's view changes |
| `Cow.ExitStepOk` | os/src/mm/memory_set.rs:1578-1580 | exit keeps the invariant and every other view |
| `Cow.StoreOk` | os/src/mm/memory_set.rs:1324-1401 | a store through a writable entry changes one byte of one process's view |
| `Cow.UserStoreOk` | os/src/mm/memory_set.rs:441-497 | a store with its faults is the eager store, or nothing |
| `Cow.StoreSucceedsExactly` | os/src/mm/memory_set.rs:1324-1401 | a store to private memory succeeds if and only if eager memory allows it and no needed frame is missing |
| `Cow.StepRefines` | os/src/mm/memory_set.rs:1149-1401 | every step is the same step on the eager machine |
| `Cow.CowRefinesEagerCopy` | os/src/mm/memory_set.rs:1149-1401 | over every run of fork, store, faults and exit, each process sees exactly what it would had fork copied every page, and a writable private page is the only page that maps its frame |
| `Cow.WriterHolds` | os/src/mm/memory_set.rs:1324-1401 | the frame of a writable private page has one reference besides those held outside address spaces |
| `Cow.WritersAreSoleHolders` | os/src/mm/memory_set.rs:1149-1401 | over every such run, where nothing outside holds such frames at first, its strong count is one |
| `Isolation.ShrinkExactly` | os/src/mm/memory_set.rs:550-638 | an address space that only loses or re-flags pages keeps the invariant if and only if its writable private pages map their frames alone |
| `Isolation.ProtectKeepsInvariantExactly` | os/src/mm/memory_set.rs:2026-2031 | mprotect keeps the invariant of the runs if and only if it does not grant W to a private page whose frame another page maps |
| `Isolation.ProtectKeepsIsolationExactly` | os/src/mm/memory_set.rs:2026-2031 | after mprotect every store of the process into the range is the eager store, on what all processes see, if and only if it does not grant W and U to a private page whose frame another page of any process maps |
| `Isolation.ProtectLeaks` | os/src/mm/memory_set.rs:2026-2031 | wherever it does, the store shows up at that other page, in the private memory of whichever process it is of |
| `Isolation.ProtectCanLeak` | os/src/mm/memory_set.rs:2026-2031 | a concrete run that reaches this: touch, fork, mprotect, store |
| `Isolation.UnmapStepOk` | os/src/mm/memory_set.rs:550-638 | munmap takes the stated pages out of one view and changes no other |
| `Isolation.UnmapCanDropTail` | os/src/mm/memory_set.rs:616-634 | unmapping page 1 of an area of four pages takes page 3 away too |
| `Isolation.MapStepOk` | os/src/mm/memory_set.rs:261-276 | mmap adds zeroed private pages to one view and changes no other |
| `Isolation.AnonMapStepOk` | os/src/mm/memory_set.rs:261-276 | without MAP_SHARED exactly the pages of the range appear in that view, zeroed and writable exactly with W and U; with it no private page appears |
| `Isolation.PushStepOk` | os/src/mm/memory_set.rs:642-649 | so does pushing a lazy area, whether or not frames run out |
| `Isolation.NewHeapStepOk` | os/src/mm/memory_set.rs:1613-1650 | making the heap adds its pages to that view, zeroed and writable, and changes no other |
| `Isolation.ExtendStepOk` | os/src/mm/memory_set.rs:1613-1650 | growing the heap adds zeroed pages to one view and changes no other |
| `Isolation.CutStepOk` | os/src/mm/memory_set.rs:1602-1612 | shrinking the heap takes its last pages out of one view and changes no other |
| `Isolation.CallsRefineEagerCopy` | os/src/mm/memory_set.rs:1149-1868 | the eager refinement over runs that also map, unmap and re-protect memory and move the end of the heap, as long as no mprotect grants W on a private page whose frame another page maps |
| `Isolation.SharedFrameExactly` | os/src/mm/memory_set.rs:1149-1287 | parent and child map a page to one frame if and only if it was materialised before the fork |
| `Isolation.UnmaterialisedDiverges` | os/src/mm/memory_set.rs:441-497 | a page that was not gets different frames in the two processes |
| `Isolation.UnmaterialisedCanDiverge` | os/src/mm/memory_set.rs:441-497 | a concrete shared page to which that happens |
| `Isolation.StepKeepsShared` | os/src/mm/memory_set.rs:1324-1401 | no step moves a materialised shared page to another frame |
| `Isolation.SharedStaysShared` | os/src/mm/memory_set.rs:1149-1401 | throughout every run after the fork the two processes keep sharing it |
| `PageTables.EncodeDecode` | arch/src/loongarch64/page_table.rs:58-105 | for every frame number decoding gives back its low 44 bits, W and U; an entry is invalid exactly when it is bare and the shift left nothing |
| `PageTables.EntryBits` | arch/src/loongarch64/page_table.rs:58-82 | in a leaf entry bits 0, 4 and 7 are set, bits 1 and 8 exactly with W, bits 2 and 3 exactly with U and no other below 12; in a directory entry none of the twelve is set |
| `PageTables.Indexes` | arch/src/loongarch64/page_table.rs:579-587 | the shifting loop yields the three 9-bit indexes, root first |
| `PageTables.IndexesSeparate` | arch/src/loongarch64/page_table.rs:579-587 | two pages share all indexes if and only if their numbers agree modulo 2^27 |
| `PageTables.WalkSound` | arch/src/loongarch64/page_table.rs:170-186 | a walk ends in a listed node reached by that path only |
| `PageTables.LinkOk` | arch/src/loongarch64/page_table.rs:148-168 | linking a new node keeps every node listed once and reached once |
| `PageTables.LinkTranslations` | arch/src/loongarch64/page_table.rs:148-168 | linking an empty node changes no translation |
| `PageTables.PutEntryTranslations` | arch/src/loongarch64/page_table.rs:188-224 | writing a leaf entry sets or removes one key of the map |
| `PageTables.PageTable.Create` | arch/src/loongarch64/page_table.rs:130-139 | a new table has one zeroed node from the allocator and no translation, and touches no live node; it fails exactly when every frame is live |
| `PageTables.PageTable.FindPteCreate` | arch/src/loongarch64/page_table.rs:148-168 | creates missing directories without changing a leaf entry; fails only when frames run out |
| `PageTables.PageTable.FindPte` | arch/src/loongarch64/page_table.rs:170-186 | the loop follows the walk |
| `PageTables.PageTable.Map` | arch/src/loongarch64/page_table.rs:188-205 | for every frame number: refuses user mappings past memory, otherwise writes exactly the encoded entry at that page and changes no other entry |
| `PageTables.PageTable.Unmap` | arch/src/loongarch64/page_table.rs:207-213 | clears that entry and no other; panics exactly when a directory is missing |
| `PageTables.PageTable.ChangePteFlags` | arch/src/loongarch64/page_table.rs:215-224 | true exactly for mapped pages, rewriting that entry with the same frame and the new flags |
| `PageTables.PageTable.Translate` | arch/src/loongarch64/page_table.rs:226-228 | the entry of the page, valid exactly for the keys of the map |
| `PageTables.PageTable.Run` | arch/src/loongarch64/page_table.rs:188-228 | every sequence of map, unmap and change_pte_flags acts as on a finite map keyed by page number modulo 2^27, and other tables' nodes are untouched |
| `PageTables.PageTable.Drop` | arch/src/loongarch64/page_table.rs:117-123 | every node frame is freed exactly once and no dealloc panics |
| `UserMem.ResolveOk` | os/src/syscall/user_mem.rs:393-474 | resolving faults over a range changes nobody's view and no byte of any page |
| `UserMem.CopyBytesOk` | os/src/syscall/user_mem.rs:79-106 | bytes stored through checked pages are the eager write |
| `UserMem.CopyAllOrNothing` | os/src/syscall/user_mem.rs:46-106 | a copy to user memory is the eager write on private memory, or it leaves every byte of every process, shared pages included, as it was |
| `UserMem.CopyRoundTrip` | os/src/syscall/user_mem.rs:79-215 | over a private range a successful copy reads back as the bytes written |
| `UserBytes.LastIndex` | os/src/syscall/user_mem.rs:91-105 | the last address of a range that lies at a given place of a given frame |
| `UserBytes.CopyBytesAt` | os/src/syscall/user_mem.rs:91-105 | a copy leaves at every offset of every frame the last byte stored there, or the byte it held |
| `UserBytes.CopyAtEveryAddress` | os/src/syscall/user_mem.rs:46-106 | for every address of every process, shared pages and aliases included: after a copy that fails it holds the byte it held, after one that succeeds the last byte stored to its frame and offset, or else the byte it held |
| `UserBytes.ReadsBackExactly` | os/src/syscall/user_mem.rs:79-215 | after a copy that succeeds any range reads back as the data if and only if no two of its addresses share a place and are given different bytes |
| `UserMem.UserWriteRangeMapped` | os/src/syscall/user_mem.rs:336-373 | true exactly when every byte of the range may be accessed, which AccessibleExactly spells out |
| `UserMem.AccessibleExactly` | os/src/syscall/user_mem.rs:336-373 | a range may be accessed if and only if every address of it is below the last page of the 64-bit space and has an entry with U, with W if written to, whose frame lies in memory |
| `UserMem.TranslatedByteBufferChecked` | arch/src/loongarch64/page_table.rs:269-317 | slices that hold exactly the range, if and only if it may be accessed |
| `UserMem.SliceIsBytes` | os/src/syscall/user_mem.rs:92-99 | copying a slice at once is copying its bytes in order |
| `UserMem.CopySlices` | os/src/syscall/user_mem.rs:91-105 | the copy loop writes all of the data |
| `UserMem.ReadSlices` | os/src/syscall/user_mem.rs:201-214 | the read loop returns all of the range |
| `UserMem.TryResolveWritable` | os/src/syscall/user_mem.rs:393-439 | the page loop follows TryResolve, about which TryResolveWhere speaks |
| `UserMem.TryResolveReadable` | os/src/syscall/user_mem.rs:441-474 | the page loop follows TryResolve, about which TryResolveWhere speaks |
| `UserMem.CopyToUser` | os/src/syscall/user_mem.rs:79-106 | the outcome CopiedTo describes |
| `UserMem.WalkAndCopy` | os/src/syscall/user_mem.rs:272-334 | writes a prefix of the data, all of it exactly when the range may be written |
| `UserMem.CopyToUserInline` | os/src/syscall/user_mem.rs:148-172 | refuses null and otherwise has the effect of copy_to_user |
| `UserMem.CopyFromUser` | os/src/syscall/user_mem.rs:189-215 | returns the bytes of the range, or fails, under either policy; ReadSucceedsWhere says when |
| `UserProgress.ResolveWorks` | os/src/syscall/user_mem.rs:393-474 | resolving a range makes every page of it usable, for reading or writing, or fails; where the process may use it, only because no frame is left |
| `UserProgress.TryResolveWhere` | os/src/syscall/user_mem.rs:393-474 | both calls succeed only where every page is mapped or in a lazy area with U, and W for writing, leave every page usable, and fail there only for want of frames |
| `UserProgress.PreparedWhere` | os/src/syscall/user_mem.rs:21-77 | a range, shared or private, is made accessible only where every page is mapped or in a lazy area with U, and W for writing, and there it fails only for want of frames |
| `UserProgress.CopySucceedsWhere` | os/src/syscall/user_mem.rs:79-106 | a copy succeeds only where the process may write, and fails there only for want of frames |
| `UserProgress.ReadSucceedsWhere` | os/src/syscall/user_mem.rs:189-215 | a read under the demand policy succeeds only where the process may read, fails there only for want of frames, and finds the bytes that were there, zeroes on pages not touched before |
| `Pipes.TakeChunk` | os/src/fs/pipe.rs:42-53 | taking bytes up to the wrap keeps tail = (head + len) mod capacity and the order of the rest |
| `Pipes.PutChunk` | os/src/fs/pipe.rs:55-67 | putting bytes up to the wrap appends them |
| `Pipes.PipeBuffer.constructor` | os/src/fs/pipe.rs:27-36 | an empty ring of at least one byte |
| `Pipes.PipeBuffer.ReadInto` | os/src/fs/pipe.rs:42-53 | takes the oldest bytes, as many as fit and are there, across wrap-around |
| `Pipes.PipeBuffer.WriteFrom` | os/src/fs/pipe.rs:55-67 | appends as many bytes as there is space for |
| `Pipes.PipeEnd.Read` | os/src/fs/pipe.rs:121-153 | takes the oldest bytes, as many as fit and are there; waits only before the first byte, exactly when the ring is empty and a writer exists |
| `Pipes.PipeEnd.Write` | os/src/fs/pipe.rs:197-244 | appends as many bytes as there is space for; waits only before the first byte, exactly when the ring is full and a reader exists; fails exactly without a reader |
| `Pipes.PipeEnd.Poll` | os/src/fs/pipe.rs:246-262 | ready exactly when the matching read or write would not wait |
| `Pipes.PipeEnd.Drop` | os/src/fs/pipe.rs:88-97 | closes the side the end stands for |
| `Pipes.MakePipe` | os/src/fs/pipe.rs:266-272 | two ends of one empty ring of exactly the capacity, or 4096 bytes if that is more |
| `Pipes.RunsAreFifo` | os/src/fs/pipe.rs:42-67 | over any interleaving of locked sections of a FIFO, bytes read followed by bytes held are bytes held at first followed by bytes accepted |
| `Pipes.Act` | os/src/fs/pipe.rs:42-97 | one locked section moves exactly the bytes, and leaves exactly the FIFO, that its step describes |
| `Pipes.SectionIsGreedy` | os/src/fs/pipe.rs:42-97 | a read moves its size or empties the pipe, a write moves its data or fills the pipe, nothing without a reader, and only closing touches the open flags |
| `Pipes.ConcatJoins` | os/src/fs/pipe.rs:121-153 | the bytes of two lists of buffers are those of the first followed by those of the second |
| `Pipes.ConcatOne` | os/src/fs/pipe.rs:121-153 | and the bytes of one buffer are its own |
| `Pipes.Interleave` | os/src/fs/pipe.rs:42-97 | over any interleaving the ring, the open flags and what every step moved are those of the fold |
| `TimerFds.CheckTracks` | os/src/fs/timerfd.rs:89-116 | sampling at a later time counts exactly what has fired since |
| `TimerFds.CountClosedForm` | os/src/fs/timerfd.rs:89-116 | nothing has fired before the first expiry E; from then on counts delivered plus pending are (t-E)/I+1 and the next expiry is the first multiple after t; a one-shot fires once |
| `TimerFds.TimerFdFile.Arm` | os/src/fs/timerfd.rs:51-56 | forgets what was pending |
| `TimerFds.TimerFdFile.Disarm` | os/src/fs/timerfd.rs:59-71 | clears the timer and returns the time left |
| `TimerFds.TimerFdFile.CheckExpirations` | os/src/fs/timerfd.rs:89-116 | follows Checked and reports a count exactly when one is pending |
| `TimerFds.TimerFdFile.Poll` | os/src/fs/timerfd.rs:129-138 | ready exactly when a read would deliver a count |
| `TimerFds.TimerFdFile.Read` | os/src/fs/timerfd.rs:140-172 | delivers and clears the pending count, or waits; refuses short buffers |
| `TimerFds.TimerFdFile.Follow` | os/src/fs/timerfd.rs:89-172 | for every schedule of polls and reads, delivered plus pending depend only on the last sample time |
| `SharedMemory.DetachOk` | os/src/syscall/ipc.rs:1202-1223 | losing an attachment keeps the invariant, removes a marked segment exactly with its last one and no unmarked segment |
| `SharedMemory.MarkOk` | os/src/syscall/ipc.rs:1242-1255 | IPC_RMID removes exactly an unattached segment and keeps the invariant |
| `SharedMemory.CreateOk` | os/src/syscall/ipc.rs:467-481 | a new segment keeps counts, limits and unique keys |
| `SharedMemory.AttachOk` | os/src/syscall/ipc.rs:512-524 | an attachment recorded and counted together keeps the invariant |
| `SharedMemory.IpcManager.FindByKey` | os/src/syscall/ipc.rs:487-495 | an unmarked segment of the key, none exactly when there is none |
| `SharedMemory.IpcManager.CreateShm` | os/src/syscall/ipc.rs:467-481 | fails exactly at the limit or without memory, and then changes no segment |
| `SharedMemory.IpcManager.ShmGet` | os/src/syscall/ipc.rs:1002-1045 | succeeds exactly when the one unmarked segment of the key is large enough, or a new one is due and fits; a new segment is the size rounded up to pages, empty of attachments; EINVAL, EEXIST and ENOENT exactly when due |
| `SharedMemory.IpcManager.ShmAt` | os/src/syscall/ipc.rs:1057-1183 | succeeds exactly on an unmarked segment below the limit, at the address of AttachAddress, when the range fits and is free; records and counts one attachment, or changes nothing; EMFILE and ENOMEM exactly when due |
| `SharedMemory.IpcManager.ShmDt` | os/src/syscall/ipc.rs:1194-1226 | drops one record; every count is what is left, a marked segment goes exactly with its last one, and nothing else changes |
| `SharedMemory.IpcManager.Rmid` | os/src/syscall/ipc.rs:1242-1255 | marks the segment, which stays exactly while attached; every other segment and all records are untouched |
| `SharedMemory.IpcManager.Cleanup` | os/src/syscall/ipc.rs:1281-1304 | drops every attachment of the process and no other; each count is what is left and a marked segment nobody has attached goes |
| `SharedMemory.AttachAddress` | os/src/syscall/ipc.rs:1097-1125 | the address is the one chosen by the kernel, the given one, or the given one rounded down; refused exactly when not aligned without SHM_RND or when there is no room |
| `SharedMemory.WithoutOk` | os/src/syscall/ipc.rs:1281-1304 | dropping any set of attachments keeps the invariant |
| `SharedMemory.StepKeeps` | os/src/syscall/ipc.rs:1002-1304 | every operation keeps attach_count equal to the records, marked segments attached and unmarked keys unique, and removes no unmarked segment it does not name |
| `SharedMemory.RunsKeep` | os/src/syscall/ipc.rs:1002-1304 | so does every run: an unmarked segment is never removed or changed unless some IPC_RMID names it |
| `SharedMemory.Run` | os/src/syscall/ipc.rs:1002-1304 | over every run the table and every reply are those of the fold |
| `MessageQueues.LowestUpTo` | os/src/syscall/ipc.rs:328-347 | the first message of the lowest type up to the bound |
| `MessageQueues.ChosenExists` | os/src/syscall/ipc.rs:317-348 | wherever some message is wanted the rule chooses one |
| `MessageQueues.Select` | os/src/syscall/ipc.rs:317-348 | the message the scan picks, which is the one the rule chooses if and only if the type is not the least 64-bit value or the queue is empty |
| `MessageQueues.SelectMeetsRuleExactly` | os/src/syscall/ipc.rs:328-333 | for all inputs, the scan meets the rule of msgrcv() in POSIX.1-2017 if and only if the type is not the least 64-bit value or the queue is empty |
| `MessageQueues.ChosenUnique` | os/src/syscall/ipc.rs:317-348 | the rule chooses at most one message |
| `MessageQueues.ChosenExactly` | os/src/syscall/ipc.rs:317-348 | the rule case by case: the head of the queue; the first of the type, or of another type; up to a type, the first of the lowest type in the queue |
| `MessageQueues.ChosenIsFirstOfType` | os/src/syscall/ipc.rs:317-348 | a chosen message is the first of its type |
| `MessageQueues.MessageQueue.Send` | os/src/syscall/ipc.rs:273-289 | appends and counts the message, or refuses exactly when too long, not positive or over the limit |
| `MessageQueues.MessageQueue.Receive` | os/src/syscall/ipc.rs:291-371 | removes exactly the picked message keeping the order of the rest; MSG_COPY removes nothing; each error when due, ENOMSG exactly when no message has a type asked for, or for the least 64-bit type |
| `MessageQueues.MessageQueue.SetLimit` | os/src/syscall/ipc.rs:899-910 | accepts exactly limits from 1 to MSGMNB, sets the limit and the low nine mode bits, and leaves the messages alone; a refusal changes nothing |
| `MessageQueues.RunsKeepOrder` | os/src/syscall/ipc.rs:273-371 | over every run total_bytes is the sum of queued lengths and at most MSGMNB, and within each type what was queued and accepted is what was received followed by what is queued |
| `MessageQueues.Serve` | os/src/syscall/ipc.rs:273-371 | over every run the queue and every reply are those of the fold |

## Left out

- Inode records are written word by word; their padding and the inode type's other values are not modelled.
- `direct` of an inode is a sequence of 28 numbers rather than an in-place array.
- Cache handles: an operation needs room for three handles held at once (`HoldThree`), the deepest nesting in the source; the model's own operations take one handle at a time.
- Preconditions of easy-fs that its code relies on: size at most (28+128+16384)*512 bytes, free blocks and inodes for what is created, names of at most 28 bytes, one device.
- FileTrees.RunsAreTrees: names of at most 27 bytes without a NUL and byte operations on plain files; `VfsRuns.Run` has every name and every inode, and `AppendedExactly` says what other names do to a directory.
- Crash consistency and locking of easy-fs; each operation is one atomic step.
- The page table is a map from page numbers inside `MemorySets`; `PageTables.PageTable` is proved to act as such a map on its own, with keys modulo 2^27.
- `map_one` on a page that is already mapped (overlapping ELF segments), so areas are page-disjoint.
- File-backed mappings, `msync`, the shared file page cache, `insert_shm_area`'s mapping of segment frames, ELF loading, TLS and the signal trampoline.
- `sync_user_writable_from`, `remap_cow`, the fork-name fallback of user writes and the relaxed readable policy.
- The TLB, privilege levels other than U, and execute and read flags, which this entry format does not keep.
- Cow.ExitStepOk: drops frames and page table together; the code drops the page table later, when nothing can run in it.
- MemorySets.MemorySet.AppendHeapTo: the heap area is lazy, as every heap the source makes, and the new end is not below the old one, as `brk` calls it.
- MemorySets.MemorySet.ShrinkHeapTo: the new end is not below the start of the heap, which the source asserts when it makes the new range.
- MemorySets.MemorySet.InsertLazyAnonArea: areas end at 2^27 pages at most. `mmap` with a fixed address does not check this, and pages 2^27 apart share their translation (`IndexesSeparate`); areas that alias each other that way are not modelled.
- Cow.StoreSucceedsExactly: counts the frames of pages, not the page-table node frames that come from the same allocator; running out of those is a panic in the source (`FindPteCreate`).
- UserProgress.PreparedWhere: the same; ranges end at 512 GB, past which addresses share a translation with lower ones, and the allocator's frames lie below the end of memory.
- UserProgress.TryResolveWhere: the same.
- UserProgress.CopySucceedsWhere: the same.
- UserProgress.ReadSucceedsWhere: the same.
- UserMem.CopyAllOrNothing: for a copy that succeeds it speaks of private memory; `CopyAtEveryAddress` has every address of every process.
- UserMem.CopyRoundTrip: private ranges up to 512 GB, the distance at which addresses share a translation; `ReadsBackExactly` has any range.
- Pipes.PipeEnd.Read: one call runs to completion or to where it would wait; other ends acting between two slices of one call are covered by Interleave, signals and the sentinel return values are not.
- Pipes.PipeEnd.Write: the same, for the variant that reports errors.
- TimerFds: times are unbounded; the next expiry is proved to be at most t + interval, so 64-bit sums fit while that does.
- Shared-memory identifiers do not wrap, and fork does not copy attachment records in the source either.
- SharedMemory.IpcManager.ShmAt: the address `alloc_mmap_base` gives and whether the range could be mapped are inputs.
- SharedMemory.IpcManager.CreateShm: whether frames could be allocated is an input.
- IPC permissions, `msgget`, `IPC_STAT` and the user-space copies of messages.
- Sockets, signals, scheduling, futexes, drivers and everything else of the kernel.
