/** Runs of every vfs operation: the whole file system as a table of byte sequences. */
module VfsRuns {
  import opened Collections
  import opened Blocks
  import opened BlockCaches
  import opened Layout
  import opened Efs
  import opened Ownership
  import opened Vfs
  import opened FsRuns
  import opened Directories

  /** Every inode's bytes, the inodes in use, and those of them that are directories. */
  datatype State = State(files: seq<seq<Byte>>, live: set<nat>, dirs: set<nat>)

  ghost predicate StateOk(s: State) {
    && s.dirs <= s.live && (forall i | i in s.live :: i < |s.files|)
    && (forall i | 0 <= i < |s.files| && i !in s.live :: s.files[i] == [])
  }

  /** `create` and `create_dir`, `find`, `ls`, and the operations on the bytes of a file. */
  datatype Op =
    | Make(dir: nat, name: Name, isDir: bool)
    | Lookup(dir: nat, name: Name)
    | List(dir: nat)
    | Data(op: FileOp)

  datatype Reply = Handle(found: Option<nat>) | Listing(names: seq<Name>) | Content(bytes: seq<Byte>)

  /** The lowest inode not in use, from `i` on. */
  function LowestFree(live: set<nat>, i: nat, count: nat): (r: nat)
    ensures i <= r && (r < count ==> r !in live) && (i <= count ==> r <= count)
    ensures forall j | i <= j < r :: j in live
    decreases count - i
  {
    if i >= count || i !in live then i else LowestFree(live, i + 1, count)
  }

  // ---------- one operation ----------

  /** The size of a directory with one more entry. */
  function Extended(f: seq<Byte>): (n: nat) { DIRENT_SZ * (Count(f) + 1) }

  /** What the source demands: a directory where it asserts one, entries it can read as far as it reads them, a name
      that fits its entry, and room for what is added. */
  ghost predicate Permitted(s: State, capacity: nat, op: Op) {
    match op
    case Make(d, name, _) =>
      && d in s.dirs && d < |s.files| && Scannable(s.files[d], name)
      && (name !in Names(s.files[d]) ==>
            && Fits(name) && LowestFree(s.live, 0, |s.files|) < |s.files| <= U32_LIMIT && Extended(s.files[d]) <= MAX_SIZE
            && SumTotal(Sizes(s.files)) + BlocksNeeded(|s.files[d]|, Extended(s.files[d])) <= capacity)
    case Lookup(d, name) => d in s.dirs && d < |s.files| && Scannable(s.files[d], name)
    case List(i) => i in s.live && i < |s.files| && DirOk(s.files[i])
    case Data(f) => Allowed(s.files, s.live, capacity, f)
  }

  ghost function Next(s: State, capacity: nat, op: Op): (r: State)
    ensures |r.files| == |s.files|
  {
    if !Permitted(s, capacity, op) then s
    else
      match op
      case Make(d, name, isDir) =>
        if name in Names(s.files[d]) then s
        else
          var i := LowestFree(s.live, 0, |s.files|);
          State(s.files[d := WithEntry(s.files[d], NewEntry(name, i))], s.live + {i}, if isDir then s.dirs + {i} else s.dirs)
      case Lookup(_, _) => s
      case List(_) => s
      case Data(f) => s.(files := Apply(s.files, f))
  }

  ghost function ReplyTo(s: State, capacity: nat, op: Op): (r: Reply)
    requires Permitted(s, capacity, op)
  {
    match op
    case Make(d, name, _) => Handle(if name in Names(s.files[d]) then None else Some(LowestFree(s.live, 0, |s.files|)))
    case Lookup(d, name) => Handle(Bound(Names(s.files[d]), Ids(s.files[d]), name))
    case List(d) => Listing(Names(s.files[d]))
    case Data(f) => Content(Output(s.files, f))
  }

  // ---------- performing it ----------

  ghost function StateOf(fs: EasyFileSystem): (s: State)
    requires fs.Valid()
    reads fs, fs.cache
  {
    State(fs.View(), fs.Live(), set i | i in fs.Live() && i < fs.g.InodeCount() && fs.IsDir(i))
  }

  lemma StateOfOk(fs: EasyFileSystem)
    requires fs.Valid()
    ensures StateOk(StateOf(fs)) && |fs.View()| == fs.g.InodeCount()
  {
    hide Inv, Used, UsedInodes, Inodes, QueueOk, Coherent, Pinned, Opened;
    LiveBelow(fs);
  }

  lemma LiveBelow(fs: EasyFileSystem)
    requires fs.Valid()
    ensures forall i | i in fs.Live() :: i < fs.g.InodeCount()
  {
    hide Inv, Used, Inodes, QueueOk, Coherent, Pinned;
  }

  /** Some inode is free. */
  lemma RoomForInode(live: set<nat>, count: nat, i: nat)
    requires (forall j | j in live :: j < count) && i < count && i !in live
    ensures |live| < count
  {
    assert live <= UpTo(count) - {i};
    SubsetSize(live, UpTo(count) - {i});
  }

  lemma LowestIs(live: set<nat>, count: nat, i: nat, k: nat)
    requires k <= i < count && i !in live && forall j | 0 <= j < i :: j in live
    ensures LowestFree(live, k, count) == i
    decreases i - k
  {
    if k < i { LowestIs(live, count, i, k + 1); }
  }

  /** Performs one operation. */
  method Perform(fs: EasyFileSystem, op: Op) returns (r: Reply)
    requires fs.Valid() && Permitted(StateOf(fs), fs.g.dataAreaBlocks, op)
    modifies fs.cache
    ensures fs.Valid() && StateOf(fs) == Next(old(StateOf(fs)), fs.g.dataAreaBlocks, op)
    ensures r == ReplyTo(old(StateOf(fs)), fs.g.dataAreaBlocks, op)
  {
    hide StateOf, Next, Permitted, FsOk, QueueOk, Coherent, Pinned, FilesOf, Inodes, UsedInodes;
    match op {
      case Make(d, name, isDir) =>
        r := PerformMake(fs, d, name, isDir);
      case Lookup(d, name) =>
        r := PerformLookup(fs, d, name);
      case List(d) =>
        r := PerformList(fs, d);
      case Data(f) =>
        r := PerformData(fs, f);
    }
  }

  /** What `create` makes of the state. */
  ghost predicate Made(s: State, r: State, d: nat, name: Name, isDir: bool, found: Option<nat>) {
    && d < |s.files| && (found.None? <==> name in Names(s.files[d])) && (found.None? ==> r == s)
    && (found.Some? ==>
          && (forall j | 0 <= j < found.value :: j in s.live) && found.value !in s.live
          && Fits(name) && found.value < |s.files| <= U32_LIMIT
          && r == State(s.files[d := WithEntry(s.files[d], NewEntry(name, found.value))], s.live + {found.value},
                        if isDir then s.dirs + {found.value} else s.dirs))
  }

  lemma MadeIsNext(s: State, r: State, capacity: nat, d: nat, name: Name, isDir: bool, found: Option<nat>)
    requires Permitted(s, capacity, Make(d, name, isDir)) && Made(s, r, d, name, isDir, found)
    ensures r == Next(s, capacity, Make(d, name, isDir))
    ensures Handle(found) == ReplyTo(s, capacity, Make(d, name, isDir))
  {
    hide Scannable, Names, BlocksNeeded, SumTotal, NewEntry, WithEntry, LowestFree;
    if found.Some? { LowestIs(s.live, |s.files|, found.value, 0); }
  }

  method PerformMake(fs: EasyFileSystem, d: nat, name: Name, isDir: bool) returns (r: Reply)
    requires fs.Valid() && Permitted(StateOf(fs), fs.g.dataAreaBlocks, Make(d, name, isDir))
    modifies fs.cache
    ensures fs.Valid() && StateOf(fs) == Next(old(StateOf(fs)), fs.g.dataAreaBlocks, Make(d, name, isDir))
    ensures r == ReplyTo(old(StateOf(fs)), fs.g.dataAreaBlocks, Make(d, name, isDir))
  {
    hide FsOk, QueueOk, Coherent, Pinned, FilesOf, Inodes, UsedInodes, Scannable, Names, BlocksNeeded, SumTotal, Used,
      NewEntry, WithEntry, Next, ReplyTo, LowestFree, Made, StateOf, Permitted, HasRoomIn, Fits;
    ghost var s := StateOf(fs);
    MakeRoom(fs, d, name, isDir);
    var found := CreateIn(fs, d, name, isDir);
    r := Handle(found);
    MadeIsNext(s, StateOf(fs), fs.g.dataAreaBlocks, d, name, isDir, found);
  }

  /** The room the directory's `create` asks for. */
  lemma MakeRoom(fs: EasyFileSystem, d: nat, name: Name, isDir: bool)
    requires fs.Valid() && Permitted(StateOf(fs), fs.g.dataAreaBlocks, Make(d, name, isDir))
    ensures d < fs.g.InodeCount() && d in fs.Live() && fs.IsDir(d) && Scannable(fs.View()[d], name)
    ensures name !in Names(fs.View()[d]) ==> Fits(name) && HasRoomIn(fs, d)
  {
    hide FsOk, QueueOk, Coherent, Pinned, FilesOf, Inodes, UsedInodes, Scannable, Names, BlocksNeeded, SumTotal, Used, Fits;
    LiveBelow(fs);
    ConservationOf(fs);
    var s := StateOf(fs);
    if name !in Names(s.files[d]) { RoomForInode(s.live, |s.files|, LowestFree(s.live, 0, |s.files|)); }
  }

  ghost predicate HasRoomIn(fs: EasyFileSystem, d: nat)
    requires fs.Valid() && d < fs.g.InodeCount()
    reads fs, fs.cache
  {
    && |fs.Live()| < fs.g.InodeCount() <= U32_LIMIT && Extended(fs.View()[d]) <= MAX_SIZE
    && BlocksNeeded(|fs.View()[d]|, Extended(fs.View()[d])) <= fs.FreeBlocks()
  }

  method CreateIn(fs: EasyFileSystem, d: nat, name: Name, isDir: bool) returns (found: Option<nat>)
    requires fs.Valid() && d < fs.g.InodeCount() && d in fs.Live() && fs.IsDir(d) && Scannable(fs.View()[d], name)
    requires name !in Names(fs.View()[d]) ==> Fits(name) && HasRoomIn(fs, d)
    modifies fs.cache
    ensures fs.Valid() && Made(old(StateOf(fs)), StateOf(fs), d, name, isDir, found)
  {
    hide FsOk, QueueOk, Coherent, Pinned, FilesOf, Inodes, UsedInodes, DirOk, Scannable, Names, BlocksNeeded, SumTotal, Used,
      NewEntry, WithEntry, Legible;
    ghost var s := StateOf(fs);
    var dir := new Directories.Inode(fs, d);
    found := dir.Create(name, isDir);
    LiveBelow(fs);
    assert StateOf(fs).dirs == if found.Some? && isDir then s.dirs + {found.value} else s.dirs;
  }

  method PerformLookup(fs: EasyFileSystem, d: nat, name: Name) returns (r: Reply)
    requires fs.Valid() && Permitted(StateOf(fs), fs.g.dataAreaBlocks, Lookup(d, name))
    modifies fs.cache
    ensures fs.Valid() && StateOf(fs) == Next(old(StateOf(fs)), fs.g.dataAreaBlocks, Lookup(d, name))
    ensures r == ReplyTo(old(StateOf(fs)), fs.g.dataAreaBlocks, Lookup(d, name))
  {
    hide FsOk, QueueOk, Coherent, Pinned, FilesOf, Inodes, UsedInodes, Scannable, Names, Ids, Bound;
    var dir := new Directories.Inode(fs, d);
    var found := dir.Find(name);
    r := Handle(found);
  }

  method PerformList(fs: EasyFileSystem, d: nat) returns (r: Reply)
    requires fs.Valid() && Permitted(StateOf(fs), fs.g.dataAreaBlocks, List(d))
    modifies fs.cache
    ensures fs.Valid() && StateOf(fs) == Next(old(StateOf(fs)), fs.g.dataAreaBlocks, List(d))
    ensures r == ReplyTo(old(StateOf(fs)), fs.g.dataAreaBlocks, List(d))
  {
    hide FsOk, QueueOk, Coherent, Pinned, FilesOf, Inodes, UsedInodes, DirOk, Names;
    var dir := new Directories.Inode(fs, d);
    var names := dir.Ls();
    r := Listing(names);
  }

  method PerformData(fs: EasyFileSystem, f: FileOp) returns (r: Reply)
    requires fs.Valid() && Permitted(StateOf(fs), fs.g.dataAreaBlocks, Data(f))
    modifies fs.cache
    ensures fs.Valid() && StateOf(fs) == Next(old(StateOf(fs)), fs.g.dataAreaBlocks, Data(f))
    ensures r == ReplyTo(old(StateOf(fs)), fs.g.dataAreaBlocks, Data(f))
  {
    hide FsOk, QueueOk, Coherent, Pinned, FilesOf, Inodes, UsedInodes, Allowed, Apply, Output;
    var out := Step(fs, f);
    r := Content(out);
  }

  // ---------- runs ----------

  ghost function RunFrom(s: State, capacity: nat, ops: seq<Op>): (r: State)
    ensures |r.files| == |s.files|
    decreases |ops|
  {
    if ops == [] then s else Next(RunFrom(s, capacity, ops[..|ops| - 1]), capacity, ops[|ops| - 1])
  }

  ghost predicate AllPermitted(s: State, capacity: nat, ops: seq<Op>) {
    forall i | 0 <= i < |ops| :: Permitted(RunFrom(s, capacity, ops[..i]), capacity, ops[i])
  }

  lemma PermittedPrefix(s: State, capacity: nat, ops: seq<Op>, n: nat)
    requires AllPermitted(s, capacity, ops) && n <= |ops|
    ensures AllPermitted(s, capacity, ops[..n])
  {
    hide Permitted, RunFrom;
    forall i | 0 <= i < n ensures Permitted(RunFrom(s, capacity, ops[..n][..i]), capacity, ops[..n][i]) {
      assert ops[..n][..i] == ops[..i];
    }
  }

  ghost function Replies(s: State, capacity: nat, ops: seq<Op>): (rs: seq<Reply>)
    requires AllPermitted(s, capacity, ops)
    decreases |ops|
  {
    if ops == [] then []
    else
      var n := |ops| - 1;
      PermittedPrefix(s, capacity, ops, n);
      Replies(s, capacity, ops[..n]) + [ReplyTo(RunFrom(s, capacity, ops[..n]), capacity, ops[n])]
  }

  /** Over every run of create, create_dir, find, ls, read_at, write_at and clear, the file system is in the state the
      fold describes and has given its replies. */
  method Run(fs: EasyFileSystem, ops: seq<Op>) returns (replies: seq<Reply>)
    requires fs.Valid() && AllPermitted(StateOf(fs), fs.g.dataAreaBlocks, ops)
    modifies fs.cache
    ensures fs.Valid() && StateOf(fs) == RunFrom(old(StateOf(fs)), fs.g.dataAreaBlocks, ops)
    ensures replies == Replies(old(StateOf(fs)), fs.g.dataAreaBlocks, ops)
    ensures fs.FreeBlocks() == fs.g.dataAreaBlocks - SumTotal(Sizes(fs.View()))
  {
    hide StateOf, Next, Permitted, ReplyTo, FsOk, QueueOk, Coherent, Pinned, FilesOf, Inodes, UsedInodes, Used, SumTotal;
    ghost var s, cap := StateOf(fs), fs.g.dataAreaBlocks;
    replies := [];
    assert ops[..0] == [];
    for i := 0 to |ops|
      invariant fs.Valid() && StateOf(fs) == RunFrom(s, cap, ops[..i])
      invariant AllPermitted(s, cap, ops[..i]) && replies == Replies(s, cap, ops[..i])
    {
      PermittedPrefix(s, cap, ops, i + 1);
      assert ops[..i + 1][..i] == ops[..i];
      var r := Perform(fs, ops[i]);
      replies := replies + [r];
    }
    assert ops[..|ops|] == ops;
    ConservationOf(fs);
  }

  lemma {:induction false} ReplyAt(s: State, capacity: nat, ops: seq<Op>, k: nat)
    requires AllPermitted(s, capacity, ops) && k < |ops|
    ensures |Replies(s, capacity, ops)| == |ops|
    ensures Replies(s, capacity, ops)[k] == ReplyTo(RunFrom(s, capacity, ops[..k]), capacity, ops[k])
    decreases |ops|
  {
    hide Permitted, ReplyTo, RunFrom;
    var n := |ops| - 1;
    PermittedPrefix(s, capacity, ops, n);
    if n > 0 {
      ReplyAt(s, capacity, ops[..n], if k < n then k else 0);
      assert k < n ==> ops[..n][..k] == ops[..k];
    }
  }
}
