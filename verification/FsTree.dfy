/** The file system as a tree: directories, files, and one path from the root to each. */
module FileTrees {
  import opened Collections
  import opened Blocks
  import opened BlockCaches
  import opened Layout
  import opened Efs
  import opened Ownership
  import opened Vfs
  import opened FsRuns
  import opened Directories
  import opened VfsRuns

  datatype Node = Dir(names: seq<Name>, ids: seq<nat>) | Plain(bytes: seq<Byte>)
  /** The inodes in use. */
  type Tree = map<nat, Node>

  // ---------- what makes it a tree ----------

  /** Entry `k` of directory `d` names inode `i`. */
  ghost predicate Entry(t: Tree, d: nat, k: nat, i: nat) {
    d in t && t[d].Dir? && k < |t[d].ids| && t[d].ids[k] == i
  }

  ghost predicate Named(t: Tree, i: nat) {
    exists d: nat, k: nat :: Entry(t, d, k, i)
  }

  ghost predicate DirShaped(n: Node) {
    n.Dir? ==> |n.names| == |n.ids| && forall a, b | 0 <= a < b < |n.names| :: n.names[a] != n.names[b]
  }

  /** Inodes are numbered from the root, directory 0; names are distinct within a directory; every entry names a later
      inode in use; and every inode but the root is named by exactly one entry of one directory. */
  ghost predicate IsTree(t: Tree) {
    && (forall i: nat :: i in t <==> i < |t|) && 0 in t && t[0].Dir?
    && (forall d | d in t :: DirShaped(t[d]))
    && (forall d: nat, k: nat, i: nat | Entry(t, d, k, i) :: d < i < |t|)
    && (forall i: nat | 0 < i < |t| :: Named(t, i))
    && (forall d: nat, k: nat, e: nat, m: nat, i: nat | Entry(t, d, k, i) && Entry(t, e, m, i) :: d == e && k == m)
  }

  // ---------- paths ----------

  /** One name further. */
  ghost function Down(t: Tree, up: Option<nat>, name: Name): (r: Option<nat>) {
    if up.None? || up.value !in t || !t[up.value].Dir? || |t[up.value].names| != |t[up.value].ids| then None
    else Bound(t[up.value].names, t[up.value].ids, name)
  }

  /** Following names from the root. */
  ghost function Resolve(t: Tree, path: seq<Name>): (r: Option<nat>)
    decreases |path|
  {
    if path == [] then Some(0) else Down(t, Resolve(t, path[..|path| - 1]), path[|path| - 1])
  }

  /** The names on the way to an inode. */
  ghost function PathTo(t: Tree, i: nat): (path: seq<Name>)
    requires IsTree(t) && i in t
  {
    if i == 0 then []
    else
      assert Named(t, i);
      var d: nat, k: nat :| Entry(t, d, k, i);
      PathTo(t, d) + [t[d].names[k]]
  }

  lemma EntryBound(n: Node, k: nat)
    requires n.Dir? && DirShaped(n) && k < |n.ids|
    ensures Bound(n.names, n.ids, n.names[k]) == Some(n.ids[k])
  {
  }

  /** The path of an entry is the path of its directory and its name. */
  lemma PathOfEntry(t: Tree, d: nat, k: nat, i: nat)
    requires IsTree(t) && Entry(t, d, k, i)
    ensures i in t && i != 0 && |t[d].names| == |t[d].ids| && PathTo(t, i) == PathTo(t, d) + [t[d].names[k]]
  {
    assert Named(t, i);
    var e: nat, m: nat :| Entry(t, e, m, i) && PathTo(t, i) == PathTo(t, e) + [t[e].names[m]];
    EntryUnique(t, d, k, e, m, i);
  }

  lemma EntryBelow(t: Tree, d: nat, k: nat, i: nat)
    requires IsTree(t) && Entry(t, d, k, i)
    ensures d < i && i in t && DirShaped(t[d])
  {
  }

  lemma EntryUnique(t: Tree, d: nat, k: nat, e: nat, m: nat, i: nat)
    requires IsTree(t) && Entry(t, d, k, i) && Entry(t, e, m, i)
    ensures d == e && k == m
  {
  }

  lemma {:induction false} PathResolves(t: Tree, i: nat)
    requires IsTree(t) && i in t
    ensures Resolve(t, PathTo(t, i)) == Some(i)
  {
    hide IsTree;
    if i != 0 {
      assert Named(t, i) by { IsNamed(t, i); }
      var d: nat, k: nat :| Entry(t, d, k, i);
      EntryBelow(t, d, k, i);
      PathOfEntry(t, d, k, i);
      PathResolves(t, d);
      assert PathTo(t, i)[..|PathTo(t, d)|] == PathTo(t, d);
      EntryBound(t[d], k);
    }
  }

  lemma IsNamed(t: Tree, i: nat)
    requires IsTree(t) && i in t && i != 0
    ensures Named(t, i)
  {
  }

  /** A path leads to an inode in use, and it is that inode's one path. */
  lemma {:induction false} OnePath(t: Tree, path: seq<Name>)
    requires IsTree(t)
    ensures Resolve(t, path).Some? ==> Resolve(t, path).value in t && path == PathTo(t, Resolve(t, path).value)
    decreases |path|
  {
    hide IsTree;
    RootInUse(t);
    if path != [] && Resolve(t, path).Some? {
      var n := |path| - 1;
      OnePath(t, path[..n]);
      var d, name := Resolve(t, path[..n]).value, path[n];
      var k := FirstMatch(t[d].names, name);
      assert Entry(t, d, k, t[d].ids[k]);
      PathOfEntry(t, d, k, t[d].ids[k]);
      assert path == path[..n] + [name];
    }
  }

  lemma RootInUse(t: Tree)
    requires IsTree(t)
    ensures 0 in t
  {
  }

  /** Every inode in use has exactly one path from the root. */
  lemma ExactlyOnePath(t: Tree, i: nat, path: seq<Name>)
    requires IsTree(t) && i in t
    ensures Resolve(t, path) == Some(i) <==> path == PathTo(t, i)
  {
    hide IsTree, Resolve, PathTo;
    OnePath(t, path);
    PathResolves(t, i);
  }

  // ---------- one operation on the tree ----------

  /** A new name gets a new empty node and one more entry; bytes change in one file. */
  ghost function TreeNext(t: Tree, op: Op): (r: Tree) {
    match op
    case Make(d, name, isDir) => if Makes(t, op) then Grown(t, d, name, isDir) else t
    case Lookup(_, _) => t
    case List(_) => t
    case Data(f) =>
      if f.inode !in t || !t[f.inode].Plain? then t
      else
        match f
        case Write(i, off, buf) => t[i := Plain(FileWrite(t[i].bytes, off, buf))]
        case Read(_, _, _) => t
        case Clear(i) => t[i := Plain([])]
  }

  predicate Makes(t: Tree, op: Op) {
    op.Make? && op.dir in t && t[op.dir].Dir? && op.name !in t[op.dir].names
  }

  ghost function Grown(t: Tree, d: nat, name: Name, isDir: bool): (r: Tree)
    requires d in t && t[d].Dir?
  {
    var n := |t|;
    t[n := if isDir then Dir([], []) else Plain([])][d := Dir(t[d].names + [name], t[d].ids + [n])]
  }

  lemma GrownEntries(t: Tree, d: nat, name: Name, isDir: bool)
    requires IsTree(t) && d in t && t[d].Dir?
    ensures var u := Grown(t, d, name, isDir);
            && |u| == |t| + 1
            && forall e: nat, k: nat, i: nat ::
                 Entry(u, e, k, i) <==> Entry(t, e, k, i) || (e == d && k == |t[d].ids| && i == |t|)
  {
    hide Named;
  }

  lemma GrownTree(t: Tree, d: nat, name: Name, isDir: bool)
    requires IsTree(t) && d in t && t[d].Dir? && name !in t[d].names
    ensures IsTree(Grown(t, d, name, isDir))
  {
    hide Entry;
    GrownEntries(t, d, name, isDir);
    var u := Grown(t, d, name, isDir);
    forall i: nat | 0 < i < |u| ensures Named(u, i) {
      if i == |t| {
        assert Entry(u, d, |t[d].ids|, i);
      } else {
        assert Named(t, i);
        var e: nat, k: nat :| Entry(t, e, k, i);
        assert Entry(u, e, k, i);
      }
    }
  }

  /** Every operation keeps the tree a tree. */
  lemma NextIsTree(t: Tree, op: Op)
    requires IsTree(t)
    ensures IsTree(TreeNext(t, op))
  {
    hide IsTree, Grown;
    if Makes(t, op) { GrownTree(t, op.dir, op.name, op.isDir); }
    if op.Data? && op.op.inode in t && t[op.op.inode].Plain? {
      var n := TreeNext(t, op)[op.op.inode];
      BytesTree(t, op.op.inode, n);
      if op.op.Read? { assert t == t[op.op.inode := n]; }
    }
  }

  lemma BytesTree(t: Tree, i: nat, n: Node)
    requires IsTree(t) && i in t && t[i].Plain? && n.Plain?
    ensures IsTree(t[i := n])
  {
    var u := t[i := n];
    forall e: nat, k: nat, j: nat ensures Entry(u, e, k, j) <==> Entry(t, e, k, j) { }
    forall j: nat | 0 < j < |u| ensures Named(u, j) {
      assert Named(t, j);
      var e: nat, k: nat :| Entry(t, e, k, j);
      assert Entry(u, e, k, j);
    }
  }

  /** The path a `create` adds. */
  ghost predicate Adds(t: Tree, op: Op, path: seq<Name>)
    requires IsTree(t)
  {
    Makes(t, op) && path == PathTo(t, op.dir) + [op.name]
  }

  /** Every operation leaves every path where it led; `create` adds the one path to its new inode. */
  lemma {:induction false} PathsLast(t: Tree, op: Op, path: seq<Name>)
    requires IsTree(t)
    ensures Resolve(TreeNext(t, op), path) == if Adds(t, op, path) then Some(|t|) else Resolve(t, path)
    decreases |path|
  {
    hide IsTree, PathTo, Down, TreeNext;
    if path != [] {
      var n := |path| - 1;
      PathsLast(t, op, path[..n]);
      OnePath(t, path[..n]);
      if Makes(t, op) {
        LastStep(t, op, path);
      } else {
        SameDown(t, op, Resolve(t, path[..n]), path[n]);
      }
    }
  }

  /** Operations that make no node leave directories alone. */
  lemma SameDown(t: Tree, op: Op, up: Option<nat>, name: Name)
    requires !Makes(t, op)
    ensures Down(TreeNext(t, op), up, name) == Down(t, up, name)
  {
  }

  lemma LastStep(t: Tree, op: Op, path: seq<Name>)
    requires IsTree(t) && Makes(t, op) && path != []
    requires var p := path[..|path| - 1]; Resolve(TreeNext(t, op), p) == if Adds(t, op, p) then Some(|t|) else Resolve(t, p)
    ensures Resolve(TreeNext(t, op), path) == if Adds(t, op, path) then Some(|t|) else Resolve(t, path)
  {
    hide IsTree, PathTo, Down, TreeNext;
    var n := |path| - 1;
    var p, name, d := path[..n], path[n], op.dir;
    OnePath(t, p);
    ExactlyOnePath(t, d, p);
    assert path == p + [name];
    if Adds(t, op, p) {
      PathResolves(t, d);
      assert p[..|p| - 1] == PathTo(t, d);
      NotThere(t, op);
      DownNew(t, op, name);
      NoWayDown(t, name);
    } else {
      DownGrown(t, op, Resolve(t, p), name);
    }
  }

  lemma NotThere(t: Tree, op: Op)
    requires Makes(t, op)
    ensures Down(t, Some(op.dir), op.name) == None
  {
  }

  lemma NoWayDown(t: Tree, name: Name)
    ensures Down(t, None, name) == None
  {
  }

  lemma DownNew(t: Tree, op: Op, name: Name)
    requires IsTree(t) && Makes(t, op)
    ensures Down(TreeNext(t, op), Some(|t|), name) == None
  {
    hide Named, Entry;
  }

  lemma DownGrown(t: Tree, op: Op, up: Option<nat>, name: Name)
    requires IsTree(t) && Makes(t, op) && (up.Some? ==> up.value in t)
    ensures Down(TreeNext(t, op), up, name) == if up == Some(op.dir) && name == op.name then Some(|t|) else Down(t, up, name)
  {
    hide Named, Entry, Bound;
    var d := op.dir;
    assert DirShaped(t[d]);
    BoundAppend(t[d].names, t[d].ids, op.name, |t|, name);
  }

  lemma BoundAppend(names: seq<Name>, ids: seq<nat>, name: Name, id: nat, x: Name)
    requires |names| == |ids| && name !in names
    ensures Bound(names + [name], ids + [id], x) == if x == name then Some(id) else Bound(names, ids, x)
  {
    hide FirstMatch;
    var more := names + [name];
    var i, j := FirstMatch(names, x), FirstMatch(more, x);
    assert more[|names|] == name && forall k | 0 <= k < |names| :: more[k] == names[k];
    assert j < |names| ==> names[j] == x;
  }

  // ---------- the file system as a tree ----------

  ghost function NodeOf(s: State, i: nat): (n: Node)
    requires i < |s.files|
  {
    if i in s.dirs then Dir(Names(s.files[i]), Ids(s.files[i])) else Plain(s.files[i])
  }

  ghost function TreeOf(s: State): (t: Tree)
    requires StateOk(s)
  {
    map i | i in s.live :: NodeOf(s, i)
  }

  /** Every directory can be read, and together they make a tree. */
  ghost predicate TreeState(s: State) {
    && StateOk(s) && (forall i | i in s.dirs :: DirOk(s.files[i]))
    && IsTree(TreeOf(s))
  }

  /** Names that read back whole, and no bytes written to directories behind their back. */
  predicate Orderly(s: State, op: Op) {
    (op.Make? ==> Storing(op.name)) && (op.Data? ==> op.op.inode !in s.dirs)
  }

  /** `EasyFileSystem::create` makes the tree that is only a root. */
  method Format(cache: BlockCacheManager<Block>, totalBlocks: nat, inodeBitmapBlocks: nat) returns (fs: EasyFileSystem)
    requires cache.Usable() && 0 < inodeBitmapBlocks
    requires 1 + inodeBitmapBlocks + inodeBitmapBlocks * 1024 <= totalBlocks < U32_LIMIT
    requires forall id :: id in cache.logical <==> 0 <= id < totalBlocks
    modifies cache
    ensures fs.Valid() && fs.cache == cache && fs.g == Plan(totalBlocks, inodeBitmapBlocks)
    ensures TreeState(StateOf(fs)) && TreeOf(StateOf(fs)) == map[0 := Dir([], [])]
  {
    hide FsOk, QueueOk, Coherent, Pinned, FilesOf, UsedInodes, Inodes, Opened, Plan, IsTree, DirOk, Names, Ids;
    fs := FsRuns.Create(cache, totalBlocks, inodeBitmapBlocks);
    StateOfOk(fs);
    EmptyDir();
    RootOnly();
    assert TreeOf(StateOf(fs)) == map[0 := Dir([], [])];
  }

  lemma EmptyDir()
    ensures DirOk([]) && Names([]) == [] && Ids([]) == []
  {
  }

  lemma RootOnly()
    ensures IsTree(map[0 := Dir([], [])])
  {
    hide Entry;
    var t: Tree := map[0 := Dir([], [])];
    forall d: nat, k: nat, i: nat ensures !Entry(t, d, k, i) { NoEntries(t, d, k, i); }
  }

  lemma NoEntries(t: Tree, d: nat, k: nat, i: nat)
    requires t == map[0 := Dir([], [])]
    ensures !Entry(t, d, k, i)
  {
  }

  lemma FreshIsNext(s: State)
    requires StateOk(s) && IsTree(TreeOf(s)) && LowestFree(s.live, 0, |s.files|) < |s.files|
    ensures LowestFree(s.live, 0, |s.files|) == |TreeOf(s)|
  {
    hide Named, Entry, DirShaped, NodeOf;
    var t, i := TreeOf(s), LowestFree(s.live, 0, |s.files|);
    assert i !in t && (i > 0 ==> i - 1 in t);
  }

  /** The file system acts on its tree and on nothing else, and its tree stays one. */
  lemma StepIsTree(s: State, capacity: nat, op: Op)
    requires TreeState(s) && Permitted(s, capacity, op) && Orderly(s, op)
    ensures TreeState(Next(s, capacity, op)) && TreeOf(Next(s, capacity, op)) == TreeNext(TreeOf(s), op)
  {
    hide DirOk, Names, Ids, BlocksNeeded, SumTotal, NewEntry, WithEntry, FileWrite, Addressable, LowestFree, IsTree, Storing, Grown;
    NextIsTree(TreeOf(s), op);
    match op
    case Make(d, name, isDir) => if name !in Names(s.files[d]) { MakeIsTree(s, capacity, d, name, isDir); }
    case Lookup(_, _) =>
    case List(_) =>
    case Data(f) => assert TreeOf(Next(s, capacity, op)) == TreeNext(TreeOf(s), op);
  }

  lemma MakeIsTree(s: State, capacity: nat, d: nat, name: Name, isDir: bool)
    requires TreeState(s) && Permitted(s, capacity, Make(d, name, isDir)) && Storing(name) && name !in Names(s.files[d])
    ensures var r := Next(s, capacity, Make(d, name, isDir));
            && StateOk(r) && (forall i | i in r.dirs :: DirOk(r.files[i]))
            && Makes(TreeOf(s), Make(d, name, isDir)) && TreeOf(r) == Grown(TreeOf(s), d, name, isDir)
  {
    hide DirOk, DistinctNames, Names, Ids, BlocksNeeded, SumTotal, NewEntry, WithEntry, NoNul, Visible, LowestFree, IsTree, Scannable;
    var f, i := s.files[d], LowestFree(s.live, 0, |s.files|);
    FreshIsNext(s);
    VisibleWhole(name);
    AppendedExactly(f, name, i);
    EmptyDir();
    var r := Next(s, capacity, Make(d, name, isDir));
    assert TreeOf(r) == Grown(TreeOf(s), d, name, isDir);
  }

  /** The reply is read off the tree: a new inode is the next one, and an inode that was found is in use. */
  ghost predicate Answers(t: Tree, op: Op, r: Reply) {
    match op
    case Make(d, name, _) =>
      d in t && t[d].Dir? && r == Handle(if name in t[d].names then None else Some(|t|))
    case Lookup(d, name) =>
      && d in t && t[d].Dir? && |t[d].ids| == |t[d].names| && r == Handle(Bound(t[d].names, t[d].ids, name))
      && (r.found.Some? ==> r.found.value in t)
    case List(i) => i in t && r == Listing(if t[i].Dir? then t[i].names else Names(t[i].bytes))
    case Data(f) =>
      && f.inode in t && t[f.inode].Plain?
      && r == Content(if f.Read? then FileRead(t[f.inode].bytes, f.offset, f.len) else [])
  }

  lemma ReplyIsTree(s: State, capacity: nat, op: Op)
    requires TreeState(s) && Permitted(s, capacity, op) && Orderly(s, op)
    ensures Answers(TreeOf(s), op, ReplyTo(s, capacity, op))
  {
    hide DirOk, Names, Ids, BlocksNeeded, SumTotal, Scannable, FileWrite, FileRead, Addressable, LowestFree, IsTree, Storing, FirstMatch;
    var t := TreeOf(s);
    match op
    case Make(d, name, _) => if name !in Names(s.files[d]) { FreshIsNext(s); }
    case Lookup(d, name) => FoundInUse(t, d, name);
    case List(_) =>
    case Data(_) =>
  }

  lemma FoundInUse(t: Tree, d: nat, name: Name)
    requires IsTree(t) && d in t && t[d].Dir?
    ensures |t[d].names| == |t[d].ids|
    ensures var r := Bound(t[d].names, t[d].ids, name); r.Some? ==> r.value in t && r.value > d
  {
    assert DirShaped(t[d]);
    var k := FirstMatch(t[d].names, name);
    if k < |t[d].ids| { assert Entry(t, d, k, t[d].ids[k]); }
  }

  // ---------- runs ----------

  ghost predicate AllOrderly(s: State, capacity: nat, ops: seq<Op>) {
    forall i | 0 <= i < |ops| :: Orderly(RunFrom(s, capacity, ops[..i]), ops[i])
  }

  lemma {:induction false} RunIsTree(s: State, capacity: nat, ops: seq<Op>, k: nat)
    requires TreeState(s) && AllPermitted(s, capacity, ops) && AllOrderly(s, capacity, ops) && k <= |ops|
    ensures var r := RunFrom(s, capacity, ops[..k]); TreeState(r) && StateOk(r) && IsTree(TreeOf(r))
  {
    hide TreeState, Next, Permitted, Orderly, TreeOf;
    if k > 0 {
      RunIsTree(s, capacity, ops, k - 1);
      assert ops[..k][..k - 1] == ops[..k - 1];
      StepIsTree(RunFrom(s, capacity, ops[..k - 1]), capacity, ops[k - 1]);
    }
    TreeIsTree(RunFrom(s, capacity, ops[..k]));
  }

  /** Throughout every run the file system is a tree, and every step is the operation on that tree, answered from it. */
  lemma RunsAreTrees(s: State, capacity: nat, ops: seq<Op>, k: nat)
    requires TreeState(s) && AllPermitted(s, capacity, ops) && AllOrderly(s, capacity, ops) && k < |ops|
    ensures |Replies(s, capacity, ops)| == |ops|
    ensures var before, after := RunFrom(s, capacity, ops[..k]), RunFrom(s, capacity, ops[..k + 1]);
            && TreeState(before) && TreeState(after) && TreeOf(after) == TreeNext(TreeOf(before), ops[k])
            && Answers(TreeOf(before), ops[k], Replies(s, capacity, ops)[k])
  {
    hide TreeState, Next, ReplyTo, TreeOf, TreeNext, Answers, Permitted, Orderly;
    RunIsTree(s, capacity, ops, k);
    ReplyAt(s, capacity, ops, k);
    assert ops[..k + 1][..k] == ops[..k];
    var before := RunFrom(s, capacity, ops[..k]);
    StepIsTree(before, capacity, ops[k]);
    ReplyIsTree(before, capacity, ops[k]);
  }

  /** Throughout every run every inode in use has exactly one path from the root, and every path that leads somewhere
      leads to one. */
  lemma RunsHaveOnePath(s: State, capacity: nat, ops: seq<Op>, k: nat, path: seq<Name>, i: nat)
    requires TreeState(s) && AllPermitted(s, capacity, ops) && AllOrderly(s, capacity, ops) && k <= |ops|
    ensures var r := RunFrom(s, capacity, ops[..k]);
            && StateOk(r) && IsTree(TreeOf(r))
            && (Resolve(TreeOf(r), path) == Some(i) <==> i in TreeOf(r) && path == PathTo(TreeOf(r), i))
  {
    hide TreeState, TreeOf, IsTree, PathTo, Resolve, AllPermitted, AllOrderly;
    RunIsTree(s, capacity, ops, k);
    var t := TreeOf(RunFrom(s, capacity, ops[..k]));
    OnePath(t, path);
    if i in t { ExactlyOnePath(t, i, path); }
  }

  /** An inode, once in use, stays in use in every later state, on the same path. */
  lemma {:induction false} RunsKeepPaths(s: State, capacity: nat, ops: seq<Op>, k: nat, m: nat, i: nat)
    requires TreeState(s) && AllPermitted(s, capacity, ops) && AllOrderly(s, capacity, ops) && k <= m <= |ops|
    ensures var before, after := RunFrom(s, capacity, ops[..k]), RunFrom(s, capacity, ops[..m]);
            && StateOk(before) && StateOk(after) && IsTree(TreeOf(before)) && IsTree(TreeOf(after))
            && (i in TreeOf(before) ==> i in TreeOf(after) && PathTo(TreeOf(after), i) == PathTo(TreeOf(before), i))
    decreases m
  {
    hide TreeState, TreeOf, TreeNext, IsTree, PathTo, Answers, AllPermitted, AllOrderly, Replies, RunFrom;
    RunIsTree(s, capacity, ops, k);
    RunIsTree(s, capacity, ops, m);
    if k < m {
      RunsKeepPaths(s, capacity, ops, k, m - 1, i);
      RunsAreTrees(s, capacity, ops, m - 1);
      assert ops[..m - 1 + 1] == ops[..m];
      var t := TreeOf(RunFrom(s, capacity, ops[..m - 1]));
      if i in t { PathStays(t, ops[m - 1], i); }
    }
  }

  lemma TreeIsTree(s: State)
    requires TreeState(s)
    ensures StateOk(s) && IsTree(TreeOf(s))
  {
  }

  lemma PathStays(t: Tree, op: Op, i: nat)
    requires IsTree(t) && i in t && IsTree(TreeNext(t, op))
    ensures i in TreeNext(t, op) && PathTo(TreeNext(t, op), i) == PathTo(t, i)
  {
    hide IsTree, PathTo, Resolve, TreeNext;
    var path := PathTo(t, i);
    PathResolves(t, i);
    PathsLast(t, op, path);
    OnePath(TreeNext(t, op), path);
    if Adds(t, op, path) { AddsNew(t, op, path); }
  }

  /** The path a `create` adds led nowhere. */
  lemma AddsNew(t: Tree, op: Op, path: seq<Name>)
    requires IsTree(t) && Adds(t, op, path)
    ensures Resolve(t, path) == None
  {
    hide IsTree, PathTo, Down;
    PathResolves(t, op.dir);
    assert path[..|path| - 1] == PathTo(t, op.dir);
    NotThere(t, op);
  }
}
