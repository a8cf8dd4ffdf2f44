/** Directories: files of 32-byte entries, each a NUL-padded name of at most 27 bytes and an inode number. */
module Directories {
  import opened Collections
  import opened Blocks
  import opened BlockCaches
  import opened Layout
  import opened Efs
  import opened Ownership
  import opened Vfs
  import opened FsRuns

  const NAME_LENGTH_LIMIT: nat := 27
  const NAME_FIELD: nat := 28
  const DIRENT_SZ: nat := 32

  type Name = seq<Byte>

  // ---------- UTF-8 ----------

  /** The length of a character, from its first byte; 0 for bytes no character starts with. */
  function CharLength(b: Byte): (n: nat) {
    if b < 0x80 then 1
    else if 0xC2 <= b < 0xE0 then 2
    else if 0xE0 <= b < 0xF0 then 3
    else if 0xF0 <= b < 0xF5 then 4
    else 0
  }

  /** `s` starts with a well-formed character, as the table in section 4 of RFC 3629 has it. */
  predicate StartsWithChar(s: seq<Byte>) {
    && s != [] && 0 < CharLength(s[0]) <= |s|
    && (forall k | 1 <= k < CharLength(s[0]) :: 0x80 <= s[k] < 0xC0)
    && (s[0] == 0xE0 ==> 0xA0 <= s[1]) && (s[0] == 0xED ==> s[1] < 0xA0)
    && (s[0] == 0xF0 ==> 0x90 <= s[1]) && (s[0] == 0xF4 ==> s[1] < 0x90)
  }

  predicate Utf8(s: seq<Byte>)
    decreases |s|
  {
    s == [] || (StartsWithChar(s) && Utf8(s[CharLength(s[0])..]))
  }

  /** The Unicode scalar values. */
  predicate Scalar(c: nat) {
    c < 0xD800 || 0xE000 <= c < 0x11_0000
  }

  /** The UTF-8 encoding of a scalar value. */
  function EncodeChar(c: nat): (s: seq<Byte>)
    requires Scalar(c)
  {
    if c < 0x80 then [c]
    else if c < 0x800 then [0xC0 + c / 0x40, 0x80 + c % 0x40]
    else if c < 0x1_0000 then [0xE0 + c / 0x1000, 0x80 + c / 0x40 % 0x40, 0x80 + c % 0x40]
    else [0xF0 + c / 0x4_0000, 0x80 + c / 0x1000 % 0x40, 0x80 + c / 0x40 % 0x40, 0x80 + c % 0x40]
  }

  /** A sequence starts with a well-formed character exactly when it starts with the encoding of a scalar value. */
  lemma CharsAreEncodings(s: seq<Byte>)
    ensures StartsWithChar(s) <==> exists c: nat :: Scalar(c) && EncodeChar(c) <= s
  {
    if StartsWithChar(s) {
      var c := DecodeChar(s);
      assert Scalar(c) && EncodeChar(c) <= s;
    }
    if c: nat :| Scalar(c) && EncodeChar(c) <= s { EncodingStarts(c, s); }
  }

  lemma EncodingStarts(c: nat, s: seq<Byte>)
    requires Scalar(c) && EncodeChar(c) <= s
    ensures StartsWithChar(s) && CharLength(s[0]) == |EncodeChar(c)|
  {
    assert forall k | 0 <= k < |EncodeChar(c)| :: s[k] == EncodeChar(c)[k];
  }

  lemma DecodeChar(s: seq<Byte>) returns (c: nat)
    requires StartsWithChar(s)
    ensures Scalar(c) && EncodeChar(c) <= s
  {
    var n := CharLength(s[0]);
    if n == 1 {
      c := s[0];
      assert EncodeChar(c) == s[..1];
    } else if n == 2 {
      c := (s[0] as nat - 0xC0) * 0x40 + (s[1] - 0x80);
      assert EncodeChar(c) == s[..2];
    } else if n == 3 {
      c := JoinThree(s[0] - 0xE0, s[1] - 0x80, s[2] - 0x80);
      assert EncodeChar(c) == s[..3];
    } else {
      c := JoinFour(s[0] - 0xF0, s[1] - 0x80, s[2] - 0x80, s[3] - 0x80);
      assert EncodeChar(c) == s[..4];
    }
  }

  lemma JoinThree(a: nat, b: nat, d: nat) returns (c: nat)
    requires b < 0x40 && d < 0x40
    ensures 0x1000 * a + 0x40 * b <= c == 0x1000 * a + 0x40 * b + d < 0x1000 * (a + 1)
    ensures c / 0x1000 == a && c / 0x40 % 0x40 == b && c % 0x40 == d
  {
    c := 0x1000 * a + 0x40 * b + d;
    assert c / 0x40 == 0x40 * a + b;
  }

  lemma JoinFour(a: nat, b: nat, d: nat, e: nat) returns (c: nat)
    requires b < 0x40 && d < 0x40 && e < 0x40
    ensures 0x4_0000 * a + 0x1000 * b <= c < 0x4_0000 * a + 0x1000 * (b + 1)
    ensures c / 0x4_0000 == a && c / 0x1000 % 0x40 == b && c / 0x40 % 0x40 == d && c % 0x40 == e
  {
    var h := JoinThree(a, b, d);
    c := 0x40 * h + e;
    assert c / 0x40 == h && c / 0x1000 == h / 0x40 && c / 0x4_0000 == h / 0x1000;
    assert h / 0x40 == 0x40 * a + b;
  }

  lemma {:induction false} AsciiIsUtf8(s: seq<Byte>)
    requires forall k | 0 <= k < |s| :: s[k] < 0x80
    ensures Utf8(s)
    decreases |s|
  {
    if s != [] { AsciiIsUtf8(s[1..]); }
  }

  /** A NUL ends a character, so cutting at it leaves UTF-8. */
  lemma {:induction false} VisibleIsUtf8(s: seq<Byte>)
    requires Utf8(s)
    ensures Utf8(Visible(s))
    decreases |s|
  {
    hide Visible;
    if s != [] && s[0] != 0 {
      var n := CharLength(s[0]);
      VisibleIsUtf8(s[n..]);
      VisibleAfter(s[..n], s[n..]);
      assert s == s[..n] + s[n..];
      var v := Visible(s);
      assert v[n..] == Visible(s[n..]) && forall k | 0 <= k < n :: v[k] == s[k];
    } else {
      VisibleOf(s, []);
    }
  }

  lemma VisibleAfter(a: seq<Byte>, b: seq<Byte>)
    requires NoNul(a)
    ensures Visible(a + b) == a + Visible(b)
  {
    hide Visible;
    var r := Visible(b);
    if a + r != a + b { assert (a + b)[|a| + |r|] == b[|r|]; }
    assert b == r + b[|r|..];
    VisibleOf(a + b, a + r);
  }

  // ---------- entries ----------

  /** Names `DirEntry::new` accepts: it panics on longer ones. */
  predicate Fits(name: Name) {
    |name| <= NAME_FIELD && Utf8(name)
  }

  /** Names an entry gives back: within the stated limit, and without a NUL. */
  predicate Storing(name: Name) {
    |name| <= NAME_LENGTH_LIMIT && NoNul(name) && Utf8(name)
  }

  predicate NoNul(name: Name) {
    forall k | 0 <= k < |name| :: name[k] != 0
  }

  function LittleEndian(w: nat): (b: seq<Byte>)
    requires w < U32_LIMIT
    ensures |b| == 4
  {
    BytesOfWord(w);
    [w % 0x100, w / 0x100 % 0x100, w / 0x1_0000 % 0x100, w / 0x100_0000]
  }

  /** `DirEntry::new`, as bytes. */
  function NewEntry(name: Name, id: nat): (e: seq<Byte>)
    requires Fits(name) && id < U32_LIMIT
    ensures |e| == DIRENT_SZ
  {
    name + ZeroBytes(NAME_FIELD - |name|) + LittleEndian(id)
  }

  /** The first NUL of the name field; 28, where the source panics, if there is none. */
  function NameLength(e: seq<Byte>, from: nat): (n: nat)
    requires |e| == DIRENT_SZ && from <= NAME_FIELD
    ensures from <= n <= NAME_FIELD && (n < NAME_FIELD ==> e[n] == 0)
    ensures forall k | from <= k < n :: e[k] != 0
    decreases NAME_FIELD - from
  {
    if from == NAME_FIELD || e[from] == 0 then from else NameLength(e, from + 1)
  }

  /** `DirEntry::name`. */
  function EntryName(e: seq<Byte>): (name: Name)
    requires |e| == DIRENT_SZ
  {
    e[..NameLength(e, 0)]
  }

  /** `DirEntry::inode_id`. */
  function EntryId(e: seq<Byte>): (id: nat)
    requires |e| == DIRENT_SZ
  {
    var b0: int, b1: int, b2: int, b3: int := e[28], e[29], e[30], e[31];
    b0 + 0x100 * b1 + 0x1_0000 * b2 + 0x100_0000 * b3
  }

  /** `name()` does not run off the name field, and what it finds is UTF-8. */
  predicate Readable(e: seq<Byte>)
    requires |e| == DIRENT_SZ
  {
    NameLength(e, 0) < NAME_FIELD && Utf8(EntryName(e))
  }

  /** A name up to its first NUL. */
  function Visible(name: Name): (v: Name)
    ensures v <= name && NoNul(v) && (v != name ==> name[|v|] == 0)
  {
    if name == [] || name[0] == 0 then [] else [name[0]] + Visible(name[1..])
  }

  lemma VisibleOf(name: Name, v: Name)
    requires v <= name && NoNul(v) && (v != name ==> name[|v|] == 0)
    ensures Visible(name) == v
  {
    hide Visible;
    var u := Visible(name);
    assert forall k | 0 <= k < |u| :: name[k] == u[k];
    assert forall k | 0 <= k < |v| :: name[k] == v[k];
  }

  /** `inode_id()` undoes `new`; after it `name()` panics exactly on a full field without a NUL, and it undoes `new` exactly for
      names of at most 27 bytes without a NUL. */
  lemma EntryRoundTrip(name: Name, id: nat)
    requires Fits(name) && id < U32_LIMIT
    ensures EntryId(NewEntry(name, id)) == id && EntryName(NewEntry(name, id)) == Visible(name)
    ensures Readable(NewEntry(name, id)) <==> |name| <= NAME_LENGTH_LIMIT || !NoNul(name)
    ensures Readable(NewEntry(name, id)) && EntryName(NewEntry(name, id)) == name <==> Storing(name)
  {
    hide NewEntry, NameLength, EntryId, NoNul, Visible, Utf8;
    EntryParts(name, id);
    EntryLength(name, id);
    VisibleWhole(name);
    VisibleIsUtf8(name);
  }

  /** The number is kept, and the name field starts with the name. */
  lemma EntryParts(name: Name, id: nat)
    requires Fits(name) && id < U32_LIMIT
    ensures EntryId(NewEntry(name, id)) == id && NewEntry(name, id)[..|name|] == name
    ensures |name| < NAME_FIELD ==> NewEntry(name, id)[|name|] == 0
  {
    BytesOfWord(id);
    assert NewEntry(name, id)[28..] == LittleEndian(id);
  }

  /** The scan stops at the first NUL of the name, or right after it. */
  lemma EntryLength(name: Name, id: nat)
    requires Fits(name) && id < U32_LIMIT
    ensures NameLength(NewEntry(name, id), 0) == |Visible(name)|
  {
    hide NewEntry, NameLength, EntryId, Visible;
    EntryParts(name, id);
    var e := NewEntry(name, id);
    var n := NameLength(e, 0);
    assert forall k | 0 <= k < |name| :: e[k] == e[..|name|][k] == name[k];
    VisibleOf(name, e[..n]);
  }

  lemma VisibleWhole(name: Name)
    ensures Visible(name) == name <==> NoNul(name)
  {
  }

  /** A 28-byte name is written, and its entry cannot be read. */
  lemma FullNameUnreadable(id: nat)
    requires id < U32_LIMIT
    ensures var name := seq<Byte>(NAME_FIELD, _ => 97); Fits(name) && !Readable(NewEntry(name, id))
  {
    var name := seq<Byte>(NAME_FIELD, _ => 97);
    AsciiIsUtf8(name);
    EntryRoundTrip(name, id);
  }

  // ---------- a directory as a list of entries ----------

  function Count(f: seq<Byte>): (n: nat)
    ensures DIRENT_SZ * n <= |f| < DIRENT_SZ * n + DIRENT_SZ
  {
    |f| / DIRENT_SZ
  }

  function EntryAt(f: seq<Byte>, i: nat): (e: seq<Byte>)
    requires i < Count(f)
    ensures |e| == DIRENT_SZ
  {
    f[DIRENT_SZ * i..DIRENT_SZ * i + DIRENT_SZ]
  }

  function Names(f: seq<Byte>): (names: seq<Name>)
    ensures |names| == Count(f)
  {
    seq(Count(f), i requires 0 <= i < Count(f) => EntryName(EntryAt(f, i)))
  }

  function Ids(f: seq<Byte>): (ids: seq<nat>)
    ensures |ids| == Count(f)
  {
    seq<nat>(Count(f), i requires 0 <= i < Count(f) => EntryId(EntryAt(f, i)))
  }

  /** No entry on whose name `name()` panics. */
  ghost predicate DirOk(f: seq<Byte>) {
    forall i | 0 <= i < Count(f) :: Readable(EntryAt(f, i))
  }

  ghost predicate DistinctNames(f: seq<Byte>) {
    forall i, j | 0 <= i < j < Count(f) :: Names(f)[i] != Names(f)[j]
  }

  /** The position of the first entry called `name`; the number of entries if there is none. */
  function FirstMatch(names: seq<Name>, name: Name): (i: nat)
    ensures i <= |names| && (i < |names| ==> names[i] == name) && (i == |names| <==> name !in names)
    ensures forall j | 0 <= j < i :: names[j] != name
  {
    if names == [] || names[0] == name then 0
    else
      var i := FirstMatch(names[1..], name);
      assert forall j | 0 < j < |names| :: names[j] == names[1..][j - 1];
      1 + i
  }

  /** The inode bound to `name`: that of the first entry called so. */
  function Bound(names: seq<Name>, ids: seq<nat>, name: Name): (r: Option<nat>)
    requires |names| == |ids|
    ensures r.None? <==> name !in names
  {
    var i := FirstMatch(names, name);
    if i < |names| then Some(ids[i]) else None
  }

  /** The scan for `name` reads no entry on whose name `name()` panics. */
  ghost predicate Scannable(f: seq<Byte>, name: Name) {
    forall i | 0 <= i < Count(f) && i <= FirstMatch(Names(f), name) :: Readable(EntryAt(f, i))
  }

  lemma ScannableExactly(f: seq<Byte>, name: Name)
    ensures DirOk(f) ==> Scannable(f, name)
    ensures name !in Names(f) && Scannable(f, name) ==> DirOk(f)
  {
    hide Names, Readable, EntryAt;
  }

  /** The directory with one more entry: after the last whole one. */
  function WithEntry(f: seq<Byte>, e: seq<Byte>): (g: seq<Byte>)
    requires |e| == DIRENT_SZ
    ensures |g| == DIRENT_SZ * (Count(f) + 1)
  {
    f[..DIRENT_SZ * Count(f)] + e
  }

  /** The directory as a partial map from names to inode numbers. */
  ghost predicate Binds(f: seq<Byte>, name: Name, id: nat) {
    exists i | 0 <= i < Count(f) :: Names(f)[i] == name && Ids(f)[i] == id
  }

  lemma BindsUnique(f: seq<Byte>, name: Name, a: nat, b: nat)
    requires DistinctNames(f) && Binds(f, name, a) && Binds(f, name, b)
    ensures a == b
  {
    var i :| 0 <= i < Count(f) && Names(f)[i] == name && Ids(f)[i] == a;
    var j :| 0 <= j < Count(f) && Names(f)[j] == name && Ids(f)[j] == b;
  }

  lemma EntryAtAppended(f: seq<Byte>, e: seq<Byte>, i: nat)
    requires |e| == DIRENT_SZ && i <= Count(f)
    ensures Count(WithEntry(f, e)) == Count(f) + 1
    ensures EntryAt(WithEntry(f, e), i) == if i == Count(f) then e else EntryAt(f, i)
  {
    var n, g := Count(f), WithEntry(f, e);
    if i == n {
      assert g[DIRENT_SZ * n..] == e;
    } else {
      assert DIRENT_SZ * i + DIRENT_SZ <= DIRENT_SZ * n;
      assert g[DIRENT_SZ * i..DIRENT_SZ * i + DIRENT_SZ] == f[DIRENT_SZ * i..DIRENT_SZ * i + DIRENT_SZ];
    }
  }

  /** Names whose entries can be read. */
  predicate Legible(name: Name) {
    |name| <= NAME_LENGTH_LIMIT || !NoNul(name)
  }

  /** Appending an entry extends the list. The directory stays readable exactly when that entry can be read, and its
      names stay distinct exactly when the name up to the first NUL is new. */
  lemma AppendedExactly(f: seq<Byte>, name: Name, id: nat)
    requires Fits(name) && id < U32_LIMIT
    ensures var g := WithEntry(f, NewEntry(name, id));
            && Count(g) == Count(f) + 1 && Names(g) == Names(f) + [Visible(name)] && Ids(g) == Ids(f) + [id]
            && (DirOk(g) <==> DirOk(f) && Legible(name))
            && (DistinctNames(g) <==> DistinctNames(f) && Visible(name) !in Names(f))
  {
    hide NewEntry, EntryName, EntryId, Names, Ids, DirOk, DistinctNames, Visible, NoNul, Readable, WithEntry;
    EntryRoundTrip(name, id);
    var e := NewEntry(name, id);
    EntriesAppended(f, e);
    AppendedReadable(f, WithEntry(f, e), e);
    AppendedDistinct(f, WithEntry(f, e), Visible(name));
  }

  lemma EntriesAppended(f: seq<Byte>, e: seq<Byte>)
    requires |e| == DIRENT_SZ
    ensures var g := WithEntry(f, e);
            && Count(g) == Count(f) + 1 && Names(g) == Names(f) + [EntryName(e)] && Ids(g) == Ids(f) + [EntryId(e)]
            && forall i | 0 <= i < Count(g) :: EntryAt(g, i) == if i == Count(f) then e else EntryAt(f, i)
  {
    hide EntryName, EntryId, EntryAt, WithEntry;
    var g := WithEntry(f, e);
    EntryAtAppended(f, e, Count(f));
    forall i | 0 <= i < Count(g) ensures EntryAt(g, i) == if i == Count(f) then e else EntryAt(f, i) {
      EntryAtAppended(f, e, i);
    }
    assert Names(g) == Names(f) + [EntryName(e)];
    assert Ids(g) == Ids(f) + [EntryId(e)];
  }

  lemma AppendedReadable(f: seq<Byte>, g: seq<Byte>, e: seq<Byte>)
    requires |e| == DIRENT_SZ && Count(g) == Count(f) + 1
    requires forall i | 0 <= i < Count(g) :: EntryAt(g, i) == if i == Count(f) then e else EntryAt(f, i)
    ensures DirOk(g) <==> DirOk(f) && Readable(e)
  {
    hide Readable, EntryAt;
    if DirOk(g) {
      assert Readable(EntryAt(g, Count(f)));
      forall i | 0 <= i < Count(f) ensures Readable(EntryAt(f, i)) { assert Readable(EntryAt(g, i)); }
    }
  }

  lemma AppendedDistinct(f: seq<Byte>, g: seq<Byte>, v: Name)
    requires Count(g) == Count(f) + 1 && Names(g) == Names(f) + [v]
    ensures DistinctNames(g) <==> DistinctNames(f) && v !in Names(f)
  {
    hide Names;
    var n := Count(f);
    assert Names(g)[n] == v && forall i | 0 <= i < n :: Names(g)[i] == Names(f)[i];
    if DistinctNames(g) {
      forall i | 0 <= i < n ensures Names(f)[i] != v { assert Names(g)[i] != Names(g)[n]; }
    }
  }

  /** Appending an entry keeps every binding and adds one. */
  lemma Appended(f: seq<Byte>, name: Name, id: nat)
    requires Fits(name) && id < U32_LIMIT
    ensures var g := WithEntry(f, NewEntry(name, id));
            Binds(g, Visible(name), id) && forall n, k | Binds(f, n, k) :: Binds(g, n, k)
  {
    hide NewEntry, DirOk, DistinctNames, Names, Ids, Visible, WithEntry;
    AppendedExactly(f, name, id);
    var g := WithEntry(f, NewEntry(name, id));
    forall n, k | Binds(f, n, k) ensures Binds(g, n, k) {
      var i :| 0 <= i < Count(f) && Names(f)[i] == n && Ids(f)[i] == k;
      assert Names(g)[i] == n && Ids(g)[i] == k;
    }
    assert Names(g)[Count(f)] == Visible(name) && Ids(g)[Count(f)] == id;
  }

  // ---------- vfs operations on a directory ----------

  /** A vfs `Inode` handle. */
  class Inode {
    const fs: EasyFileSystem
    const id: nat

    constructor (fs: EasyFileSystem, id: nat)
      ensures this.fs == fs && this.id == id
    {
      this.fs, this.id := fs, id;
    }

    ghost predicate InUse()
      reads this, fs, fs.cache
    {
      fs.Valid() && id < fs.g.InodeCount() && id in fs.Live()
    }

    ghost predicate IsDirectory()
      reads this, fs, fs.cache
    {
      InUse() && fs.IsDir(id)
    }

    ghost function File(): (f: seq<Byte>)
      requires InUse()
      reads this, fs, fs.cache
    {
      fs.View()[id]
    }

    /** Reads entry `i` into a `DirEntry`; the length assertion of the source is the first postcondition. */
    method ReadEntry(i: nat, buf: array<Byte>) returns (n: nat)
      requires InUse() && i < Count(File()) && buf.Length == DIRENT_SZ
      modifies buf, fs.cache`device, fs.cache`copies, fs.cache`queue, fs.cache`detached
      ensures InUse() && File() == old(File()) && n == DIRENT_SZ
      ensures buf[..] == EntryAt(File(), i)
    {
      hide FsOk, FilesOf, Inodes, UsedInodes, QueueOk, Coherent, Pinned, Formatted;
      n := fs.ReadAt(id, DIRENT_SZ * i, buf);
    }

    /** `DirEntry::name`, which must not run off the field. */
    method NameOf(buf: array<Byte>) returns (name: Name)
      requires buf.Length == DIRENT_SZ && Readable(buf[..])
      ensures name == EntryName(buf[..]) && Utf8(name)
    {
      var len := 0;
      while buf[len] != 0
        invariant len <= NameLength(buf[..], 0)
        decreases NAME_FIELD - len
      {
        len := len + 1;
      }
      name := buf[..len];
    }

    /** `find_inode_id` / `find`: the inode of the first entry called `name`, if any. */
    method Find(name: Name) returns (r: Option<nat>)
      requires IsDirectory() && Scannable(File(), name)
      modifies fs.cache`device, fs.cache`copies, fs.cache`queue, fs.cache`detached
      ensures IsDirectory() && File() == old(File()) && fs.View() == old(fs.View()) && fs.Live() == old(fs.Live())
      ensures fs.cache.logical == old(fs.cache.logical)
      ensures r == Bound(Names(File()), Ids(File()), name)
    {
      hide FsOk, FilesOf, Inodes, UsedInodes, QueueOk, Coherent, Pinned, Formatted, EntryName, EntryId, EntryAt, Readable;
      ghost var f := File();
      var buf := new Byte[DIRENT_SZ](_ => 0);
      var count := FileCount();
      var i := 0;
      while i < count
        invariant i <= count && IsDirectory() && File() == f && fs.cache.logical == old(fs.cache.logical)
        invariant i <= FirstMatch(Names(f), name)
      {
        var n := ReadEntry(i, buf);
        assert Names(f)[i] == EntryName(buf[..]) && Ids(f)[i] == EntryId(buf[..]);
        var entry := NameOf(buf);
        if entry == name {
          return Some(EntryId(buf[..]));
        }
        i := i + 1;
      }
      r := None;
    }

    /** The number of entries, from the size in the inode record. */
    method FileCount() returns (count: nat)
      requires InUse()
      modifies fs.cache`device, fs.cache`copies, fs.cache`queue, fs.cache`detached
      ensures InUse() && File() == old(File()) && count == Count(File())
    {
      hide Inv, Used, UsedInodes, QueueOk, Coherent, Pinned, Contents;
      var ino := fs.LoadInode(id);
      count := ino.size / DIRENT_SZ;
    }

    /** `ls`: all names, in the order of their entries. */
    method Ls() returns (v: seq<Name>)
      requires InUse() && DirOk(File())
      modifies fs.cache`device, fs.cache`copies, fs.cache`queue, fs.cache`detached
      ensures InUse() && File() == old(File()) && v == Names(File())
      ensures fs.cache.logical == old(fs.cache.logical)
    {
      hide FsOk, FilesOf, Inodes, UsedInodes, QueueOk, Coherent, Pinned, Formatted, EntryName, EntryAt, Readable;
      ghost var f := File();
      var buf := new Byte[DIRENT_SZ](_ => 0);
      var count := FileCount();
      v := [];
      while |v| < count
        invariant |v| <= count && InUse() && File() == f && fs.cache.logical == old(fs.cache.logical)
        invariant v == Names(f)[..|v|]
      {
        var n := ReadEntry(|v|, buf);
        assert Names(f)[|v|] == EntryName(buf[..]);
        var entry := NameOf(buf);
        v := v + [entry];
      }
    }

    /** What `create` needs to add more entries. */
    ghost predicate HasRoom(entries: nat)
      requires InUse()
      reads this, fs, fs.cache
    {
      var size := DIRENT_SZ * (Count(File()) + entries);
      && fs.g.InodeCount() <= U32_LIMIT && |fs.Live()| + entries <= fs.g.InodeCount()
      && size <= MAX_SIZE && BlocksNeeded(|File()|, size) <= fs.FreeBlocks()
    }

    /** `create` and `create_dir`: a name already present returns `None` and changes nothing; a new one gets the
        lowest free inode, an empty file and one entry at the end of the directory, which stays readable exactly when
        that entry can be read. */
    method Create(name: Name, isDir: bool) returns (r: Option<nat>)
      requires IsDirectory() && Scannable(File(), name)
      requires name !in Names(File()) ==> Fits(name) && HasRoom(1)
      modifies fs.cache
      ensures IsDirectory()
      ensures r.None? <==> name in old(Names(File()))
      ensures r.None? ==> fs.View() == old(fs.View()) && fs.Live() == old(fs.Live()) && fs.FreeBlocks() == old(fs.FreeBlocks())
      ensures forall j | 0 <= j < fs.g.InodeCount() && r != Some(j) :: fs.IsDir(j) == old(fs.IsDir(j))
      ensures r.Some? ==>
                && (forall j | 0 <= j < r.value :: j in old(fs.Live()))
                && r.value !in old(fs.Live()) && fs.Live() == old(fs.Live()) + {r.value}
                && r.value < fs.g.InodeCount() <= U32_LIMIT && fs.IsDir(r.value) == isDir && fs.View()[r.value] == []
                && Fits(name) && fs.View() == old(fs.View())[id := WithEntry(old(File()), NewEntry(name, r.value))]
                && fs.FreeBlocks() == old(fs.FreeBlocks()) - BlocksNeeded(|old(File())|, |File()|)
                && (DirOk(File()) <==> Legible(name))
    {
      hide FsOk, FilesOf, Inodes, UsedInodes, Used, QueueOk, Coherent, Pinned, DirOk, Formatted, NewEntry, BlocksNeeded, Visible,
        NoNul, Scannable, Names, Ids, WithEntry, DistinctNames, Fits, Utf8;
      var found := Find(name);
      if found.Some? { return None; }
      ScannableExactly(File(), name);
      var new_ := NewInode(isDir);
      AppendEntry(NewEntry(name, new_));
      AppendedExactly(old(File()), name, new_);
      r := Some(new_);
    }

    /** Grows the directory by one entry and writes it. */
    method AppendEntry(e: seq<Byte>)
      requires IsDirectory() && |e| == DIRENT_SZ
      requires var size := DIRENT_SZ * (Count(File()) + 1);
               size <= MAX_SIZE && BlocksNeeded(|File()|, size) <= fs.FreeBlocks()
      modifies fs.cache
      ensures IsDirectory() && fs.Live() == old(fs.Live())
      ensures forall j | 0 <= j < fs.g.InodeCount() :: fs.IsDir(j) == old(fs.IsDir(j))
      ensures fs.View() == old(fs.View())[id := WithEntry(old(File()), e)]
      ensures fs.FreeBlocks() == old(fs.FreeBlocks()) - BlocksNeeded(|old(File())|, DIRENT_SZ * (Count(old(File())) + 1))
    {
      hide FsOk, FilesOf, Inodes, UsedInodes, Used, QueueOk, Coherent, Pinned, Formatted, BlocksNeeded, FileWrite, SumTotal;
      ghost var f := File();
      ghost var files := fs.View();
      var count := FileCount();
      ghost var size := DIRENT_SZ * (Count(f) + 1);
      ConservationOf(fs);
      var n := fs.WriteAt(id, count * DIRENT_SZ, e);
      AppendAsWrite(f, e);
      ConservationOf(fs);
      SumTotalUpdate(Sizes(files), id, size);
      assert Sizes(fs.View()) == Sizes(files)[id := size];
      NeededIsTotal(|f|, size);
    }

    /** Allocates and initializes the inode of the new file. */
    method NewInode(isDir: bool) returns (i: nat)
      requires IsDirectory() && |fs.Live()| < fs.g.InodeCount()
      modifies fs.cache
      ensures IsDirectory() && File() == old(File()) && fs.View() == old(fs.View())
      ensures i < fs.g.InodeCount() && i !in old(fs.Live()) && fs.Live() == old(fs.Live()) + {i}
      ensures forall j | 0 <= j < i :: j in old(fs.Live())
      ensures forall j | 0 <= j < fs.g.InodeCount() && j != i :: fs.IsDir(j) == old(fs.IsDir(j))
      ensures fs.IsDir(i) == isDir && fs.View()[i] == [] && fs.FreeBlocks() == old(fs.FreeBlocks())
    {
      hide Inv, Inodes, UsedInodes, Used, QueueOk, Coherent, Pinned, Opened, Contents;
      UnusedIsEmpty();
      i := fs.AllocInode();
      fs.InitInode(i, isDir);
    }

    lemma UnusedIsEmpty()
      requires fs.Valid()
      ensures forall i | 0 <= i < fs.g.InodeCount() && i !in fs.Live() :: fs.View()[i] == []
    {
      hide Inv, Used, UsedInodes, QueueOk, Coherent, Pinned, Opened, Inodes;
    }
  }

  lemma AppendAsWrite(f: seq<Byte>, e: seq<Byte>)
    requires |e| == DIRENT_SZ
    ensures FileWrite(f, Count(f) * DIRENT_SZ, e) == WithEntry(f, e)
  {
  }

  lemma {:induction false} SumTotalUpdate(sizes: seq<nat>, i: nat, n: nat)
    requires i < |sizes|
    ensures SumTotal(sizes[i := n]) == SumTotal(sizes) - TotalBlocks(sizes[i]) + TotalBlocks(n)
  {
    hide TotalBlocks;
    var last := |sizes| - 1;
    if i == last {
      assert sizes[i := n][..last] == sizes[..last];
    } else {
      SumTotalUpdate(sizes[..last], i, n);
      assert sizes[i := n][..last] == sizes[..last][i := n];
    }
  }

  lemma NeededIsTotal(size: nat, newSize: nat)
    requires size <= newSize
    ensures BlocksNeeded(size, newSize) == TotalBlocks(newSize) - TotalBlocks(size)
  {
  }

  // ---------- runs of create ----------

  /** The names after creating `names` in order: those not present yet, up to their first NUL, in creation order. */
  function CreateAll(present: seq<Name>, names: seq<Name>): (r: seq<Name>)
    decreases |names|
  {
    if names == [] then present
    else CreateAll(if names[0] in present then present else present + [Visible(names[0])], names[1..])
  }

  /** Over every run of `create`/`create_dir` on one directory, `ls` lists the names of the successful calls in
      creation order, a call succeeds exactly for a name not yet present, and every entry made stays. A name whose
      entry cannot be read can only be the last. */
  method CreateMany(dir: Inode, names: seq<Name>, kinds: seq<bool>) returns (results: seq<Option<nat>>)
    requires dir.IsDirectory() && DirOk(dir.File()) && |kinds| == |names| && dir.HasRoom(|names|)
    requires forall k | 0 <= k < |names| :: Fits(names[k])
    requires forall k | 0 <= k < |names| - 1 :: Legible(names[k])
    modifies dir.fs.cache
    ensures dir.IsDirectory() && |results| == |names|
    ensures DirOk(dir.File()) <==> names == [] || Legible(names[|names| - 1])
    ensures Names(dir.File()) == CreateAll(old(Names(dir.File())), names)
    ensures forall k | 0 <= k < |names| :: results[k].Some? <==> names[k] !in CreateAll(old(Names(dir.File())), names[..k])
    ensures forall k | 0 <= k < |names| && results[k].Some? :: Binds(dir.File(), Visible(names[k]), results[k].value)
    ensures forall n, i | Binds(old(dir.File()), n, i) :: Binds(dir.File(), n, i)
    ensures OthersKept(dir.id, old(dir.fs.View()), old(dir.fs.Live()), dir.fs.View(), dir.fs.Live())
  {
    hide FsOk, FilesOf, UsedInodes, Used, QueueOk, Coherent, Pinned, DirOk, Formatted, Binds, Names, BlocksNeeded, CreateAll,
         SumTotal, Sizes, Inodes, Legible, Created, OthersKept, Visible, Fits, Utf8;
    ghost var f0 := dir.File();
    results := [];
    CreatedNone(f0, names);
    OthersRefl(dir.id, dir.fs.View(), dir.fs.Live());
    while |results| < |names|
      invariant |results| <= |names| && dir.IsDirectory()
      invariant DirOk(dir.File()) <==> results == [] || Legible(names[|results| - 1])
      invariant dir.HasRoom(|names| - |results|) && Created(f0, dir.File(), names, results)
      invariant OthersKept(dir.id, old(dir.fs.View()), old(dir.fs.Live()), dir.fs.View(), dir.fs.Live())
    {
      var k := |results|;
      ghost var f, files, live := dir.File(), dir.fs.View(), dir.fs.Live();
      var r := CreateNext(dir, names[k], kinds[k], |names| - k);
      CreatedStep(f0, f, dir.File(), names, results, r);
      OthersTrans(dir.id, old(dir.fs.View()), old(dir.fs.Live()), files, live, dir.fs.View(), dir.fs.Live());
      results := results + [r];
    }
    CreatedAll(f0, dir.File(), names, results);
  }

  /** Files other than `id` are unchanged, and nothing stops being live. */
  ghost predicate OthersKept(id: nat, files: seq<seq<Byte>>, live: set<nat>, files': seq<seq<Byte>>, live': set<nat>) {
    live <= live' && |files'| == |files| && forall j | 0 <= j < |files| && j != id :: files'[j] == files[j]
  }

  lemma OthersRefl(id: nat, files: seq<seq<Byte>>, live: set<nat>)
    ensures OthersKept(id, files, live, files, live)
  {
  }

  lemma OthersTrans(id: nat, a: seq<seq<Byte>>, al: set<nat>, b: seq<seq<Byte>>, bl: set<nat>, c: seq<seq<Byte>>, cl: set<nat>)
    requires OthersKept(id, a, al, b, bl) && OthersKept(id, b, bl, c, cl)
    ensures OthersKept(id, a, al, c, cl)
  {
  }

  /** Directory `f0` became `f` by creating the first names, with these results. */
  ghost predicate Created(f0: seq<Byte>, f: seq<Byte>, names: seq<Name>, results: seq<Option<nat>>)
    requires |results| <= |names|
  {
    && Names(f) == CreateAll(Names(f0), names[..|results|])
    && (forall k | 0 <= k < |results| :: results[k].Some? <==> names[k] !in CreateAll(Names(f0), names[..k]))
    && (forall k | 0 <= k < |results| && results[k].Some? :: Binds(f, Visible(names[k]), results[k].value))
    && (forall n, i | Binds(f0, n, i) :: Binds(f, n, i))
  }

  lemma CreatedNone(f0: seq<Byte>, names: seq<Name>)
    ensures Created(f0, f0, names, [])
  {
    hide Binds, Names;
    assert names[..0] == [];
  }

  lemma CreatedStep(f0: seq<Byte>, f: seq<Byte>, g: seq<Byte>, names: seq<Name>, results: seq<Option<nat>>, r: Option<nat>)
    requires |results| < |names| && Created(f0, f, names, results)
    requires r.None? <==> names[|results|] in Names(f)
    requires Names(g) == if r.None? then Names(f) else Names(f) + [Visible(names[|results|])]
    requires r.Some? ==> Binds(g, Visible(names[|results|]), r.value)
    requires forall n, i | Binds(f, n, i) :: Binds(g, n, i)
    ensures Created(f0, g, names, results + [r])
  {
    hide Binds, Names, CreateAll;
    var k := |results|;
    CreateAllStep(Names(f0), names[..k], names[k]);
    assert names[..k + 1] == names[..k] + [names[k]];
  }

  lemma CreatedAll(f0: seq<Byte>, f: seq<Byte>, names: seq<Name>, results: seq<Option<nat>>)
    requires |results| == |names| && Created(f0, f, names, results)
    ensures Names(f) == CreateAll(Names(f0), names)
    ensures forall k | 0 <= k < |names| :: results[k].Some? <==> names[k] !in CreateAll(Names(f0), names[..k])
    ensures forall k | 0 <= k < |names| && results[k].Some? :: Binds(f, Visible(names[k]), results[k].value)
    ensures forall n, i | Binds(f0, n, i) :: Binds(f, n, i)
  {
    hide Binds, Names, CreateAll;
    assert names[..|names|] == names;
  }

  /** One round of `CreateMany`. */
  method CreateNext(dir: Inode, name: Name, kind: bool, ghost left: nat) returns (r: Option<nat>)
    requires dir.IsDirectory() && DirOk(dir.File()) && left > 0 && dir.HasRoom(left) && Fits(name)
    modifies dir.fs.cache
    ensures dir.IsDirectory() && dir.HasRoom(left - 1) && (DirOk(dir.File()) <==> Legible(name))
    ensures r.None? <==> name in old(Names(dir.File()))
    ensures Names(dir.File()) == if r.None? then old(Names(dir.File())) else old(Names(dir.File())) + [Visible(name)]
    ensures r.Some? ==> Binds(dir.File(), Visible(name), r.value)
    ensures forall n, i | Binds(old(dir.File()), n, i) :: Binds(dir.File(), n, i)
    ensures OthersKept(dir.id, old(dir.fs.View()), old(dir.fs.Live()), dir.fs.View(), dir.fs.Live())
  {
    hide FsOk, FilesOf, UsedInodes, Used, QueueOk, Coherent, Pinned, DirOk, Formatted, Binds, Names, NewEntry, BlocksNeeded, NoNul,
      Visible, WithEntry, Scannable, DistinctNames, Legible, Fits, Utf8;
    ghost var f := dir.File();
    RoomForOne(dir, left);
    ScannableExactly(f, name);
    r := dir.Create(name, kind);
    if r.Some? {
      AppendedExactly(f, name, r.value);
      Appended(f, name, r.value);
      NeededFrom(|f|, |dir.File()|, DIRENT_SZ * (Count(f) + left));
    } else {
      PresentIsLegible(f, name);
      NeededLess(|f|, DIRENT_SZ * (Count(f) + (left - 1)), DIRENT_SZ * (Count(f) + left));
    }
  }

  /** A name that was read is legible. */
  lemma PresentIsLegible(f: seq<Byte>, name: Name)
    requires DirOk(f) && name in Names(f)
    ensures Legible(name)
  {
    var i :| 0 <= i < Count(f) && Names(f)[i] == name;
    assert Readable(EntryAt(f, i));
  }

  lemma RoomForOne(dir: Inode, n: nat)
    requires dir.InUse() && n > 0 && dir.HasRoom(n)
    ensures dir.HasRoom(1)
  {
    hide FsOk, FilesOf, UsedInodes, Used, QueueOk, Coherent, Pinned, BlocksNeeded;
    NeededLess(|dir.File()|, DIRENT_SZ * (Count(dir.File()) + 1), DIRENT_SZ * (Count(dir.File()) + n));
  }

  lemma NeededLess(a: nat, b: nat, c: nat)
    requires b <= c
    ensures BlocksNeeded(a, b) <= BlocksNeeded(a, c)
  {
    if a <= b { NeededSplits(a, b, c); }
  }

  lemma NeededFrom(a: nat, b: nat, c: nat)
    requires a <= b <= c
    ensures BlocksNeeded(b, c) == BlocksNeeded(a, c) - BlocksNeeded(a, b)
  {
    NeededSplits(a, b, c);
  }

  lemma NeededSplits(a: nat, b: nat, c: nat)
    requires a <= b <= c
    ensures BlocksNeeded(a, c) == BlocksNeeded(a, b) + BlocksNeeded(b, c)
  {
  }

  lemma {:induction false} CreateAllStep(present: seq<Name>, names: seq<Name>, name: Name)
    ensures var before := CreateAll(present, names);
            CreateAll(present, names + [name]) == if name in before then before else before + [Visible(name)]
    decreases |names|
  {
    if names != [] {
      var next := if names[0] in present then present else present + [Visible(names[0])];
      CreateAllStep(next, names[1..], name);
      assert (names + [name])[1..] == names[1..] + [name];
    }
  }
}
