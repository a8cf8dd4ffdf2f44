/** Which file owns which block: the invariant that makes every inode an independent byte sequence. */
module Ownership {
  import opened Collections
  import opened Blocks
  import opened Layout
  import opened Efs

  ghost predicate InArea(g: Geometry, id: nat) {
    g.DataAreaStart() <= id < g.totalBlocks
  }

  /** The blocks of one file. */
  ghost function OwnSet(ino: Inode, d: Disk): (s: set<nat>)
    requires Shaped(ino)
  {
    Elems(Owned(ino, d))
  }

  /** Bytes past the end of the file, in its last block, are zero, and so are the pointers it does not use. */
  ghost predicate SlackZero(ino: Inode, d: Disk)
    requires Shaped(ino)
  {
    && Tidy(ino, d)
    && forall b | ino.size <= b < BLOCK_SZ * DataBlocks(ino.size) :: Flat(ino, d)[b] == 0
  }

  ghost predicate AllTrees(inodes: seq<Inode>, d: Disk) {
    forall i | 0 <= i < |inodes| :: Shaped(inodes[i]) && Tree(inodes[i], d) && SlackZero(inodes[i], d)
  }

  /** No block belongs to two files. */
  ghost predicate Exclusive(inodes: seq<Inode>, d: Disk)
    requires AllTrees(inodes, d)
  {
    forall i, j | 0 <= i < j < |inodes| :: OwnSet(inodes[i], d) !! OwnSet(inodes[j], d)
  }

  /** The allocated blocks are exactly the blocks of the files. */
  ghost predicate Accounted(inodes: seq<Inode>, used: set<nat>, d: Disk)
    requires AllTrees(inodes, d)
  {
    && (forall i | 0 <= i < |inodes| :: OwnSet(inodes[i], d) <= used)
    && (forall id | id in used :: exists i | 0 <= i < |inodes| :: id in OwnSet(inodes[i], d))
  }

  ghost predicate FreeZero(g: Geometry, used: set<nat>, d: Disk) {
    && (forall id | id in used :: InArea(g, id))
    && (forall id | id in d && InArea(g, id) && id !in used :: d[id] == ZeroBlock)
  }

  /** The file-system invariant, over the inode table, the allocated blocks and the disk. */
  ghost predicate Inv(g: Geometry, inodes: seq<Inode>, used: set<nat>, d: Disk) {
    && Formatted(g, d)
    && AllTrees(inodes, d)
    && Exclusive(inodes, d)
    && Accounted(inodes, used, d)
    && FreeZero(g, used, d)
  }

  /** Every inode as a byte sequence. */
  ghost function Files(inodes: seq<Inode>, d: Disk): (files: seq<seq<Byte>>)
    requires AllTrees(inodes, d)
    ensures |files| == |inodes|
    ensures forall i | 0 <= i < |inodes| :: files[i] == Contents(inodes[i], d)
  {
    seq(|inodes|, i requires 0 <= i < |inodes| => Contents(inodes[i], d))
  }

  // ---------- conservation ----------

  function SumTotal(sizes: seq<nat>): (n: nat) {
    if sizes == [] then 0 else SumTotal(sizes[..|sizes| - 1]) + TotalBlocks(sizes[|sizes| - 1])
  }

  function Sizes(files: seq<seq<Byte>>): (s: seq<nat>)
    ensures |s| == |files|
    ensures forall i | 0 <= i < |s| :: s[i] == |files[i]|
  {
    seq<nat>(|files|, i requires 0 <= i < |files| => |files[i]|)
  }

  ghost function OwnedUpTo(inodes: seq<Inode>, d: Disk, n: nat): (s: set<nat>)
    requires AllTrees(inodes, d) && n <= |inodes|
  {
    set i, id | 0 <= i < n && id in OwnSet(inodes[i], d) :: id
  }

  lemma {:induction false} CountOwned(inodes: seq<Inode>, d: Disk, n: nat)
    requires AllTrees(inodes, d) && Exclusive(inodes, d) && n <= |inodes|
    ensures |OwnedUpTo(inodes, d, n)| == SumTotal(Sizes(Files(inodes, d))[..n])
  {
    hide Tree, SlackZero, OwnSet, Contents, TotalBlocks, OwnedUpTo, Exclusive;
    var sizes := Sizes(Files(inodes, d));
    if n == 0 {
      NoneOwned(inodes, d);
    } else {
      CountOwned(inodes, d, n - 1);
      OneMoreOwner(inodes, d, n - 1);
      OwnSetSize(inodes[n - 1], d);
      assert sizes[..n][..n - 1] == sizes[..n - 1];
    }
  }

  lemma NoneOwned(inodes: seq<Inode>, d: Disk)
    requires AllTrees(inodes, d)
    ensures OwnedUpTo(inodes, d, 0) == {}
  {
  }

  lemma OneMoreOwner(inodes: seq<Inode>, d: Disk, n: nat)
    requires AllTrees(inodes, d) && Exclusive(inodes, d) && n < |inodes|
    ensures |OwnedUpTo(inodes, d, n + 1)| == |OwnedUpTo(inodes, d, n)| + |OwnSet(inodes[n], d)|
  {
    hide Tree, SlackZero, OwnSet;
    var a, b := OwnedUpTo(inodes, d, n), OwnSet(inodes[n], d);
    assert OwnedUpTo(inodes, d, n + 1) == a + b;
    assert a !! b;
  }

  lemma OwnSetSize(ino: Inode, d: Disk)
    requires Tree(ino, d)
    ensures |OwnSet(ino, d)| == TotalBlocks(ino.size)
  {
    DistinctSize(Owned(ino, d));
  }

  /** The number of set bits is the sum of `total_blocks` over all inodes. */
  lemma Conservation(g: Geometry, inodes: seq<Inode>, used: set<nat>, d: Disk)
    requires Inv(g, inodes, used, d)
    ensures |used| == SumTotal(Sizes(Files(inodes, d)))
  {
    hide Tree, SlackZero, Owned, Contents;
    CountOwned(inodes, d, |inodes|);
    var sizes := Sizes(Files(inodes, d));
    assert sizes[..|inodes|] == sizes;
    assert OwnedUpTo(inodes, d, |inodes|) == used;
  }

  // ---------- frames ----------

  lemma FlatFrame(ino: Inode, d: Disk, e: Disk)
    requires Tree(ino, d)
    requires forall id | id in OwnSet(ino, d) :: id in d && id in e && e[id] == d[id]
    ensures Tree(ino, e) && Owned(ino, e) == Owned(ino, d) && Flat(ino, e) == Flat(ino, d)
  {
    hide SlotId;
    var own := Owned(ino, d);
    forall q | 0 <= q < |own| ensures own[q] in e && e[own[q]] == d[own[q]] {
      assert own[q] in OwnSet(ino, d);
    }
    OwnedFrame(ino, d, e);
    forall i | 0 <= i < |Flat(ino, d)| ensures Flat(ino, e)[i] == Flat(ino, d)[i] {
      TotalForMonotone(i / BLOCK_SZ + 1, DataBlocks(ino.size));
    }
  }

  /** A file none of whose blocks changed is unchanged. */
  lemma FileFrame(ino: Inode, d: Disk, e: Disk)
    requires Tree(ino, d) && SlackZero(ino, d)
    requires forall id | id in OwnSet(ino, d) :: id in d && id in e && e[id] == d[id]
    ensures Tree(ino, e) && SlackZero(ino, e)
    ensures OwnSet(ino, e) == OwnSet(ino, d) && Contents(ino, e) == Contents(ino, d)
  {
    hide Tree, Owned, Flat, Tidy;
    TreeShaped(ino, d);
    FlatFrame(ino, d, e);
    forall q | 0 <= q < |Owned(ino, d)| && IsPtr(q) ensures BlockAt(e, Owned(ino, d)[q]) == BlockAt(d, Owned(ino, d)[q]) {
      assert Owned(ino, d)[q] in OwnSet(ino, d);
    }
    TidyFrame(ino, d, e);
  }

  /** Changes outside the data area change no file. */
  lemma AreaFrame(g: Geometry, inodes: seq<Inode>, used: set<nat>, d: Disk, e: Disk)
    requires Inv(g, inodes, used, d) && Formatted(g, e) && SameRegion(d, e, g.DataAreaStart(), g.totalBlocks)
    ensures Inv(g, inodes, used, e) && Files(inodes, e) == Files(inodes, d)
  {
    hide Tree, SlackZero, OwnSet, Contents;
    forall i | 0 <= i < |inodes|
      ensures Tree(inodes[i], e) && SlackZero(inodes[i], e)
      ensures OwnSet(inodes[i], e) == OwnSet(inodes[i], d) && Contents(inodes[i], e) == Contents(inodes[i], d)
    {
      TreeShaped(inodes[i], d);
      forall id | id in OwnSet(inodes[i], d) ensures id in d && id in e && e[id] == d[id] {
        assert InArea(g, id);
      }
      FileFrame(inodes[i], d, e);
    }
  }

  // ---------- steps ----------

  /** Replacing one file, with all its blocks, keeps the invariant and every other file. */
  lemma ReplaceFile(g: Geometry, inodes: seq<Inode>, used: set<nat>, d: Disk,
                    i: nat, ino: Inode, used': set<nat>, e: Disk)
    requires Inv(g, inodes, used, d) && i < |inodes|
    requires Formatted(g, e) && Shaped(ino) && Tree(ino, e) && SlackZero(ino, e)
    requires forall id | id in used && id !in OwnSet(inodes[i], d) :: id in d && id in e && e[id] == d[id]
    requires OwnSet(ino, e) !! used - OwnSet(inodes[i], d)
    requires used' == used - OwnSet(inodes[i], d) + OwnSet(ino, e)
    requires FreeZero(g, used', e)
    ensures Inv(g, inodes[i := ino], used', e)
    ensures Files(inodes[i := ino], e) == Files(inodes, d)[i := Contents(ino, e)]
  {
    hide Tree, SlackZero, OwnSet, Contents, FreeZero, Formatted;
    var inodes' := inodes[i := ino];
    forall j | 0 <= j < |inodes| && j != i
      ensures Tree(inodes[j], e) && SlackZero(inodes[j], e)
      ensures OwnSet(inodes[j], e) == OwnSet(inodes[j], d) && Contents(inodes[j], e) == Contents(inodes[j], d)
    {
      assert OwnSet(inodes[j], d) !! OwnSet(inodes[i], d);
      FileFrame(inodes[j], d, e);
    }
    forall id | id in used' ensures exists j | 0 <= j < |inodes'| :: id in OwnSet(inodes'[j], e) {
      if id in OwnSet(ino, e) {
        assert inodes'[i] == ino;
      } else {
        var j :| 0 <= j < |inodes| && id in OwnSet(inodes[j], d);
        assert inodes'[j] == inodes[j];
      }
    }
  }

  /** The file after `increase_size`: its old bytes, slack included, followed by zeros. */
  lemma GrownFlat(ino: Inode, d: Disk, ino': Inode, e: Disk, v: seq<nat>)
    requires Tree(ino, d) && Tree(ino', e) && ino.size <= ino'.size
    requires Owned(ino', e) == Owned(ino, d) + v
    requires Grown(ino', d, e, Owned(ino', e), |Owned(ino', e)|)
    requires forall k | 0 <= k < |v| :: v[k] in d && d[v[k]] == ZeroBlock
    ensures Flat(ino', e) == Flat(ino, d) + ZeroBytes(|Flat(ino', e)| - |Flat(ino, d)|)
  {
    hide Tree, Owned, Flat, Grown;
    TreeShaped(ino, d);
    TreeShaped(ino', e);
    forall i | 0 <= i < |Flat(ino', e)|
      ensures Flat(ino', e)[i] == (Flat(ino, d) + ZeroBytes(|Flat(ino', e)| - |Flat(ino, d)|))[i]
    {
      GrownBlock(ino, d, ino', e, v, i / BLOCK_SZ);
      FlatAt(ino', e, i);
      if i < |Flat(ino, d)| { FlatAt(ino, d, i); }
    }
  }

  lemma GrownBlock(ino: Inode, d: Disk, ino': Inode, e: Disk, v: seq<nat>, k: nat)
    requires Tree(ino, d) && Tree(ino', e) && ino.size <= ino'.size && k < DataBlocks(ino'.size)
    requires Owned(ino', e) == Owned(ino, d) + v
    requires Grown(ino', d, e, Owned(ino', e), |Owned(ino', e)|)
    requires forall k | 0 <= k < |v| :: v[k] in d && d[v[k]] == ZeroBlock
    ensures var id := DataId(ino', e, k);
            && id in d && id in e && e[id] == d[id]
            && (if k < DataBlocks(ino.size) then id == DataId(ino, d, k) else d[id] == ZeroBlock)
  {
    hide SlotId;
    var p, all := DataPos(k), Owned(ino', e);
    TotalForMonotone(k + 1, DataBlocks(ino'.size));
    var id := all[p];
    assert !exists q | 0 <= q < |all| :: IsPtr(q) && all[q] == id;
    if k < DataBlocks(ino.size) {
      TotalForMonotone(k + 1, DataBlocks(ino.size));
    } else {
      TotalForMonotone(DataBlocks(ino.size), k);
      assert id == v[p - |Owned(ino, d)|];
    }
  }

  /** `increase_size` with freshly allocated blocks appends zeros to the file. */
  lemma GrowFile(g: Geometry, inodes: seq<Inode>, used: set<nat>, d: Disk, i: nat, ino: Inode, v: seq<nat>, e: Disk)
    requires Inv(g, inodes, used, d) && i < |inodes|
    requires Shaped(ino) && Tree(ino, e) && inodes[i].size <= ino.size
    requires Owned(ino, e) == Owned(inodes[i], d) + v && FieldsKept(inodes[i], ino)
    requires Grown(ino, d, e, Owned(ino, e), |Owned(ino, e)|)
    requires forall k | 0 <= k < |v| :: v[k] in d && InArea(g, v[k]) && v[k] !in used
    ensures Inv(g, inodes[i := ino], used + Elems(v), e)
    ensures var f := Files(inodes, d)[i];
            Files(inodes[i := ino], e) == Files(inodes, d)[i := f + ZeroBytes(ino.size - |f|)]
  {
    hide Tree, Owned, Flat, SlotId, DataBlocks, Tidy, Grown;
    var old_ := inodes[i];
    GrownTidy(old_, d, ino, e, v);
    GrownFlat(old_, d, ino, e, v);
    var flat, flat' := Flat(old_, d), Flat(ino, e);
    assert SlackZero(ino, e);
    assert Contents(ino, e) == Contents(old_, d) + ZeroBytes(ino.size - old_.size);
    OwnSetGrows(old_, d, ino, e, v);
    GrowFrame(g, inodes, used, d, i, ino, v, e);
    ReplaceFile(g, inodes, used, d, i, ino, used + Elems(v), e);
  }

  lemma OwnSetGrows(ino: Inode, d: Disk, ino': Inode, e: Disk, v: seq<nat>)
    requires Shaped(ino) && Shaped(ino') && Owned(ino', e) == Owned(ino, d) + v
    ensures OwnSet(ino', e) == OwnSet(ino, d) + Elems(v)
  {
    hide Owned;
  }

  /** Growth changes no block that the grown file does not own. */
  lemma GrowFrame(g: Geometry, inodes: seq<Inode>, used: set<nat>, d: Disk, i: nat, ino: Inode, v: seq<nat>, e: Disk)
    requires Inv(g, inodes, used, d) && i < |inodes| && Shaped(ino)
    requires Owned(ino, e) == Owned(inodes[i], d) + v
    requires Grown(ino, d, e, Owned(ino, e), |Owned(ino, e)|)
    requires forall k | 0 <= k < |v| :: v[k] in d && InArea(g, v[k]) && v[k] !in used
    ensures Formatted(g, e)
    ensures forall id | id in used && id !in OwnSet(inodes[i], d) :: id in d && id in e && e[id] == d[id]
    ensures OwnSet(ino, e) !! used - OwnSet(inodes[i], d)
    ensures FreeZero(g, used + Elems(v), e)
  {
    hide Tree, SlackZero, Owned, SlotId, AllTrees, Exclusive, Accounted;
    var all := Owned(ino, e);
    UsedCovers(g, inodes, used, d, i);
    OwnSetGrows(inodes[i], d, ino, e, v);
    forall id | id in d && id !in OwnSet(ino, e) ensures id in e && e[id] == d[id] {
      assert id in e.Keys;
    }
    assert forall id :: id in e <==> id in d by { assert e.Keys == d.Keys; }
  }

  lemma UsedCovers(g: Geometry, inodes: seq<Inode>, used: set<nat>, d: Disk, i: nat)
    requires Inv(g, inodes, used, d) && i < |inodes|
    ensures Shaped(inodes[i]) && Tree(inodes[i], d) && SlackZero(inodes[i], d) && OwnSet(inodes[i], d) <= used
  {
  }

  /** A write inside the file patches its contents and leaves the slack zero. */
  lemma WrittenContents(ino: Inode, d: Disk, e: Disk, off: nat, src: seq<Byte>)
    requires Shaped(ino) && SlackZero(ino, d) && Written(ino, d, e, off, src) && off + |src| <= ino.size
    ensures SlackZero(ino, e) && Contents(ino, e) == Patch(Contents(ino, d), off, src)
  {
    hide Tree, Owned, Flat, DataBlocks, Elems, AgreeOutside, Tidy;
    TidyFrame(ino, d, e);
  }

  /** `write_at` inside the file patches that file only. */
  lemma PatchFile(g: Geometry, inodes: seq<Inode>, used: set<nat>, d: Disk, i: nat, e: Disk, off: nat, src: seq<Byte>)
    requires Inv(g, inodes, used, d) && i < |inodes|
    requires Written(inodes[i], d, e, off, src) && off + |src| <= inodes[i].size
    ensures Inv(g, inodes, used, e)
    ensures Files(inodes, e) == Files(inodes, d)[i := Patch(Files(inodes, d)[i], off, src)]
  {
    hide Tree, Owned, Flat, DataBlocks, Elems, SlackZero, Contents, AllTrees, Exclusive, Accounted, Patch;
    var ino := inodes[i];
    UsedCovers(g, inodes, used, d, i);
    WrittenContents(ino, d, e, off, src);
    assert Formatted(g, e) by { assert forall id :: id in e.Keys <==> id in d.Keys; }
    assert FreeZero(g, used, e);
    ReplaceFile(g, inodes, used, d, i, ino, used, e);
    assert inodes[i := ino] == inodes;
  }

  /** Zeroing and freeing every block of a file leaves it empty. */
  lemma ClearFile(g: Geometry, inodes: seq<Inode>, used: set<nat>, d: Disk, i: nat, ino: Inode, e: Disk)
    requires Inv(g, inodes, used, d) && i < |inodes| && Blank(ino)
    requires Formatted(g, e)
    requires forall id | InArea(g, id) ::
               id in d && id in e && e[id] == if id in OwnSet(inodes[i], d) then ZeroBlock else d[id]
    ensures Inv(g, inodes[i := ino], used - OwnSet(inodes[i], d), e)
    ensures Files(inodes[i := ino], e) == Files(inodes, d)[i := []]
  {
    hide SlotId, AllTrees, Exclusive, Accounted, Tidy;
    UsedCovers(g, inodes, used, d, i);
    BlankTidy(ino, e);
    assert OwnSet(ino, e) == {};
    assert Contents(ino, e) == [];
    ReplaceFile(g, inodes, used, d, i, ino, used - OwnSet(inodes[i], d), e);
  }
}
