/** The three-level page table: entry encoding, the radix walk, and its refinement of a plain map. */
module PageTables {
  import opened Bits
  import opened Collections
  import opened Frames
  import opened AddressSpaces

  // ---------- entries ----------

  /** A 64-bit page-table entry. */
  type EntryWord = nat

  datatype PteFlags = PteFlags(r: bool, w: bool, x: bool, u: bool)

  const PPN_LIMIT: nat := 0x1000_0000_0000
  const SHIFT_LIMIT: nat := 0x10_0000_0000_0000
  /** Frames from `MEMORY_END` on are never mapped for user mode. */
  const MAX_USER_PPN: nat := 0xD0000

  /** V, MAT and P, then W with D, then both PLV bits; the fields do not overlap, so `|` is `+`. */
  function LeafBits(f: PteFlags): (b: EntryWord)
    ensures b < 4096
  {
    1 + 16 + 128 + (if f.w then 256 + 2 else 0) + (if f.u then 12 else 0)
  }

  /** `PageTableEntry::new` with V added to `f`: V alone makes a directory entry, the bare address. Shifting the frame
      number left drops its bits from 52 on. */
  function Encode(ppn: Ppn, f: PteFlags): (b: EntryWord) {
    var address := (ppn % SHIFT_LIMIT) * 4096;
    if f == NoFlags then address else address + LeafBits(f)
  }

  const NoFlags: PteFlags := PteFlags(false, false, false, false)

  function PpnOf(b: EntryWord): (p: Ppn) { (b / 4096) % PPN_LIMIT }
  predicate IsValid(b: EntryWord) { b != 0 }
  predicate IsWritable(b: EntryWord) { (b / 256) % 2 == 1 }
  predicate IsUser(b: EntryWord) { (b / 4) % 4 == 3 }

  function Decode(b: EntryWord): (e: Pte) { Pte(PpnOf(b), IsWritable(b), IsUser(b)) }

  /** Decoding gives back the low 44 bits of the frame number and the W and U flags; a bare entry reads as invalid
      exactly when the shift left nothing. */
  lemma EncodeDecode(ppn: Ppn, f: PteFlags)
    ensures Decode(Encode(ppn, f)) == Pte(ppn % PPN_LIMIT, f.w, f.u)
    ensures IsValid(Encode(ppn, f)) <==> !(ppn % SHIFT_LIMIT == 0 && f == NoFlags)
  {
    hide PpnOf, IsWritable, IsUser;
    var q := ppn % SHIFT_LIMIT;
    var low := if f == NoFlags then 0 else LeafBits(f);
    FrameField(q, low);
    WritableField(q, low);
    UserField(q, low);
    LowBits(f, low);
    Shifted(ppn);
  }

  /** What the hardware reads in the low twelve bits of a leaf: V (bit 0), MAT (4) and P (7) always, D (1) and W (8)
      for writable pages, both PLV bits (2 and 3) for user pages, and nothing else. A directory entry has none. */
  lemma EntryBits(ppn: Ppn, f: PteFlags, i: nat)
    requires i < 12
    ensures Bit(Encode(ppn, f), i) <==>
            f != NoFlags && (i in {0, 4, 7} || (f.w && i in {1, 8}) || (f.u && i in {2, 3}))
  {
    hide Bit;
    var q := ppn % SHIFT_LIMIT;
    var low := if f == NoFlags then 0 else LeafBits(f);
    TwelveBits(q, low, i);
    LeafTable(f, i);
  }

  /** The low bits of a multiple of 4096 and a remainder are those of the remainder. */
  lemma TwelveBits(q: nat, low: nat, i: nat)
    requires low < 4096 && i < 12
    ensures Bit(q * 4096 + low, i) == Bit(low, i)
  {
    hide Bit, Pow2;
    assert Pow2(12) == 4096 by { Twelve(); }
    BitJoin(low, q, 12, i);
  }

  lemma Twelve()
    ensures Pow2(12) == 4096
  {
  }

  lemma LeafTable(f: PteFlags, i: nat)
    requires i < 12
    ensures !Bit(0, i)
    ensures Bit(LeafBits(f), i) <==> i in {0, 4, 7} || (f.w && i in {1, 8}) || (f.u && i in {2, 3})
  {
    hide Bit;
    NoBits(i);
    if f.w && f.u { WriteUserBits(i); } else if f.w { WriteBits(i); } else if f.u { UserBits(i); } else { PlainBits(i); }
  }

  lemma NoBits(i: nat)
    requires i < 12
    ensures !Bit(0, i)
  {
    assert !Bit(0, 0) && !Bit(0, 1) && !Bit(0, 2) && !Bit(0, 3) && !Bit(0, 4) && !Bit(0, 5);
    assert !Bit(0, 6) && !Bit(0, 7) && !Bit(0, 8) && !Bit(0, 9) && !Bit(0, 10) && !Bit(0, 11);
  }

  lemma PlainBits(i: nat)
    requires i < 12
    ensures Bit(145, i) <==> i in {0, 4, 7}
  {
    assert Bit(145, 0) && !Bit(145, 1) && !Bit(145, 2) && !Bit(145, 3) && Bit(145, 4) && !Bit(145, 5);
    assert !Bit(145, 6) && Bit(145, 7) && !Bit(145, 8) && !Bit(145, 9) && !Bit(145, 10) && !Bit(145, 11);
  }

  lemma UserBits(i: nat)
    requires i < 12
    ensures Bit(157, i) <==> i in {0, 2, 3, 4, 7}
  {
    assert Bit(157, 0) && !Bit(157, 1) && Bit(157, 2) && Bit(157, 3) && Bit(157, 4) && !Bit(157, 5);
    assert !Bit(157, 6) && Bit(157, 7) && !Bit(157, 8) && !Bit(157, 9) && !Bit(157, 10) && !Bit(157, 11);
  }

  lemma WriteBits(i: nat)
    requires i < 12
    ensures Bit(403, i) <==> i in {0, 1, 4, 7, 8}
  {
    assert Bit(403, 0) && Bit(403, 1) && !Bit(403, 2) && !Bit(403, 3) && Bit(403, 4) && !Bit(403, 5);
    assert !Bit(403, 6) && Bit(403, 7) && Bit(403, 8) && !Bit(403, 9) && !Bit(403, 10) && !Bit(403, 11);
  }

  lemma WriteUserBits(i: nat)
    requires i < 12
    ensures Bit(415, i) <==> i in {0, 1, 2, 3, 4, 7, 8}
  {
    assert Bit(415, 0) && Bit(415, 1) && Bit(415, 2) && Bit(415, 3) && Bit(415, 4) && !Bit(415, 5);
    assert !Bit(415, 6) && Bit(415, 7) && Bit(415, 8) && !Bit(415, 9) && !Bit(415, 10) && !Bit(415, 11);
  }

  lemma LowBits(f: PteFlags, low: nat)
    requires low == if f == NoFlags then 0 else LeafBits(f)
    ensures IsWritable(low) == f.w && IsUser(low) == f.u
  {
  }

  lemma FrameField(q: nat, low: nat)
    requires low < 4096
    ensures PpnOf(q * 4096 + low) == q % PPN_LIMIT
  {
    assert (q * 4096 + low) / 4096 == q;
  }

  lemma WritableField(q: nat, low: nat)
    requires low < 4096
    ensures IsWritable(q * 4096 + low) == IsWritable(low)
  {
    Over256(q * 16 + low / 256, low % 256);
    assert q * 4096 + low == (q * 16 + low / 256) * 256 + low % 256;
    Multiple2(q * 8, low / 256);
  }

  lemma Over256(x: nat, l: nat)
    requires l < 256
    ensures (x * 256 + l) / 256 == x
  {
  }

  lemma Multiple2(x: nat, h: nat)
    ensures (x * 2 + h) % 2 == h % 2
  {
  }

  lemma UserField(q: nat, low: nat)
    requires low < 4096
    ensures IsUser(q * 4096 + low) == IsUser(low)
  {
    Over4(q * 1024 + low / 4, low % 4);
    assert q * 4096 + low == (q * 1024 + low / 4) * 4 + low % 4;
    Multiple4(q * 256, low / 4);
  }

  lemma Over4(x: nat, l: nat)
    requires l < 4
    ensures (x * 4 + l) / 4 == x
  {
  }

  lemma Multiple4(x: nat, h: nat)
    ensures (x * 4 + h) % 4 == h % 4
  {
  }

  lemma Shifted(ppn: Ppn)
    ensures (ppn % SHIFT_LIMIT) % PPN_LIMIT == ppn % PPN_LIMIT
  {
    var a, r := ppn / SHIFT_LIMIT, ppn % SHIFT_LIMIT;
    var b, c := r / PPN_LIMIT, r % PPN_LIMIT;
    assert ppn == (a * 256 + b) * PPN_LIMIT + c;
  }

  /** A frame number the allocator gives out is kept whole. */
  lemma SmallFrame(ppn: Ppn)
    requires ppn < PPN_LIMIT
    ensures ppn % PPN_LIMIT == ppn && ppn % SHIFT_LIMIT == ppn
  {
  }

  // ---------- indexes ----------

  function Index(v: Vpn, level: nat): (i: nat)
    requires level < 3
    ensures i < 512
  {
    if level == 0 then (v / 0x4_0000) % 512 else if level == 1 then (v / 512) % 512 else v % 512
  }

  /** `VirtPageNum::indexes`. */
  method Indexes(vpn: Vpn) returns (idx: seq<nat>)
    ensures idx == [Index(vpn, 0), Index(vpn, 1), Index(vpn, 2)]
  {
    var v := vpn;
    idx := [0, 0, 0];
    var i := 3;
    while i > 0
      invariant 0 <= i <= 3 && |idx| == 3
      invariant v == (if i == 3 then vpn else if i == 2 then vpn / 512 else if i == 1 then vpn / 512 / 512 else vpn / 512 / 512 / 512)
      invariant forall k | i <= k < 3 :: idx[k] == Index(vpn, k)
    {
      i := i - 1;
      assert vpn / 512 / 512 == vpn / 0x4_0000;
      idx := idx[i := v % 512];
      v := v / 512;
    }
  }

  /** The three indexes tell pages apart exactly up to 2^27. */
  lemma IndexesSeparate(u: Vpn, v: Vpn)
    ensures (forall l | 0 <= l < 3 :: Index(u, l) == Index(v, l)) <==> u % VPN_LIMIT == v % VPN_LIMIT
  {
    Recompose(u);
    Recompose(v);
    if forall l | 0 <= l < 3 :: Index(u, l) == Index(v, l) {
      assert Index(u, 0) == Index(v, 0) && Index(u, 1) == Index(v, 1) && Index(u, 2) == Index(v, 2);
    }
  }

  lemma Recompose(v: Vpn)
    ensures v % VPN_LIMIT == Index(v, 0) * 0x4_0000 + Index(v, 1) * 512 + Index(v, 2)
    ensures forall l | 0 <= l < 3 :: Index(v % VPN_LIMIT, l) == Index(v, l)
  {
    hide Index;
    var a := v / 512;
    var b := a / 512;
    var c := b / 512;
    Digits(c, b % 512, a % 512, v % 512, v);
    Digits(0, b % 512, a % 512, v % 512, v % VPN_LIMIT);
    assert Index(v, 0) == Index(v % VPN_LIMIT, 0) && Index(v, 1) == Index(v % VPN_LIMIT, 1) && Index(v, 2) == Index(v % VPN_LIMIT, 2);
  }

  lemma Digits(c: nat, i: nat, j: nat, k: nat, v: nat)
    requires i < 512 && j < 512 && k < 512 && v == ((c * 512 + i) * 512 + j) * 512 + k
    ensures v % VPN_LIMIT == i * 0x4_0000 + j * 512 + k
    ensures Index(v, 0) == i && Index(v, 1) == j && Index(v, 2) == k
  {
    assert v / 512 == (c * 512 + i) * 512 + j;
    assert v / 0x4_0000 == c * 512 + i;
  }

  // ---------- the tree ----------

  type Node = seq<EntryWord>
  const NODE_SIZE: nat := 512

  function ZeroNode(): (n: Node)
    ensures |n| == NODE_SIZE && forall i | 0 <= i < NODE_SIZE :: n[i] == 0
  {
    seq<nat>(NODE_SIZE, i => 0)
  }

  /** A page table: its root, the node frames it lists, and physical memory. `place` records the index path that
      leads to each listed node. */
  datatype Tree = Tree(root: Ppn, frames: seq<Ppn>, nodes: map<Ppn, Node>, place: map<Ppn, seq<nat>>)

  /** Following `path` from the root through valid directory entries. */
  ghost function Walk(t: Tree, path: seq<nat>): (r: Option<Ppn>)
    decreases |path|
  {
    if path == [] then Some(t.root)
    else
      var up, i := Walk(t, path[..|path| - 1]), path[|path| - 1];
      if up.None? || up.value !in t.nodes || i >= |t.nodes[up.value]| || !IsValid(t.nodes[up.value][i]) then None
      else Some(PpnOf(t.nodes[up.value][i]))
  }

  /** The bare address of the listed node at `path`. */
  ghost predicate IsLink(t: Tree, e: EntryWord, path: seq<nat>) {
    PpnOf(e) in t.place && t.place[PpnOf(e)] == path && e == PpnOf(e) * 4096
  }

  /** Directory entry `i` of node `p` is empty, or the bare address of the listed node at that place. */
  ghost predicate EntryOk(t: Tree, p: Ppn, i: nat)
    requires p in t.nodes && i < |t.nodes[p]| && p in t.place
  {
    t.nodes[p][i] == 0 || IsLink(t, t.nodes[p][i], t.place[p] + [i])
  }

  ghost predicate NodeOk(t: Tree, p: Ppn)
    requires p in t.place
  {
    && 0 < p < PPN_LIMIT && p in t.nodes && |t.nodes[p]| == NODE_SIZE && |t.place[p]| <= 2
    && Walk(t, t.place[p]) == Some(p)
    && (|t.place[p]| < 2 ==> forall i | 0 <= i < NODE_SIZE :: EntryOk(t, p, i))
  }

  /** Every listed frame is a node, listed once and reached along exactly one path. */
  ghost predicate TreeOk(t: Tree) {
    && Distinct(t.frames) && t.place.Keys == Elems(t.frames)
    && t.root in t.place && t.place[t.root] == []
    && forall p | p in t.place :: NodeOk(t, p)
  }

  /** A walk of at most two steps ends in a listed node, and its place is the path. */
  lemma {:induction false} WalkSound(t: Tree, path: seq<nat>)
    requires TreeOk(t) && |path| <= 2 && Walk(t, path).Some?
    ensures var p := Walk(t, path).value; p in t.place && t.place[p] == path
  {
    if path != [] {
      var n := |path| - 1;
      WalkSound(t, path[..n]);
      var up := Walk(t, path[..n]).value;
      assert NodeOk(t, up) && EntryOk(t, up, path[n]);
      assert path == path[..n] + [path[n]];
    }
  }

  function Dir(v: Vpn): (path: seq<nat>) { [Index(v, 0), Index(v, 1)] }

  /** The leaf entry of page `v`; 0 where a directory is missing. */
  ghost function Entry(t: Tree, v: Vpn): (b: EntryWord) {
    var p := Walk(t, Dir(v));
    if p.None? || p.value !in t.nodes || |t.nodes[p.value]| != NODE_SIZE then 0 else t.nodes[p.value][Index(v, 2)]
  }

  /** The valid translations. */
  ghost function Translations(t: Tree): (m: PageMap) {
    map v: Vpn | 0 <= v < VPN_LIMIT && IsValid(Entry(t, v)) :: Decode(Entry(t, v))
  }

  // ---------- linking a new node ----------

  ghost function Link(t: Tree, p: Ppn, i: nat, f: Ppn): (r: Tree)
    requires p in t.nodes && i < |t.nodes[p]| && p in t.place
  {
    Tree(t.root, t.frames + [f], t.nodes[f := ZeroNode()][p := t.nodes[p][i := Encode(f, NoFlags)]],
         t.place[f := t.place[p] + [i]])
  }

  ghost predicate CanLink(t: Tree, p: Ppn, i: nat, f: Ppn) {
    && TreeOk(t) && p in t.place && |t.place[p]| < 2 && i < NODE_SIZE && t.nodes[p][i] == 0
    && f !in t.place && 0 < f < PPN_LIMIT
  }

  /** Walks after linking: the old ones, and the new node. */
  lemma {:induction false} LinkWalk(t: Tree, p: Ppn, i: nat, f: Ppn, path: seq<nat>)
    requires CanLink(t, p, i, f) && |path| <= 2
    ensures Walk(Link(t, p, i, f), path) == if path == t.place[p] + [i] then Some(f) else Walk(t, path)
  {
    var r := Link(t, p, i, f);
    assert NodeOk(t, p);
    if path != [] {
      var n := |path| - 1;
      var up, j := path[..n], path[n];
      LinkWalk(t, p, i, f, up);
      assert path == up + [j];
      if up == t.place[p] + [i] {
        LinkNone(t, p, i, up);
      } else if Walk(t, up).Some? {
        WalkSound(t, up);
        EncodeDecode(f, NoFlags);
        SmallFrame(f);
        assert Walk(t, up).value != f;
      }
    }
  }

  lemma LinkNone(t: Tree, p: Ppn, i: nat, path: seq<nat>)
    requires TreeOk(t) && p in t.place && |t.place[p]| < 2 && i < NODE_SIZE && p in t.nodes && |t.nodes[p]| == NODE_SIZE && t.nodes[p][i] == 0
    requires path == t.place[p] + [i]
    ensures Walk(t, path).None?
  {
    assert NodeOk(t, p);
    assert path[..|path| - 1] == t.place[p];
  }

  lemma LinkOk(t: Tree, p: Ppn, i: nat, f: Ppn)
    requires CanLink(t, p, i, f)
    ensures TreeOk(Link(t, p, i, f))
  {
    hide Walk;
    var r := Link(t, p, i, f);
    assert NodeOk(t, p) && NodeOk(t, t.root);
    LinkNone(t, p, i, t.place[p] + [i]);
    EncodeDecode(f, NoFlags);
    SmallFrame(f);
    ElemsAppend(t.frames, f);
    assert f !in t.frames by { assert f !in Elems(t.frames); }
    forall q | q in r.place ensures NodeOk(r, q) {
      LinkWalk(t, p, i, f, r.place[q]);
      if q != f {
        assert NodeOk(t, q);
        assert r.place[q] == t.place[q];
        if |t.place[q]| < 2 {
          forall j | 0 <= j < NODE_SIZE ensures EntryOk(r, q, j) { assert EntryOk(t, q, j); }
        }
      }
    }
  }

  lemma LinkEntry(t: Tree, p: Ppn, i: nat, f: Ppn, v: Vpn)
    requires CanLink(t, p, i, f)
    ensures Entry(Link(t, p, i, f), v) == Entry(t, v)
  {
    hide Walk;
    var r := Link(t, p, i, f);
    assert NodeOk(t, p);
    LinkWalk(t, p, i, f, Dir(v));
    if Dir(v) == t.place[p] + [i] {
      LinkNone(t, p, i, Dir(v));
    } else if Walk(t, Dir(v)).Some? {
      WalkSound(t, Dir(v));
    }
  }

  /** Every page has the same leaf entry, bit for bit. */
  ghost predicate SameEntries(t: Tree, r: Tree) {
    forall v: Vpn :: Entry(r, v) == Entry(t, v)
  }

  /** Linking an empty node changes no entry and no translation. */
  lemma LinkTranslations(t: Tree, p: Ppn, i: nat, f: Ppn)
    requires CanLink(t, p, i, f)
    ensures SameEntries(t, Link(t, p, i, f)) && Translations(Link(t, p, i, f)) == Translations(t)
  {
    hide Entry, Walk;
    assert NodeOk(t, p);
    forall v ensures Entry(Link(t, p, i, f), v) == Entry(t, v) { LinkEntry(t, p, i, f, v); }
  }

  /** Page `v`, and those that share its indexes, has leaf entry `e`; every other page has the entry it had. */
  ghost predicate EntrySet(t: Tree, r: Tree, v: Vpn, e: EntryWord) {
    forall u: Vpn :: Entry(r, u) == if u % VPN_LIMIT == v % VPN_LIMIT then e else Entry(t, u)
  }

  // ---------- writing a leaf entry ----------

  ghost function Put(t: Tree, p: Ppn, i: nat, e: EntryWord): (r: Tree)
    requires p in t.nodes && i < |t.nodes[p]|
  {
    var n: Node := t.nodes[p][i := e];
    t.(nodes := t.nodes[p := n])
  }

  lemma {:induction false} PutWalk(t: Tree, p: Ppn, i: nat, e: EntryWord, path: seq<nat>)
    requires TreeOk(t) && p in t.place && |t.place[p]| == 2 && p in t.nodes && i < |t.nodes[p]| && |path| <= 2
    ensures Walk(Put(t, p, i, e), path) == Walk(t, path)
  {
    if path != [] {
      var up := path[..|path| - 1];
      PutWalk(t, p, i, e, up);
      if Walk(t, up).Some? { WalkSound(t, up); }
    }
  }

  lemma PutOk(t: Tree, p: Ppn, i: nat, e: EntryWord)
    requires TreeOk(t) && p in t.place && |t.place[p]| == 2 && p in t.nodes && i < |t.nodes[p]|
    ensures TreeOk(Put(t, p, i, e))
  {
    hide Walk;
    var r := Put(t, p, i, e);
    forall q | q in r.place ensures NodeOk(r, q) {
      assert NodeOk(t, q);
      PutWalk(t, p, i, e, t.place[q]);
      if |t.place[q]| < 2 {
        forall j | 0 <= j < NODE_SIZE ensures EntryOk(r, q, j) { assert EntryOk(t, q, j); }
      }
    }
  }

  /** The leaf node of page `v`, when its directories exist. */
  lemma LeafNode(t: Tree, v: Vpn)
    requires TreeOk(t) && Walk(t, Dir(v)).Some?
    ensures var p := Walk(t, Dir(v)).value;
            p in t.place && t.place[p] == Dir(v) && p in t.nodes && |t.nodes[p]| == NODE_SIZE && p in t.frames
  {
    hide Walk;
    WalkSound(t, Dir(v));
    var p := Walk(t, Dir(v)).value;
    assert NodeOk(t, p);
    assert p in Elems(t.frames);
  }

  ghost function PutEntry(t: Tree, v: Vpn, e: EntryWord): (r: Tree)
    requires TreeOk(t) && Walk(t, Dir(v)).Some?
  {
    LeafNode(t, v);
    Put(t, Walk(t, Dir(v)).value, Index(v, 2), e)
  }

  lemma PutEntryAt(t: Tree, v: Vpn, e: EntryWord, u: Vpn)
    requires TreeOk(t) && Walk(t, Dir(v)).Some?
    ensures Entry(PutEntry(t, v, e), u) == if u % VPN_LIMIT == v % VPN_LIMIT then e else Entry(t, u)
  {
    hide Walk;
    LeafNode(t, v);
    PutWalk(t, Walk(t, Dir(v)).value, Index(v, 2), e, Dir(u));
    IndexesSeparate(u, v);
    if Walk(t, Dir(u)).Some? { LeafNode(t, u); }
    if u % VPN_LIMIT == v % VPN_LIMIT {
      assert Index(u, 0) == Index(v, 0) && Index(u, 1) == Index(v, 1) && Index(u, 2) == Index(v, 2);
    } else if Dir(u) == Dir(v) {
      assert Index(u, 0) == Dir(u)[0] == Dir(v)[0] && Index(u, 1) == Dir(u)[1] == Dir(v)[1];
      assert Index(u, 2) != Index(v, 2);
    }
  }

  /** Writing the leaf entry of `v` sets or removes one key, and leaves every other translation alone. */
  lemma PutEntryTranslations(t: Tree, v: Vpn, e: EntryWord)
    requires TreeOk(t) && Walk(t, Dir(v)).Some?
    ensures TreeOk(PutEntry(t, v, e))
    ensures Translations(PutEntry(t, v, e)) ==
            if IsValid(e) then Translations(t)[v % VPN_LIMIT := Decode(e)] else Translations(t) - {v % VPN_LIMIT}
  {
    hide Walk, Entry, Decode, TreeOk, PutEntry;
    assert TreeOk(PutEntry(t, v, e)) by { PutEntryTree(t, v, e); }
    forall u: Vpn | u < VPN_LIMIT ensures Entry(PutEntry(t, v, e), u) == if u == v % VPN_LIMIT then e else Entry(t, u) {
      PutEntryAt(t, v, e, u);
    }
  }

  lemma PutEntryTree(t: Tree, v: Vpn, e: EntryWord)
    requires TreeOk(t) && Walk(t, Dir(v)).Some?
    ensures TreeOk(PutEntry(t, v, e))
  {
    hide Walk;
    LeafNode(t, v);
    PutOk(t, Walk(t, Dir(v)).value, Index(v, 2), e);
  }

  /** Looking a page up: its entry, by its number modulo 2^27. */
  lemma EntryByKey(t: Tree, v: Vpn)
    ensures Entry(t, v) == Entry(t, v % VPN_LIMIT)
    ensures v % VPN_LIMIT in Translations(t) <==> IsValid(Entry(t, v))
    ensures IsValid(Entry(t, v)) ==> Translations(t)[v % VPN_LIMIT] == Decode(Entry(t, v))
  {
    hide Walk, Decode;
    Recompose(v);
    assert Index(v % VPN_LIMIT, 0) == Index(v, 0) && Index(v % VPN_LIMIT, 1) == Index(v, 1) && Index(v % VPN_LIMIT, 2) == Index(v, 2);
    assert Dir(v % VPN_LIMIT) == Dir(v);
  }

  // ---------- what each operation does to the plain map ----------

  datatype PtOp =
    | MapOp(vpn: Vpn, ppn: Ppn, flags: PteFlags)
    | UnmapOp(vpn: Vpn)
    | FlagsOp(vpn: Vpn, flags: PteFlags)

  function Apply(m: PageMap, op: PtOp): (r: PageMap) {
    var v := op.vpn % VPN_LIMIT;
    match op
    case MapOp(_, ppn, f) =>
      if f.u && ppn >= MAX_USER_PPN then m
      else if ppn % SHIFT_LIMIT == 0 && f == NoFlags then m - {v}
      else m[v := Pte(ppn % PPN_LIMIT, f.w, f.u)]
    case UnmapOp(_) => m - {v}
    case FlagsOp(_, f) =>
      if v !in m then m
      else if m[v].ppn == 0 && f == NoFlags then m - {v}
      else m[v := Pte(m[v].ppn, f.w, f.u)]
  }

  function ApplyAll(m: PageMap, ops: seq<PtOp>): (r: PageMap)
    decreases |ops|
  {
    if ops == [] then m else Apply(ApplyAll(m, ops[..|ops| - 1]), ops[|ops| - 1])
  }

  /** Physical memory, as far as it holds page-table nodes. */
  class NodeMemory {
    var nodes: map<Ppn, Node>
    constructor (nodes: map<Ppn, Node>)
      ensures this.nodes == nodes
    {
      this.nodes := nodes;
    }
  }

  class PageTable {
    const memory: NodeMemory
    const allocator: StackFrameAllocator
    var root: Ppn
    var frames: seq<Ppn>
    ghost var place: map<Ppn, seq<nat>>

    ghost function Value(): (t: Tree)
      reads this, memory
    {
      Tree(root, frames, memory.nodes, place)
    }

    /** The tree is well formed, and its node frames are live. */
    ghost predicate Valid()
      reads this, memory, allocator
    {
      && allocator.Valid() && 0 < allocator.base && allocator.end <= PPN_LIMIT
      && TreeOk(Value()) && forall p | p in frames :: allocator.IsLive(p)
    }

    /** Frames that were live and belong to other page tables keep their contents. */
    twostate predicate OthersKept()
      reads this, memory, allocator
    {
      forall p | p in old(memory.nodes) && old(allocator.IsLive(p)) && p !in old(frames) ::
        p in memory.nodes && memory.nodes[p] == old(memory.nodes)[p] && p !in frames && allocator.IsLive(p)
    }

    constructor AtFrame(memory: NodeMemory, allocator: StackFrameAllocator, frame: Ppn)
      requires allocator.Valid() && 0 < allocator.base && allocator.end <= PPN_LIMIT && allocator.IsLive(frame)
      modifies memory
      ensures Valid() && this.memory == memory && this.allocator == allocator && frames == [frame] && root == frame
      ensures Translations(Value()) == map[] && memory.nodes == old(memory.nodes)[frame := ZeroNode()]
    {
      this.memory, this.allocator, this.root, this.frames, this.place := memory, allocator, frame, [frame], map[frame := []];
      new;
      memory.nodes := memory.nodes[frame := ZeroNode()];
      FreshOk(Value());
    }

    /** `PageTable::new`: a root node from the allocator, zeroed; no translation, and no live node touched. `null` is
        the panic when frames have run out. */
    static method Create(memory: NodeMemory, allocator: StackFrameAllocator) returns (r: PageTable?)
      requires allocator.Valid() && 0 < allocator.base && allocator.end <= PPN_LIMIT
      modifies memory, allocator
      ensures r == null <==> forall p | allocator.base <= p < allocator.end :: old(allocator.IsLive(p))
      ensures r == null ==> memory.nodes == old(memory.nodes)
      ensures r != null ==>
                var root := r.root;
                && fresh(r) && r.Valid() && r.memory == memory && r.allocator == allocator && Translations(r.Value()) == map[]
                && |r.frames| == 1 && !old(allocator.IsLive(root))
                && (forall p :: allocator.IsLive(p) <==> old(allocator.IsLive(p)) || p == root)
                && memory.nodes == old(memory.nodes)[root := ZeroNode()]
    {
      hide TreeOk, Walk, Translations;
      var frame := allocator.Alloc();
      if frame.None? { return null; }
      r := new PageTable.AtFrame(memory, allocator, frame.value);
    }

    static lemma FreshOk(t: Tree)
      requires t.frames == [t.root] && t.place == map[t.root := []] && 0 < t.root < PPN_LIMIT
      requires t.root in t.nodes && t.nodes[t.root] == ZeroNode()
      ensures TreeOk(t) && Translations(t) == map[]
    {
      assert forall i | 0 <= i < NODE_SIZE :: EntryOk(t, t.root, i);
      forall v ensures Entry(t, v) == 0 {
        assert Dir(v)[..1] == [Index(v, 0)] && [Index(v, 0)][..0] == [];
        assert Walk(t, []) == Some(t.root);
        assert Walk(t, [Index(v, 0)]).None?;
      }
    }

    /** Allocates and zeroes a node for entry `i` of node `p`; fails only when frames run out. */
    method LinkNode(p: Ppn, i: nat) returns (ok: bool)
      requires Valid() && p in place && |place[p]| < 2 && i < NODE_SIZE
      requires p in memory.nodes && |memory.nodes[p]| == NODE_SIZE && memory.nodes[p][i] == 0
      modifies this, memory, allocator
      ensures Valid() && OthersKept() && root == old(root)
      ensures ok <==> !(old(allocator.recycled) == [] && old(allocator.current) == allocator.end)
      ensures !ok ==> Value() == old(Value()) && allocator.recycled == [] && allocator.current == allocator.end
      ensures ok ==> exists f :: CanLink(old(Value()), p, i, f) && Value() == Link(old(Value()), p, i, f)
    {
      hide TreeOk, Walk;
      ghost var t := Value();
      var frame := allocator.Alloc();
      if frame.None? { return false; }
      var f := frame.value;
      var n: Node := memory.nodes[p][i := Encode(f, NoFlags)];
      memory.nodes := memory.nodes[f := ZeroNode()][p := n];
      frames := frames + [f];
      place := place[f := place[p] + [i]];
      Listed(t);
      LinkOk(t, p, i, f);
      return true;
    }

    static lemma Listed(t: Tree)
      requires TreeOk(t)
      ensures forall p :: p in t.place <==> p in t.frames
    {
      assert forall p :: p in t.place <==> p in Elems(t.frames);
    }

    static lemma AtRoot(t: Tree, v: Vpn)
      ensures Walk(t, Dir(v)[..0]) == Some(t.root)
    {
      assert Dir(v)[..0] == [];
    }

    /** One level of the walk. */
    static lemma Descend(t: Tree, v: Vpn, i: nat)
      requires TreeOk(t) && i < 2 && Walk(t, Dir(v)[..i]).Some?
      ensures var p := Walk(t, Dir(v)[..i]).value;
              && p in t.place && t.place[p] == Dir(v)[..i] && p in t.nodes && |t.nodes[p]| == NODE_SIZE
              && Walk(t, Dir(v)[..i + 1]) ==
                 if IsValid(t.nodes[p][Index(v, i)]) then Some(PpnOf(t.nodes[p][Index(v, i)])) else None
    {
      WalkSound(t, Dir(v)[..i]);
      assert NodeOk(t, Walk(t, Dir(v)[..i]).value);
      assert Dir(v)[..i + 1][..i] == Dir(v)[..i];
    }

    /** The same level after its missing node was linked. */
    static lemma Linked(t: Tree, v: Vpn, i: nat, p: Ppn, f: Ppn)
      requires i < 2 && Walk(t, Dir(v)[..i]) == Some(p) && CanLink(t, p, Index(v, i), f)
      ensures var r := Link(t, p, Index(v, i), f);
              && Walk(r, Dir(v)[..i + 1]) == Some(f) && p in r.nodes && |r.nodes[p]| == NODE_SIZE
              && PpnOf(r.nodes[p][Index(v, i)]) == f && Translations(r) == Translations(t) && t.frames <= r.frames
              && SameEntries(t, r)
    {
      hide Walk, Translations, SameEntries;
      assert NodeOk(t, p);
      WalkSound(t, Dir(v)[..i]);
      assert Dir(v)[..i + 1] == t.place[p] + [Index(v, i)];
      LinkWalk(t, p, Index(v, i), f, Dir(v)[..i + 1]);
      LinkTranslations(t, p, Index(v, i), f);
      EncodeDecode(f, NoFlags);
      SmallFrame(f);
    }

    /** `find_pte_create`; `None` is the panic when node frames run out. */
    method FindPteCreate(vpn: Vpn) returns (slot: Option<Ppn>)
      requires Valid()
      modifies this, memory, allocator
      ensures Valid() && OthersKept() && root == old(root)
      ensures slot.None? ==> allocator.recycled == [] && allocator.current == allocator.end
      ensures slot.Some? ==> Walk(Value(), Dir(vpn)) == slot
      ensures Translations(Value()) == Translations(old(Value())) && old(frames) <= frames
      ensures SameEntries(old(Value()), Value())
    {
      hide Walk, TreeOk, Translations, Index, Link, PpnOf, CanLink, Entry;
      var idxs := Indexes(vpn);
      var ppn := root;
      AtRoot(Value(), vpn);
      var i: nat := 0;
      while i < 2
        invariant i <= 2 && Valid() && OthersKept() && root == old(root)
        invariant Walk(Value(), Dir(vpn)[..i]) == Some(ppn)
        invariant Translations(Value()) == Translations(old(Value())) && old(frames) <= frames
        invariant SameEntries(old(Value()), Value())
      {
        ghost var t := Value();
        Descend(t, vpn, i);
        if !IsValid(memory.nodes[ppn][idxs[i]]) {
          var ok := LinkNode(ppn, idxs[i]);
          if !ok { return None; }
          ghost var f :| CanLink(t, ppn, idxs[i], f) && Value() == Link(t, ppn, idxs[i], f);
          Linked(t, vpn, i, ppn, f);
        }
        ppn := PpnOf(memory.nodes[ppn][idxs[i]]);
        i := i + 1;
      }
      slot := Some(ppn);
      assert Dir(vpn)[..2] == Dir(vpn);
    }

    /** `find_pte`. */
    method FindPte(vpn: Vpn) returns (slot: Option<Ppn>)
      requires Valid()
      ensures slot == Walk(Value(), Dir(vpn))
    {
      hide Walk, TreeOk, Index, PpnOf;
      var idxs := Indexes(vpn);
      var ppn := root;
      AtRoot(Value(), vpn);
      assert Dir(vpn)[..2] == Dir(vpn);
      var i: nat := 0;
      while i < 2
        invariant i <= 2 && Walk(Value(), Dir(vpn)[..i]) == Some(ppn)
      {
        Descend(Value(), vpn, i);
        if !IsValid(memory.nodes[ppn][idxs[i]]) {
          NoneBelow(Value(), vpn, i);
          return None;
        }
        ppn := PpnOf(memory.nodes[ppn][idxs[i]]);
        i := i + 1;
      }
      slot := Some(ppn);
    }

    static lemma NoneBelow(t: Tree, v: Vpn, i: nat)
      requires i < 2 && Walk(t, Dir(v)[..i + 1]).None?
      ensures Walk(t, Dir(v)).None?
    {
      assert Dir(v)[..2] == Dir(v);
      if i == 0 { assert Dir(v)[..1] == Dir(v)[..|Dir(v)| - 1]; }
    }

    /** Writes the leaf entry of `vpn`, whose node is `p`. */
    method WriteLeaf(vpn: Vpn, p: Ppn, e: EntryWord)
      requires Valid() && Walk(Value(), Dir(vpn)) == Some(p)
      modifies memory
      ensures Valid() && OthersKept() && Value() == PutEntry(old(Value()), vpn, e)
      ensures Translations(Value()) == if IsValid(e) then Translations(old(Value()))[vpn % VPN_LIMIT := Decode(e)]
                                       else Translations(old(Value())) - {vpn % VPN_LIMIT}
      ensures EntrySet(old(Value()), Value(), vpn, e)
    {
      hide Walk, TreeOk, Translations, Decode, Entry, PutEntry;
      ghost var t := Value();
      LeafNode(t, vpn);
      var n: Node := memory.nodes[p][Index(vpn, 2) := e];
      memory.nodes := memory.nodes[p := n];
      PutEntryTranslations(t, vpn, e);
      PutIs(t, vpn, p, e);
      forall u: Vpn { PutEntryAt(t, vpn, e, u); }
    }

    static lemma UnsetEntry(t: Tree, v: Vpn)
      requires Entry(t, v) == 0
      ensures EntrySet(t, t, v, 0)
    {
      hide Walk;
      forall u: Vpn | u % VPN_LIMIT == v % VPN_LIMIT ensures Entry(t, u) == Entry(t, v) {
        EntryByKey(t, u);
        EntryByKey(t, v);
      }
    }

    static lemma PutIs(t: Tree, v: Vpn, p: Ppn, e: EntryWord)
      requires TreeOk(t) && Walk(t, Dir(v)) == Some(p)
      ensures p in t.nodes && Index(v, 2) < |t.nodes[p]| && PutEntry(t, v, e) == Put(t, p, Index(v, 2), e)
    {
      hide Walk, TreeOk;
      LeafNode(t, v);
    }

    /** `map`: rejects user mappings of frames past memory, else sets one key, overwriting; `false` is the panic. */
    method Map(vpn: Vpn, ppn: Ppn, flags: PteFlags) returns (ok: bool)
      requires Valid()
      modifies this, memory, allocator
      ensures Valid() && OthersKept() && root == old(root)
      ensures !ok ==> allocator.recycled == [] && allocator.current == allocator.end
      ensures Translations(Value()) ==
              if ok then Apply(Translations(old(Value())), MapOp(vpn, ppn, flags)) else Translations(old(Value()))
      ensures if !ok || (flags.u && ppn >= MAX_USER_PPN) then SameEntries(old(Value()), Value())
              else EntrySet(old(Value()), Value(), vpn, Encode(ppn, flags))
    {
      hide Walk, TreeOk, Translations, Decode, PutEntry, Encode, Entry;
      if flags.u && ppn >= MAX_USER_PPN { return true; }
      var slot := FindPteCreate(vpn);
      if slot.None? { return false; }
      WriteLeaf(vpn, slot.value, Encode(ppn, flags));
      EncodeDecode(ppn, flags);
      return true;
    }

    /** `unmap`: removes one key; `false` is the panic of a missing directory. */
    method Unmap(vpn: Vpn) returns (ok: bool)
      requires Valid()
      modifies memory
      ensures Valid() && OthersKept()
      ensures ok <==> Walk(old(Value()), Dir(vpn)).Some?
      ensures !ok ==> vpn % VPN_LIMIT !in Translations(Value()) && Value() == old(Value())
      ensures Translations(Value()) == Apply(Translations(old(Value())), UnmapOp(vpn))
      ensures EntrySet(old(Value()), Value(), vpn, 0)
    {
      hide Walk, TreeOk, Translations, Decode, PutEntry, Entry;
      ghost var t := Value();
      var slot := FindPte(vpn);
      Found(t, vpn);
      if slot.None? {
        UnsetEntry(t, vpn);
        assert Translations(t) - {vpn % VPN_LIMIT} == Translations(t);
        return false;
      }
      LeafNode(t, vpn);
      if !IsValid(memory.nodes[slot.value][Index(vpn, 2)]) {
        UnsetEntry(t, vpn);
        assert Translations(t) - {vpn % VPN_LIMIT} == Translations(t);
        return true;
      }
      WriteLeaf(vpn, slot.value, 0);
      return true;
    }

    /** What the walk of `v` finds. */
    static lemma Found(t: Tree, v: Vpn)
      requires TreeOk(t)
      ensures var p := Walk(t, Dir(v));
              if p.None? then v % VPN_LIMIT !in Translations(t) && Entry(t, v) == 0
              else p.value in t.nodes && |t.nodes[p.value]| == NODE_SIZE &&
                   var e := t.nodes[p.value][Index(v, 2)];
                   e == Entry(t, v) &&
                   (v % VPN_LIMIT in Translations(t) <==> IsValid(e)) &&
                   (IsValid(e) ==> Translations(t)[v % VPN_LIMIT] == Decode(e))
    {
      hide Walk, Translations, Decode;
      EntryByKey(t, v);
      if Walk(t, Dir(v)).Some? { LeafNode(t, v); }
    }

    /** `change_pte_flags`: true exactly for mapped pages; it keeps the frame. */
    method ChangePteFlags(vpn: Vpn, flags: PteFlags) returns (ok: bool)
      requires Valid()
      modifies memory
      ensures Valid() && OthersKept()
      ensures ok <==> vpn % VPN_LIMIT in Translations(old(Value()))
      ensures Translations(Value()) == Apply(Translations(old(Value())), FlagsOp(vpn, flags))
      ensures if ok then EntrySet(old(Value()), Value(), vpn, Encode(PpnOf(Entry(old(Value()), vpn)), flags))
              else Value() == old(Value())
    {
      hide Walk, TreeOk, Translations, PutEntry, Encode, Entry;
      ghost var t := Value();
      var slot := FindPte(vpn);
      Found(t, vpn);
      if slot.Some? {
        var e := memory.nodes[slot.value][Index(vpn, 2)];
        if IsValid(e) {
          WriteLeaf(vpn, slot.value, Encode(PpnOf(e), flags));
          SmallFrame(PpnOf(e));
          EncodeDecode(PpnOf(e), flags);
          return true;
        }
      }
      return false;
    }

    /** `translate`. */
    method Translate(vpn: Vpn) returns (r: Option<EntryWord>)
      requires Valid()
      ensures r.Some? && IsValid(r.value) <==> vpn % VPN_LIMIT in Translations(Value())
      ensures r.Some? && IsValid(r.value) ==> Decode(r.value) == Translations(Value())[vpn % VPN_LIMIT]
      ensures Entry(Value(), vpn) == if r.Some? then r.value else 0
    {
      hide Walk, TreeOk, Translations, Decode, Entry;
      var slot := FindPte(vpn);
      Found(Value(), vpn);
      if slot.None? { return None; }
      LeafNode(Value(), vpn);
      r := Some(memory.nodes[slot.value][Index(vpn, 2)]);
    }

    /** Every sequence of map, unmap and change_pte_flags acts on the translations as on a plain finite map keyed
        by page number modulo 2^27; it stops early only at a panic. */
    method Run(ops: seq<PtOp>) returns (done: nat)
      requires Valid()
      modifies this, memory, allocator
      ensures Valid() && OthersKept() && done <= |ops|
      ensures Translations(Value()) == ApplyAll(Translations(old(Value())), ops[..done])
      ensures done < |ops| ==>
                || (ops[done].MapOp? && allocator.recycled == [] && allocator.current == allocator.end)
                || (ops[done].UnmapOp? && Walk(Value(), Dir(ops[done].vpn)).None?)
    {
      hide Walk, TreeOk, Translations, Apply;
      done := 0;
      while done < |ops|
        invariant done <= |ops| && Valid() && OthersKept()
        invariant Translations(Value()) == ApplyAll(Translations(old(Value())), ops[..done])
      {
        assert ops[..done + 1][..done] == ops[..done];
        match ops[done] {
          case MapOp(v, p, f) =>
            var ok := Map(v, p, f);
            if !ok { return; }
          case UnmapOp(v) =>
            var ok := Unmap(v);
            if !ok { return; }
          case FlagsOp(v, f) =>
            var _ := ChangePteFlags(v, f);
        }
        done := done + 1;
      }
      assert ops[..done] == ops;
    }

    /** `Drop`: returns every node frame to the allocator exactly once, none of which panics. */
    method Drop()
      requires Valid()
      modifies this, allocator
      ensures frames == [] && allocator.Valid() && allocator.recycled == old(allocator.recycled) + old(frames)
      ensures forall p :: allocator.IsLive(p) <==> old(allocator.IsLive(p)) && p !in old(frames)
    {
      hide Walk;
      ghost var all := frames;
      ghost var k: nat := 0;
      assert Distinct(all);
      while |frames| > 0
        invariant k <= |all| && frames == all[k..] && allocator.Valid()
        invariant allocator.recycled == old(allocator.recycled) + all[..k]
        invariant allocator.current == old(allocator.current) && allocator.base == old(allocator.base)
        invariant forall p | p in all :: old(allocator.IsLive(p))
        decreases |frames|
      {
        var ppn := frames[0];
        assert ppn == all[k] && ppn in all;
        assert ppn !in all[..k];
        allocator.Dealloc(ppn);
        frames := frames[1..];
        k := k + 1;
        assert all[..k] == all[..k - 1] + [ppn];
      }
      assert all[..k] == all;
    }
  }
}
