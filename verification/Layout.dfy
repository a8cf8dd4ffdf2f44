/** The on-disk inode: 28 direct, 128 single-indirect and 128*128 double-indirect block pointers. */
module Layout {
  import opened Collections
  import opened Blocks

  const INODE_DIRECT_COUNT: nat := 28
  const INODE_INDIRECT1_COUNT: nat := 128
  const INODE_INDIRECT2_COUNT: nat := 16384
  const INDIRECT1_BOUND: nat := 156
  const MAX_BLOCKS: nat := 16540
  const MAX_SIZE: nat := 8468480
  /** Blocks of a file of the largest size, pointer blocks included. */
  const MAX_TOTAL: nat := 16670

  /** A `DiskInode` record. */
  datatype Inode = Inode(size: nat, direct: seq<nat>, indirect1: nat, indirect2: nat, isDir: bool)

  function DataBlocks(size: nat): (n: nat)
    ensures BLOCK_SZ * n >= size > BLOCK_SZ * (n - 1)
    ensures size <= MAX_SIZE <==> n <= MAX_BLOCKS
  {
    (size + BLOCK_SZ - 1) / BLOCK_SZ
  }

  /** Blocks needed by a file of `n` data blocks, pointer blocks included. */
  function TotalFor(n: nat): (t: nat) {
    n + (if n > INODE_DIRECT_COUNT then 1 else 0)
    + (if n > INDIRECT1_BOUND
       then 1 + (n - INDIRECT1_BOUND + INODE_INDIRECT1_COUNT - 1) / INODE_INDIRECT1_COUNT
       else 0)
  }

  function TotalBlocks(size: nat): (t: nat) {
    TotalFor(DataBlocks(size))
  }

  // ---------- slots, in the order in which blocks are supplied ----------

  /** Slots of blocks that hold pointers: indirect1, indirect2 and the low-level indirect blocks. */
  predicate IsPtr(p: nat) {
    p == 28 || p == 157 || (p >= 158 && (p - 158) % 129 == 0)
  }

  /** Slots whose block id is stored in another block rather than in the inode record. */
  predicate InBlock(p: nat) {
    29 <= p < MAX_TOTAL && p != 157
  }

  /** The slot of the block that stores the id of slot `p`. */
  function Parent(p: nat): (q: nat)
    requires InBlock(p)
    ensures q < p && IsPtr(q)
  {
    if p < 157 then 28
    else if (p - 158) % 129 == 0 then 157
    else 158 + (p - 158) / 129 * 129
  }

  /** The word of that block. */
  function Index(p: nat): (k: nat)
    requires InBlock(p)
    ensures k < WORDS
  {
    if p < 157 then p - 29
    else if (p - 158) % 129 == 0 then (p - 158) / 129
    else (p - 158) % 129 - 1
  }

  lemma PlaceIsUnique(p: nat, q: nat)
    requires InBlock(p) && InBlock(q) && p != q
    ensures Parent(p) != Parent(q) || Index(p) != Index(q)
  {
  }

  /** The slot of data block `k` of the file. */
  function DataPos(k: nat): (p: nat)
    requires k < MAX_BLOCKS
    ensures p < MAX_TOTAL && !IsPtr(p)
    ensures TotalFor(k) <= p && p + 1 == TotalFor(k + 1)
  {
    if k < INODE_DIRECT_COUNT then k
    else if k < INDIRECT1_BOUND then k + 1
    else 159 + (k - INDIRECT1_BOUND) / 128 * 129 + (k - INDIRECT1_BOUND) % 128
  }

  lemma TotalForMonotone(m: nat, n: nat)
    requires m <= n
    ensures TotalFor(m) <= TotalFor(n)
    ensures n <= MAX_BLOCKS ==> TotalFor(n) <= MAX_TOTAL
  {
  }

  lemma TotalForIndirect2(a: nat, b: nat)
    requires b < 128 && (a > 0 || b > 0)
    ensures TotalFor(156 + 128 * a + b) == 158 + 129 * a + (if b == 0 then 0 else b + 1)
  {
  }

  lemma DataPosInjective(j: nat, k: nat)
    requires j < k < MAX_BLOCKS
    ensures DataPos(j) < DataPos(k)
  {
    TotalForMonotone(j + 1, k);
  }

  /** The block id in slot `p`, read through the pointer blocks as `get_block_id` does. */
  function SlotId(ino: Inode, d: Disk, p: nat): (id: nat)
    requires |ino.direct| == INODE_DIRECT_COUNT && p < MAX_TOTAL
    decreases p
  {
    if p < 28 then ino.direct[p]
    else if p == 28 then ino.indirect1
    else if p == 157 then ino.indirect2
    else Ptr(d, SlotId(ino, d, Parent(p)), Index(p))
  }

  predicate Shaped(ino: Inode) {
    |ino.direct| == INODE_DIRECT_COUNT && ino.size <= MAX_SIZE
  }

  predicate AreU32(ws: seq<nat>) {
    forall i | 0 <= i < |ws| :: ws[i] < U32_LIMIT
  }

  /** Every field fits its u32. */
  predicate Storable(ino: Inode) {
    && Shaped(ino) && AreU32(ino.direct)
    && ino.indirect1 < U32_LIMIT && ino.indirect2 < U32_LIMIT
  }

  /** Every block of the file, pointer blocks included, in supply order. */
  function Owned(ino: Inode, d: Disk): (ids: seq<nat>)
    requires Shaped(ino)
    ensures |ids| == TotalBlocks(ino.size) <= MAX_TOTAL
  {
    TotalForMonotone(0, DataBlocks(ino.size));
    seq(TotalBlocks(ino.size), p requires 0 <= p < MAX_TOTAL => SlotId(ino, d, p))
  }

  ghost predicate Tree(ino: Inode, d: Disk) {
    && Shaped(ino)
    && Distinct(Owned(ino, d))
    && forall p | 0 <= p < |Owned(ino, d)| :: Owned(ino, d)[p] in d
  }

  lemma TreeShaped(ino: Inode, d: Disk)
    requires Tree(ino, d)
    ensures Shaped(ino)
  {
  }

  /** What slot `p` holds, in terms of the slots before it. */
  lemma OwnedAt(ino: Inode, d: Disk, p: nat)
    requires Tree(ino, d) && p < |Owned(ino, d)|
    ensures var own := Owned(ino, d);
            && own[p] in d
            && (p < 28 ==> own[p] == ino.direct[p])
            && (p == 28 ==> own[p] == ino.indirect1)
            && (p == 157 ==> own[p] == ino.indirect2)
            && (InBlock(p) ==> own[Parent(p)] in d && own[p] == Word(d[own[Parent(p)]], Index(p)))
  {
    hide Word;
    var own := Owned(ino, d);
    assert own[p] == SlotId(ino, d, p);
    if InBlock(p) {
      assert own[Parent(p)] == SlotId(ino, d, Parent(p));
    }
  }

  /** Pointer `k` of the pointer block in slot `s` names slot `s + 1 + k`. */
  lemma EntryOfBlock(ino: Inode, d: Disk, s: nat, k: nat)
    requires Tree(ino, d) && k < WORDS && s + 1 + k < |Owned(ino, d)|
    requires s == 28 || (s >= 158 && (s - 158) % 129 == 0)
    ensures Owned(ino, d)[s] in d && Owned(ino, d)[s + 1 + k] == Word(d[Owned(ino, d)[s]], k)
  {
    hide Word, Tree, Owned, Parent, Index;
    OwnedAt(ino, d, s + 1 + k);
    EntryPlace(s, k);
  }

  lemma EntryPlace(s: nat, k: nat)
    requires k < WORDS && s + 1 + k < MAX_TOTAL && (s == 28 || (s >= 158 && (s - 158) % 129 == 0))
    ensures InBlock(s + 1 + k) && Parent(s + 1 + k) == s && Index(s + 1 + k) == k
  {
    if s >= 158 {
      var a := (s - 158) / 129;
      assert s - 158 == 129 * a;
      assert (129 * a + (1 + k)) / 129 == a && (129 * a + (1 + k)) % 129 == 1 + k;
    }
  }

  /** The pointer block and word that name data block `k`. */
  lemma DataPlace(k: nat)
    requires 28 <= k < MAX_BLOCKS
    ensures InBlock(DataPos(k))
    ensures k < 156 ==> Parent(DataPos(k)) == 28 && Index(DataPos(k)) == k - 28
    ensures k >= 156 ==> Parent(DataPos(k)) == 158 + 129 * ((k - 156) / 128) && Index(DataPos(k)) == (k - 156) % 128
  {
    if k >= 156 {
      var a, b := (k - 156) / 128, (k - 156) % 128;
      assert DataPos(k) == 158 + 129 * a + 1 + b;
      assert (158 + 129 * a - 158) % 129 == 0;
      EntryPlace(158 + 129 * a, b);
    } else {
      EntryPlace(28, k - 28);
    }
  }

  /** Pointer `a` of the double-indirect block names slot `158 + 129 * a`. */
  lemma LowBlock(ino: Inode, d: Disk, a: nat)
    requires Tree(ino, d) && 158 + 129 * a < |Owned(ino, d)|
    ensures a < WORDS && ino.indirect2 in d && Owned(ino, d)[158 + 129 * a] == Word(d[ino.indirect2], a)
  {
    hide Word, Tree, SlotId;
    TreeShaped(ino, d);
    PlacesOfRound(a, 0);
    OwnedAt(ino, d, 157);
    OwnedAt(ino, d, 158 + 129 * a);
  }

  // ---------- growth ----------

  /** Slots `0..p` of `ino` hold `all[..p]`, and only pointer blocks among them differ from `d0`. */
  ghost predicate Grown(ino: Inode, d0: Disk, d: Disk, all: seq<nat>, p: nat) {
    && |ino.direct| == INODE_DIRECT_COUNT && p <= |all| <= MAX_TOTAL
    && d.Keys == d0.Keys
    && (forall q | 0 <= q < p :: SlotId(ino, d, q) == all[q])
    && (forall id | id in d :: d[id] == d0[id] || exists q | 0 <= q < p :: IsPtr(q) && all[q] == id)
    && (forall q | p <= q < MAX_TOTAL :: WordKept(d0, d, all, p, q))
  }

  /** The word for slot `q`, if its pointer block is among the first `p` blocks, is still what it was. */
  ghost predicate WordKept(d0: Disk, d: Disk, all: seq<nat>, p: nat, q: nat)
    requires p <= |all|
  {
    InBlock(q) && Parent(q) < p ==>
      Word(BlockAt(d, all[Parent(q)]), Index(q)) == Word(BlockAt(d0, all[Parent(q)]), Index(q))
  }

  ghost predicate Supply(d: Disk, all: seq<nat>) {
    && |all| <= MAX_TOTAL && Distinct(all)
    && forall p | 0 <= p < |all| :: all[p] in d && all[p] < U32_LIMIT
  }

  lemma SupplyAt(d: Disk, all: seq<nat>, p: nat)
    requires Supply(d, all) && p < |all|
    ensures all[p] in d && all[p] < U32_LIMIT
  {
  }

  lemma GrownAt(ino: Inode, d0: Disk, d: Disk, all: seq<nat>, p: nat, q: nat)
    requires Grown(ino, d0, d, all, p) && Supply(d0, all) && q < p
    ensures all[q] in d && all[q] < U32_LIMIT && |ino.direct| == INODE_DIRECT_COUNT && SlotId(ino, d, q) == all[q]
    ensures q == 28 ==> all[q] == ino.indirect1
    ensures q == 157 ==> all[q] == ino.indirect2
    ensures q >= 158 && (q - 158) % 129 == 0 ==> Ptr(d, ino.indirect2, (q - 158) / 129) == all[q]
  {
    if q >= 158 && (q - 158) % 129 == 0 {
      assert SlotId(ino, d, 157) == ino.indirect2;
    }
  }

  /** Changing record fields no filled slot uses keeps the filled slots. */
  lemma GrowInRecord(ino: Inode, ino': Inode, d0: Disk, d: Disk, all: seq<nat>, p: nat)
    requires Grown(ino, d0, d, all, p) && p < |all|
    requires p < 28 || ((p == 28 || p == 157) && Distinct(all))
    requires p < 28 ==> ino' == ino.(direct := ino.direct[p := all[p]])
    requires p == 28 ==> ino' == ino.(indirect1 := all[p])
    requires p == 157 ==> ino' == ino.(indirect2 := all[p])
    ensures Grown(ino', d0, d, all, p + 1)
  {
    forall q | 0 <= q < p ensures SlotId(ino', d, q) == SlotId(ino, d, q) {
      if InBlock(q) {
        assert SlotId(ino', d, 28) == SlotId(ino, d, 28);
      }
    }
    forall id | id in d ensures d[id] == d0[id] || exists q | 0 <= q < p + 1 :: IsPtr(q) && all[q] == id {
    }
    var n := p + 1;
    forall q | n <= q < MAX_TOTAL ensures WordKept(d0, d, all, n, q) {
      assert WordKept(d0, d, all, p, q);
      if InBlock(q) && Parent(q) == p { NotYetWritten(ino, d0, d, all, p); }
    }
  }

  /** The block supplied for the next slot has not been written. */
  lemma NotYetWritten(ino: Inode, d0: Disk, d: Disk, all: seq<nat>, p: nat)
    requires Grown(ino, d0, d, all, p) && p < |all| && Distinct(all)
    ensures BlockAt(d, all[p]) == BlockAt(d0, all[p])
  {
    hide SlotId, WordKept;
    assert all[p] in d <==> all[p] in d0 by { assert d.Keys == d0.Keys; }
  }

  /** The two places written by one round (a, b) of the double-indirect loop. */
  lemma PlacesOfRound(a: nat, b: nat)
    requires a < 128 && b < 128
    ensures InBlock(158 + 129 * a) && Parent(158 + 129 * a) == 157 && Index(158 + 129 * a) == a
    ensures var p := 158 + 129 * a + 1 + b; InBlock(p) && Parent(p) == 158 + 129 * a && Index(p) == b
  {
  }

  /** Storing an id in its pointer block changes no slot filled before. */
  lemma GrowInBlock(ino: Inode, d0: Disk, d: Disk, all: seq<nat>, p: nat)
    requires Grown(ino, d0, d, all, p) && p < |all| && Supply(d0, all) && InBlock(p)
    ensures var t := all[Parent(p)];
            Grown(ino, d0, d[t := PutWord(d[t], Index(p), all[p])], all, p + 1)
  {
    var t := all[Parent(p)];
    var d' := d[t := PutWord(d[t], Index(p), all[p])];
    forall q | 0 <= q <= p ensures SlotId(ino, d', q) == all[q] {
      GrowInBlockAt(ino, d, d', all, p, q);
    }
    forall id | id in d' && d'[id] != d0[id] ensures exists q | 0 <= q < p + 1 :: IsPtr(q) && all[q] == id {
      if id == t {
        assert IsPtr(Parent(p));
      }
    }
    var n := p + 1;
    forall q | n <= q < MAX_TOTAL ensures WordKept(d0, d', all, n, q) {
      GrowInBlockKeeps(ino, d0, d, all, p, q);
    }
  }

  lemma GrowInBlockKeeps(ino: Inode, d0: Disk, d: Disk, all: seq<nat>, p: nat, q: nat)
    requires Grown(ino, d0, d, all, p) && p < |all| && Supply(d0, all) && InBlock(p) && p < q < MAX_TOTAL
    ensures var t := all[Parent(p)]; t in d && WordKept(d0, d[t := PutWord(d[t], Index(p), all[p])], all, p + 1, q)
  {
    hide SlotId, Word, PutWord;
    var t := all[Parent(p)];
    assert t in d by { assert t in d0.Keys; }
    assert WordKept(d0, d, all, p, q);
    if InBlock(q) && Parent(q) <= p {
      if Parent(q) == p {
        NotYetWritten(ino, d0, d, all, p);
      } else if Parent(q) == Parent(p) {
        PlaceIsUnique(p, q);
      }
    }
  }

  lemma {:induction false} GrowInBlockAt(ino: Inode, d: Disk, d': Disk, all: seq<nat>, p: nat, q: nat)
    requires |ino.direct| == INODE_DIRECT_COUNT && p < |all| <= MAX_TOTAL && InBlock(p) && q <= p
    requires forall i | 0 <= i < p :: SlotId(ino, d, i) == all[i] && all[i] in d
    requires Distinct(all) && all[p] < U32_LIMIT
    requires d' == d[all[Parent(p)] := PutWord(d[all[Parent(p)]], Index(p), all[p])]
    ensures SlotId(ino, d', q) == all[q]
    decreases q
  {
    if InBlock(q) {
      var s := Parent(q);
      GrowInBlockAt(ino, d, d', all, p, s);
      if q < p {
        PlaceIsUnique(p, q);
        assert SlotId(ino, d, q) == Ptr(d, all[s], Index(q));
        assert s != Parent(p) ==> all[s] != all[Parent(p)];
      }
    }
  }

  // ---------- pointers that are not in use ----------

  /** Slot `p` has a place to be stored in a file of `n` blocks. */
  predicate Placed(p: nat, n: nat) {
    InBlock(p) ==> Parent(p) < n
  }

  /** Every pointer not yet in use is zero. */
  ghost predicate Tidy(ino: Inode, d: Disk)
    requires Shaped(ino)
  {
    forall p | |Owned(ino, d)| <= p < MAX_TOTAL && Placed(p, |Owned(ino, d)|) :: SlotId(ino, d, p) == 0
  }

  /** Fields of the record the grown file does not use are as before. */
  predicate FieldsKept(ino: Inode, ino': Inode) {
    && |ino.direct| == |ino'.direct| == INODE_DIRECT_COUNT
    && (forall k | DataBlocks(ino'.size) <= k < INODE_DIRECT_COUNT :: ino'.direct[k] == ino.direct[k])
    && (DataBlocks(ino'.size) <= INODE_DIRECT_COUNT ==> ino'.indirect1 == ino.indirect1)
    && (DataBlocks(ino'.size) <= INDIRECT1_BOUND ==> ino'.indirect2 == ino.indirect2)
  }

  lemma SlotBeyond(blocks: nat, p: nat)
    requires TotalFor(blocks) <= p
    ensures p < 28 ==> blocks <= p
    ensures p == 28 ==> blocks <= 28
    ensures p == 157 ==> blocks <= 156
  {
  }

  /** Growing with zeroed blocks leaves the unused pointers zero. */
  lemma GrownTidy(ino: Inode, d: Disk, ino': Inode, e: Disk, v: seq<nat>)
    requires Tree(ino, d) && Tree(ino', e) && Tidy(ino, d) && FieldsKept(ino, ino') && ino.size <= ino'.size
    requires Owned(ino', e) == Owned(ino, d) + v && Grown(ino', d, e, Owned(ino', e), |Owned(ino', e)|)
    requires forall k | 0 <= k < |v| :: v[k] in d && d[v[k]] == ZeroBlock
    ensures Tidy(ino', e)
  {
    hide Tree, Owned, Grown;
    TreeShaped(ino, d);
    TreeShaped(ino', e);
    forall p | |Owned(ino', e)| <= p < MAX_TOTAL && Placed(p, |Owned(ino', e)|) ensures SlotId(ino', e, p) == 0 {
      GrownTidyAt(ino, d, ino', e, v, p);
    }
  }

  lemma GrownTidyAt(ino: Inode, d: Disk, ino': Inode, e: Disk, v: seq<nat>, p: nat)
    requires Tree(ino, d) && Tree(ino', e) && Tidy(ino, d) && FieldsKept(ino, ino') && ino.size <= ino'.size
    requires Owned(ino', e) == Owned(ino, d) + v && Grown(ino', d, e, Owned(ino', e), |Owned(ino', e)|)
    requires forall k | 0 <= k < |v| :: v[k] in d && d[v[k]] == ZeroBlock
    requires |Owned(ino', e)| <= p < MAX_TOTAL && Placed(p, |Owned(ino', e)|)
    ensures SlotId(ino', e, p) == 0
  {
    hide Word, DataBlocks, Tidy;
    var all, n := Owned(ino', e), |Owned(ino, d)|;
    SlotBeyond(DataBlocks(ino'.size), p);
    if InBlock(p) {
      var q := Parent(p);
      assert SlotId(ino', e, q) == all[q] && WordKept(d, e, all, |all|, p);
      assert all[q] in e && all[q] in d by { assert all[q] in e.Keys; }
      if q < n {
        assert all[q] == Owned(ino, d)[q] == SlotId(ino, d, q);
        TidyAt(ino, d, p);
      } else {
        assert all[q] == v[q - n];
        ZeroWords(Index(p));
      }
    } else {
      TidyAt(ino, d, p);
    }
  }

  lemma TidyAt(ino: Inode, d: Disk, p: nat)
    requires Shaped(ino) && Tidy(ino, d) && |Owned(ino, d)| <= p < MAX_TOTAL && Placed(p, |Owned(ino, d)|)
    ensures SlotId(ino, d, p) == 0
  {
  }

  /** Disks that agree on a file's pointer blocks agree on its unused pointers. */
  lemma TidyFrame(ino: Inode, d: Disk, e: Disk)
    requires Tree(ino, d) && Tidy(ino, d)
    requires forall q | 0 <= q < |Owned(ino, d)| && IsPtr(q) :: BlockAt(e, Owned(ino, d)[q]) == BlockAt(d, Owned(ino, d)[q])
    ensures Tidy(ino, e)
  {
    hide Word, DataBlocks, Tree;
    TreeShaped(ino, d);
    OwnedFrame(ino, d, e);
    var own := Owned(ino, d);
    forall p | |own| <= p < MAX_TOTAL && Placed(p, |own|) ensures SlotId(ino, e, p) == 0 {
      TidyAt(ino, d, p);
      if InBlock(p) {
        var q := Parent(p);
        assert own[q] == SlotId(ino, d, q) && Owned(ino, e)[q] == SlotId(ino, e, q);
        assert BlockAt(e, own[q]) == BlockAt(d, own[q]);
        ZeroWords(Index(p));
      }
    }
  }

  /** A record as `initialize` leaves it. */
  predicate Blank(ino: Inode) {
    && ino.size == 0 && |ino.direct| == INODE_DIRECT_COUNT && ino.indirect1 == 0 && ino.indirect2 == 0
    && forall k | 0 <= k < INODE_DIRECT_COUNT :: ino.direct[k] == 0
  }

  lemma BlankTidy(ino: Inode, d: Disk)
    requires Blank(ino)
    ensures Shaped(ino) && Owned(ino, d) == [] && Tidy(ino, d)
  {
  }

  /** The record `clear_size` leaves: the fields the file used are zero. */
  predicate Cleared(ino: Inode, ino': Inode) {
    && |ino.direct| == INODE_DIRECT_COUNT && ino'.size == 0 && |ino'.direct| == INODE_DIRECT_COUNT
    && (forall k | 0 <= k < INODE_DIRECT_COUNT :: ino'.direct[k] == if k < DataBlocks(ino.size) then 0 else ino.direct[k])
    && ino'.indirect1 == (if DataBlocks(ino.size) > INODE_DIRECT_COUNT then 0 else ino.indirect1)
    && ino'.indirect2 == (if DataBlocks(ino.size) > INDIRECT1_BOUND then 0 else ino.indirect2)
  }

  /** Clearing a tidy file leaves a blank record. */
  lemma ClearedBlank(ino: Inode, ino': Inode, d: Disk)
    requires Shaped(ino) && Tidy(ino, d) && Cleared(ino, ino')
    ensures Blank(ino')
  {
    hide Tidy, DataBlocks, Owned;
    var n := DataBlocks(ino.size);
    forall k | n <= k < 28 ensures ino.direct[k] == 0 { TidyAt(ino, d, k); }
    if n <= 28 { TidyAt(ino, d, 28); }
    if n <= 156 { TidyAt(ino, d, 157); }
  }

  // ---------- looking up a block ----------

  /** The reads of `get_block_id` for block `k` stay on the device and inside their blocks. */
  predicate Reachable(ino: Inode, d: Disk, k: nat)
    requires |ino.direct| == INODE_DIRECT_COUNT
  {
    if k < INODE_DIRECT_COUNT then true
    else if k < INDIRECT1_BOUND then ino.indirect1 in d
    else (k - INDIRECT1_BOUND) / INODE_INDIRECT1_COUNT < WORDS && ino.indirect2 in d
         && Word(d[ino.indirect2], (k - INDIRECT1_BOUND) / INODE_INDIRECT1_COUNT) in d
  }

  /** The id it returns. */
  function Looked(ino: Inode, d: Disk, k: nat): (id: nat)
    requires |ino.direct| == INODE_DIRECT_COUNT && Reachable(ino, d, k)
  {
    if k < INODE_DIRECT_COUNT then ino.direct[k]
    else if k < INDIRECT1_BOUND then Word(d[ino.indirect1], k - INODE_DIRECT_COUNT)
    else
      var last := k - INDIRECT1_BOUND;
      Word(d[Word(d[ino.indirect2], last / INODE_INDIRECT1_COUNT)], last % INODE_INDIRECT1_COUNT)
  }

  /** Block `k` would be the first under a pointer block of its own. */
  predicate Boundary(k: nat) {
    k == INODE_DIRECT_COUNT || (k >= INDIRECT1_BOUND && (k - INDIRECT1_BOUND) % INODE_INDIRECT1_COUNT == 0)
  }

  /** Right past the end of a file the lookup ends at block 0, through a pointer that is zero, except at a boundary:
      there it takes the first word of block 0 for a block id, and cannot go on unless that is one. */
  lemma LookupPastEnd(ino: Inode, d: Disk, k: nat)
    requires Tree(ino, d) && Tidy(ino, d) && k == DataBlocks(ino.size) && 0 in d
    ensures !Boundary(k) ==> Reachable(ino, d, k) && Looked(ino, d, k) == 0
    ensures Boundary(k) && Word(d[0], 0) !in d ==> !(Reachable(ino, d, k) && Looked(ino, d, k) in d)
  {
    hide Word, Tree, Tidy, Owned;
    TreeShaped(ino, d);
    var n := |Owned(ino, d)|;
    if k < 28 {
      TidyAt(ino, d, k);
    } else if k == 28 {
      TidyAt(ino, d, 28);
    } else if k < 156 {
      OwnedAt(ino, d, 28);
      PastEndInBlock(ino, d, k);
    } else if k == 156 {
      TidyAt(ino, d, 157);
    } else {
      PastEndDouble(ino, d, k);
    }
  }

  lemma PastEndInBlock(ino: Inode, d: Disk, k: nat)
    requires Tree(ino, d) && Tidy(ino, d) && k == DataBlocks(ino.size) && 28 < k < 156
    ensures ino.indirect1 in d && Word(d[ino.indirect1], k - 28) == 0
  {
    hide Word, Tree, Tidy, Owned;
    TreeShaped(ino, d);
    OwnedAt(ino, d, 28);
    EntryPlace(28, k - 28);
    TidyAt(ino, d, k + 1);
    assert SlotId(ino, d, 28) == ino.indirect1;
  }

  lemma PastEndDouble(ino: Inode, d: Disk, k: nat)
    requires Tree(ino, d) && Tidy(ino, d) && k == DataBlocks(ino.size) && k > 156 && 0 in d
    ensures !Boundary(k) ==> Reachable(ino, d, k) && Looked(ino, d, k) == 0
    ensures Boundary(k) && Word(d[0], 0) !in d ==> !(Reachable(ino, d, k) && Looked(ino, d, k) in d)
  {
    hide Word, Tree, Tidy, DataBlocks;
    var a, b := (k - 156) / 128, (k - 156) % 128;
    if b == 0 { PastEndRound(ino, d, a); } else { PastEndInner(ino, d, a, b); }
  }

  /** Past a full round the pointer to the next low-level block is zero. */
  lemma PastEndRound(ino: Inode, d: Disk, a: nat)
    requires Tree(ino, d) && Tidy(ino, d) && DataBlocks(ino.size) == 156 + 128 * a && a > 0
    ensures ino.indirect2 in d && (a < 128 ==> Word(d[ino.indirect2], a) == 0)
  {
    hide Word, Tree, Tidy, Owned;
    TreeShaped(ino, d);
    TotalForIndirect2(a, 0);
    OwnedAt(ino, d, 157);
    if a < 128 {
      PlacesOfRound(a, 0);
      TidyAt(ino, d, 158 + 129 * a);
      assert SlotId(ino, d, 157) == ino.indirect2;
    }
  }

  /** Inside a round the next word of its low-level block is zero. */
  lemma PastEndInner(ino: Inode, d: Disk, a: nat, b: nat)
    requires Tree(ino, d) && Tidy(ino, d) && DataBlocks(ino.size) == 156 + 128 * a + b && 0 < b < 128
    ensures a < WORDS && ino.indirect2 in d
    ensures var low := Word(d[ino.indirect2], a); low in d && Word(d[low], b) == 0
  {
    hide Word, Tree, Tidy, Owned, DataBlocks;
    TreeShaped(ino, d);
    TotalForIndirect2(a, b);
    LowBlock(ino, d, a);
    PlacesOfRound(a, b);
    var s := 158 + 129 * a;
    OwnedAt(ino, d, s);
    SlotOwned(ino, d, s);
    TidyAt(ino, d, s + 1 + b);
  }

  lemma SlotOwned(ino: Inode, d: Disk, p: nat)
    requires Tree(ino, d) && p < |Owned(ino, d)|
    ensures SlotId(ino, d, p) == Owned(ino, d)[p]
  {
  }

  // ---------- contents ----------

  /** `s` with the bytes from `off` replaced by `src`. */
  function Patch<T>(s: seq<T>, off: nat, src: seq<T>): (r: seq<T>)
    requires off + |src| <= |s|
    ensures |r| == |s|
    ensures forall i | 0 <= i < |r| :: r[i] == if off <= i < off + |src| then src[i - off] else s[i]
  {
    s[..off] + src + s[off + |src|..]
  }

  lemma PatchTwice<T>(s: seq<T>, off: nat, a: seq<T>, b: seq<T>)
    requires off + |a| + |b| <= |s|
    ensures Patch(Patch(s, off, a), off + |a|, b) == Patch(s, off, a + b)
  {
  }

  /** The data block that holds bytes `512*k ..` of the file. */
  function DataId(ino: Inode, d: Disk, k: nat): (id: nat)
    requires Shaped(ino) && k < DataBlocks(ino.size)
  {
    TotalForMonotone(k + 1, DataBlocks(ino.size));
    Owned(ino, d)[DataPos(k)]
  }

  function BlockAt(d: Disk, id: nat): (b: Block) {
    if id in d then d[id] else ZeroBlock
  }

  /** All bytes of all data blocks of the file, the slack after its end included. */
  function Flat(ino: Inode, d: Disk): (s: seq<Byte>)
    requires Shaped(ino)
    ensures |s| == BLOCK_SZ * DataBlocks(ino.size) >= ino.size
  {
    seq(BLOCK_SZ * DataBlocks(ino.size),
        i requires 0 <= i < BLOCK_SZ * DataBlocks(ino.size) => BlockAt(d, DataId(ino, d, i / BLOCK_SZ))[i % BLOCK_SZ])
  }

  lemma FlatAt(ino: Inode, d: Disk, i: nat)
    requires Tree(ino, d) && i < BLOCK_SZ * DataBlocks(ino.size)
    ensures var id := DataId(ino, d, i / BLOCK_SZ); id in d && Flat(ino, d)[i] == d[id][i % BLOCK_SZ]
  {
    hide SlotId;
    TotalForMonotone(i / BLOCK_SZ + 1, DataBlocks(ino.size));
  }

  /** Bytes of the file that lie in one block. */
  lemma ChunkOfBlock(ino: Inode, d: Disk, start: nat, len: nat)
    requires Tree(ino, d) && 0 < len && start + len <= ino.size && start % BLOCK_SZ + len <= BLOCK_SZ
    ensures start / BLOCK_SZ < DataBlocks(ino.size)
    ensures var id := DataId(ino, d, start / BLOCK_SZ);
            id in d && Flat(ino, d)[start..start + len] == d[id][start % BLOCK_SZ..start % BLOCK_SZ + len]
  {
    hide Tree, Owned, Flat, DataId;
    TreeShaped(ino, d);
    var q := start / BLOCK_SZ;
    FlatAt(ino, d, start);
    var a := Flat(ino, d)[start..start + len];
    var b := d[DataId(ino, d, q)][start % BLOCK_SZ..start % BLOCK_SZ + len];
    forall j | 0 <= j < len ensures a[j] == b[j] {
      assert start + j == q * BLOCK_SZ + (start % BLOCK_SZ + j);
      FlatAt(ino, d, start + j);
    }
  }

  /** The file as a byte sequence. */
  function Contents(ino: Inode, d: Disk): (s: seq<Byte>)
    requires Shaped(ino)
    ensures |s| == ino.size
  {
    Flat(ino, d)[..ino.size]
  }

  /** The bytes a read of `len` bytes at `offset` returns. */
  function FileRead(f: seq<Byte>, offset: nat, len: nat): (r: seq<Byte>)
    ensures |r| <= len
    ensures forall k | 0 <= k < |r| :: offset + k < |f| && r[k] == f[offset + k]
    ensures |r| < len ==> offset + |r| >= |f|
  {
    if offset >= |f| then [] else if offset + len <= |f| then f[offset..offset + len] else f[offset..]
  }

  lemma DataIdsDistinct(ino: Inode, d: Disk, j: nat, k: nat)
    requires Tree(ino, d) && j < DataBlocks(ino.size) && k < DataBlocks(ino.size) && j != k
    ensures DataId(ino, d, j) != DataId(ino, d, k)
  {
    if j < k { DataPosInjective(j, k); } else { DataPosInjective(k, j); }
  }

  /** Slots that only differ in blocks that hold no pointers read the same. */
  lemma {:induction false} SlotFrame(ino: Inode, d: Disk, e: Disk, p: nat)
    requires |ino.direct| == INODE_DIRECT_COUNT && p < MAX_TOTAL
    requires forall q | 0 <= q < p && IsPtr(q) :: BlockAt(e, SlotId(ino, d, q)) == BlockAt(d, SlotId(ino, d, q))
    ensures SlotId(ino, e, p) == SlotId(ino, d, p)
  {
    hide Word;
    if InBlock(p) {
      SlotFrame(ino, d, e, Parent(p));
      var s := SlotId(ino, d, Parent(p));
      assert BlockAt(e, s) == BlockAt(d, s);
      ZeroWords(Index(p));
    }
  }

  lemma OwnedFrame(ino: Inode, d: Disk, e: Disk)
    requires Shaped(ino)
    requires forall q | 0 <= q < |Owned(ino, d)| && IsPtr(q) :: BlockAt(e, Owned(ino, d)[q]) == BlockAt(d, Owned(ino, d)[q])
    ensures Owned(ino, e) == Owned(ino, d)
  {
    forall p | 0 <= p < |Owned(ino, d)| ensures Owned(ino, e)[p] == Owned(ino, d)[p] {
      forall q | 0 <= q < p && IsPtr(q) ensures BlockAt(e, SlotId(ino, d, q)) == BlockAt(d, SlotId(ino, d, q)) {
        assert Owned(ino, d)[q] == SlotId(ino, d, q);
      }
      SlotFrame(ino, d, e, p);
    }
  }

  /** Overwriting a data block does not disturb the tree. */
  lemma DataWriteKeepsTree(ino: Inode, d: Disk, k: nat, b: Block)
    requires Tree(ino, d) && k < DataBlocks(ino.size)
    ensures Owned(ino, d[DataId(ino, d, k) := b]) == Owned(ino, d)
    ensures Tree(ino, d[DataId(ino, d, k) := b])
  {
    hide SlotId;
    var e := d[DataId(ino, d, k) := b];
    TotalForMonotone(k + 1, DataBlocks(ino.size));
    OwnedFrame(ino, d, e);
  }

  /** Overwriting part of a data block patches the file there. */
  lemma DataWritePatches(ino: Inode, d: Disk, start: nat, src: seq<Byte>)
    requires Tree(ino, d) && start / BLOCK_SZ < DataBlocks(ino.size) && start % BLOCK_SZ + |src| <= BLOCK_SZ
    ensures var id := DataId(ino, d, start / BLOCK_SZ);
            id in d && Flat(ino, d[id := Patch(d[id], start % BLOCK_SZ, src)]) == Patch(Flat(ino, d), start, src)
  {
    hide SlotId;
    var k := start / BLOCK_SZ;
    var id := DataId(ino, d, k);
    TotalForMonotone(k + 1, DataBlocks(ino.size));
    var b := Patch(d[id], start % BLOCK_SZ, src);
    var e := d[id := b];
    DataWriteKeepsTree(ino, d, k, b);
    var f, g := Flat(ino, e), Patch(Flat(ino, d), start, src);
    forall i | 0 <= i < |f| ensures f[i] == g[i] {
      var j := i / BLOCK_SZ;
      if j != k { DataIdsDistinct(ino, d, j, k); }
    }
  }

  /** Disk `e` is disk `d` after the bytes of the file from `off` were overwritten by `src`: the file keeps its
      blocks, and no block of any other file changed. */
  ghost predicate Written(ino: Inode, d: Disk, e: Disk, off: nat, src: seq<Byte>) {
    && Tree(ino, d) && Tree(ino, e)
    && Owned(ino, e) == Owned(ino, d)
    && AgreeOutside(d, e, Elems(Owned(ino, d)))
    && (forall q | 0 <= q < |Owned(ino, d)| && IsPtr(q) :: BlockAt(e, Owned(ino, d)[q]) == BlockAt(d, Owned(ino, d)[q]))
    && off + |src| <= |Flat(ino, d)|
    && Flat(ino, e) == Patch(Flat(ino, d), off, src)
  }

  lemma WrittenNothing(ino: Inode, d: Disk, off: nat)
    requires Tree(ino, d) && off <= BLOCK_SZ * DataBlocks(ino.size)
    ensures Written(ino, d, d, off, [])
  {
    hide Tree, Owned, Flat;
    TreeShaped(ino, d);
    assert Flat(ino, d) == Patch(Flat(ino, d), off, []);
  }

  lemma WrittenMore(ino: Inode, d: Disk, e: Disk, f: Disk, off: nat, a: seq<Byte>, b: seq<Byte>)
    requires Written(ino, d, e, off, a) && Written(ino, e, f, off + |a|, b)
    ensures Written(ino, d, f, off, a + b)
  {
    hide Tree, Owned, Flat, Elems, Patch;
    TreeShaped(ino, d);
    PatchTwice(Flat(ino, d), off, a, b);
  }
}
