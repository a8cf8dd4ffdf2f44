/** Device blocks of easy-fs: 512 bytes, also read as 128 little-endian `u32` words
    (indirect blocks, inode records, the super block) and as 64 `u64` words (bitmaps). */
module Blocks {

  const BLOCK_SZ: nat := 512
  const WORDS: nat := 128
  const U32_LIMIT: nat := 0x1_0000_0000

  type Byte = x: int | 0 <= x < 256
  type Block = b: seq<Byte> | |b| == BLOCK_SZ witness ZeroBytes(BLOCK_SZ)
  /** A disk: the contents of every block of the device, by block id. */
  type Disk = map<nat, Block>

  function ZeroBytes(n: nat): (z: seq<Byte>)
    ensures |z| == n && forall i | 0 <= i < n :: z[i] == 0
  {
    seq(n, _ => 0)
  }

  const ZeroBlock: Block := ZeroBytes(BLOCK_SZ)

  /** The `k`-th little-endian u32 of a block. */
  function Word(b: Block, k: nat): (w: nat)
    requires k < WORDS
    ensures w < U32_LIMIT
  {
    var b0: int, b1: int, b2: int, b3: int := b[4 * k], b[4 * k + 1], b[4 * k + 2], b[4 * k + 3];
    b0 + 0x100 * b1 + 0x1_0000 * b2 + 0x100_0000 * b3
  }

  /** Storing a u32 changes that word, and no other word. */
  function PutWord(b: Block, k: nat, w: nat): (r: Block)
    requires k < WORDS && w < U32_LIMIT
    ensures forall j | 0 <= j < WORDS :: Word(r, j) == if j == k then w else Word(b, j)
  {
    var r := b[4 * k := w % 0x100][4 * k + 1 := w / 0x100 % 0x100]
              [4 * k + 2 := w / 0x1_0000 % 0x100][4 * k + 3 := w / 0x100_0000];
    BytesOfWord(w);
    r
  }

  lemma BytesOfWord(w: nat)
    requires w < U32_LIMIT
    ensures w / 0x100_0000 < 0x100
    ensures w == w % 0x100 + 0x100 * (w / 0x100 % 0x100)
                 + 0x1_0000 * (w / 0x1_0000 % 0x100) + 0x100_0000 * (w / 0x100_0000)
  {
    assert w / 0x1_0000 == w / 0x100 / 0x100;
    assert w / 0x100_0000 == w / 0x100 / 0x100 / 0x100;
  }

  lemma ZeroWords(k: nat)
    requires k < WORDS
    ensures Word(ZeroBlock, k) == 0
  {
  }

  /** A pointer read through the disk; 0 when the block does not exist. */
  function Ptr(d: Disk, id: nat, k: nat): (w: nat)
    requires k < WORDS
    ensures w < U32_LIMIT
  {
    if id in d then Word(d[id], k) else 0
  }

  ghost predicate AgreeOutside(d: Disk, e: Disk, ids: set<nat>) {
    d.Keys == e.Keys && forall id | id in d && id !in ids :: e[id] == d[id]
  }
}
