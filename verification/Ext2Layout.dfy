/** Where things are on a formatted disk, and the fields of its on-disk records. */
module Ext2Layout {
  import opened Bytes
  import opened Bits
  import opened Device

  const TABLE_LENGTH := 214
  /** Superblock, descriptor table, two bitmaps and the inode table. */
  const META_BLOCKS := 218

  // ----- superblock fields -----

  function SbBlocks(sb: Block): (v: nat) { U32(sb, 4) }
  function SbFreeBlocks(sb: Block): (v: nat) { U32(sb, 12) }
  function SbFreeInodes(sb: Block): (v: nat) { U32(sb, 16) }
  function SbBlocksPerGroup(sb: Block): (v: nat) { U32(sb, 32) }
  function SbInodesPerGroup(sb: Block): (v: nat) { U32(sb, 40) }
  function SbState(sb: Block): (v: nat) { U16(sb, 58) }

  // ----- descriptor table: 32 records of 32 bytes -----

  function BgBlockBitmap(t: Block, g: nat): (v: nat) requires g < 32 { U32(t, 32 * g) }
  function BgInodeBitmap(t: Block, g: nat): (v: nat) requires g < 32 { U32(t, 32 * g + 4) }
  function BgInodeTable(t: Block, g: nat): (v: nat) requires g < 32 { U32(t, 32 * g + 8) }
  function BgFreeBlocks(t: Block, g: nat): (v: nat) requires g < 32 { U16(t, 32 * g + 12) }
  function BgFreeInodes(t: Block, g: nat): (v: nat) requires g < 32 { U16(t, 32 * g + 14) }
  function BgUsedDirs(t: Block, g: nat): (v: nat) requires g < 32 { U16(t, 32 * g + 16) }

  // ----- the layout -----

  /** Number of groups of a disk with `n` blocks. */
  function Groups(n: nat): (g: nat) { n / 8192 + 1 }

  /** Sizes whose groups fit in one descriptor block and whose last group is large enough. */
  predicate Admissible(n: nat) { n / 8192 < 32 && n % 8192 >= 225 }

  /** The first block of group `g`. */
  function Base(g: nat): (b: nat) { 8192 * g + 1 }

  function GroupOf(block: nat): (g: nat) requires block > 0 { (block - 1) / 8192 }
  function BitOf(block: nat): (x: nat) requires block > 0 { (block - 1) % 8192 }

  /** Bit `x` of group `g` stands for this block. */
  function BlockAt(g: nat, x: nat): (block: nat) { 8192 * g + x + 1 }

  /** Block numbers and (group, bit) pairs name each other. */
  lemma BlockAtInverse(g: nat, x: nat, block: nat)
    requires x < 8192 && block > 0
    ensures GroupOf(BlockAt(g, x)) == g && BitOf(BlockAt(g, x)) == x
    ensures BlockAt(GroupOf(block), BitOf(block)) == block
  {
  }

  predicate IsMeta(block: nat) requires block > 0 { BitOf(block) < META_BLOCKS }

  /** A block that can hold file or directory data on a disk of `n` blocks. */
  predicate IsData(n: nat, block: nat) { 0 < block < n && !IsMeta(block) }

  /** The mounted file system as a value: the disk and the superblock copy in the mount context. */
  datatype Fs = Fs(disk: seq<Block>, sb: Block)

  predicate DescAddressed(t: Block, groups: nat, g: nat)
    requires g < 32
  {
    BgBlockBitmap(t, g) == (if g < groups then 8192 * g + 3 else 0) &&
    (g < groups ==> BgInodeBitmap(t, g) == 8192 * g + 4 && BgInodeTable(t, g) == 8192 * g + 5)
  }

  /** The descriptors of the first `groups` groups give the right addresses, and the rest are unused. */
  ghost predicate Addressed(t: Block, groups: nat) {
    forall g :: 0 <= g < 32 ==> DescAddressed(t, groups, g)
  }

  ghost predicate Laid(fs: Fs) {
    Admissible(|fs.disk|) && Addressed(fs.disk[2], Groups(|fs.disk|)) &&
    SbBlocksPerGroup(fs.sb) == 8192 && SbInodesPerGroup(fs.sb) == 1712
  }

  /** All metadata of every group lies on the disk. */
  lemma MetaOnDisk(n: nat, g: nat)
    requires Admissible(n) && g < Groups(n)
    ensures g < 32 && 8192 * g + 225 <= n
  {
  }

  function Desc(fs: Fs): (t: Block) requires |fs.disk| > 2 { fs.disk[2] }

  function BlockMap(fs: Fs, g: nat): (bm: Block)
    requires Admissible(|fs.disk|) && g < Groups(|fs.disk|)
  {
    fs.disk[8192 * g + 3]
  }

  function InodeMap(fs: Fs, g: nat): (bm: Block)
    requires Admissible(|fs.disk|) && g < Groups(|fs.disk|)
  {
    fs.disk[8192 * g + 4]
  }

  /** Sums of the per-group counts over the first `n` groups. */
  function SumFreeBlocks(t: Block, n: nat): (s: nat)
    requires n <= 32
    decreases n
  {
    if n == 0 then 0 else SumFreeBlocks(t, n - 1) + BgFreeBlocks(t, n - 1)
  }

  function SumFreeInodes(t: Block, n: nat): (s: nat)
    requires n <= 32
    decreases n
  {
    if n == 0 then 0 else SumFreeInodes(t, n - 1) + BgFreeInodes(t, n - 1)
  }

  /** Block accounting: bitmaps against descriptors against the superblock. */
  ghost predicate GroupCounted(fs: Fs, g: nat)
    requires Laid(fs) && g < Groups(|fs.disk|)
  {
    Free(BlockMap(fs, g)) == BgFreeBlocks(Desc(fs), g)
  }

  /** A zero bit always stands for a data block that exists. */
  ghost predicate FreeIsData(fs: Fs, g: nat)
    requires Laid(fs) && g < Groups(|fs.disk|)
  {
    forall x :: 0 <= x < 8192 && !BitAt(BlockMap(fs, g), x) ==> IsData(|fs.disk|, BlockAt(g, x))
  }

  ghost predicate BlocksCounted(fs: Fs) {
    Laid(fs) &&
    (forall g :: 0 <= g < Groups(|fs.disk|) ==> GroupCounted(fs, g) && FreeIsData(fs, g)) &&
    SumFreeBlocks(Desc(fs), Groups(|fs.disk|)) == SbFreeBlocks(fs.sb)
  }

  /** Whether the bitmaps call a block free. */
  predicate BlockFree(fs: Fs, block: nat)
    requires Admissible(|fs.disk|) && 0 < block && GroupOf(block) < Groups(|fs.disk|)
  {
    !BitAt(BlockMap(fs, GroupOf(block)), BitOf(block))
  }

  /** Descriptor `g` of two tables agrees except, perhaps, in its three counters. */
  ghost predicate SameAddresses(t: Block, t': Block) {
    forall g :: 0 <= g < 32 ==>
      BgBlockBitmap(t', g) == BgBlockBitmap(t, g) && BgInodeBitmap(t', g) == BgInodeBitmap(t, g) &&
      BgInodeTable(t', g) == BgInodeTable(t, g)
  }

  lemma {:induction false} LaidKept(fs: Fs, fs': Fs)
    requires Laid(fs) && |fs'.disk| == |fs.disk| && SameAddresses(Desc(fs), Desc(fs'))
    requires SbBlocksPerGroup(fs'.sb) == SbBlocksPerGroup(fs.sb) && SbInodesPerGroup(fs'.sb) == SbInodesPerGroup(fs.sb)
    ensures Laid(fs')
  {
    forall g | 0 <= g < 32 ensures DescAddressed(Desc(fs'), Groups(|fs.disk|), g) {
      assert DescAddressed(Desc(fs), Groups(|fs.disk|), g);
    }
  }
}
