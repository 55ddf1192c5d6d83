/** `ext2_format_device`: what it writes to each group, and when the result is a consistent file system. */
module Ext2Format {
  import opened Bytes
  import opened Bits
  import opened Device
  import opened Ext2Layout

  // ----- bit patterns -----

  lemma {:induction false} ComplementBits(b: nat, n: nat, k: nat)
    requires b < Pow2(n) && k < n
    ensures Bit(Pow2(n) - 1 - b, k) == !Bit(b, k)
    decreases k
  {
    assert (Pow2(n) - 1 - b) / 2 == Pow2(n - 1) - 1 - b / 2;
    if k > 0 {
      ComplementBits(b / 2, n - 1, k - 1);
    }
  }

  lemma {:induction false} Pow2Grows(m: nat, n: nat)
    requires m <= n
    ensures Pow2(m) <= Pow2(n)
    decreases n
  {
    if m < n {
      Pow2Grows(m, n - 1);
    }
  }

  /** The byte whose bits below `k` are clear and whose others are set. */
  lemma {:induction false} HighByte(k: nat, j: nat)
    requires k <= 8 && j < 8
    ensures 0 <= 256 - Pow2(k) < 256 && Bit(256 - Pow2(k), j) == (j >= k)
  {
    assert Pow2(8) == 256;
    Pow2Grows(k, 8);
    OnesBits(k, j);
    ComplementBits(Pow2(k) - 1, 8, j);
  }

  /** `b <<= 1; b += 1;` on a byte: the top bit is lost. */
  function ShiftOne(b: byte): (r: byte) { if b < 128 then 2 * b as int + 1 else 2 * b as int - 255 }

  /** The same, `k` times. */
  function Shifted(b: byte, k: nat): (r: byte)
    decreases k
  {
    if k == 0 then b else ShiftOne(Shifted(b, k - 1))
  }

  /** Shifting ones into a byte that starts with `m` of them gives more of them, until it is full. */
  lemma {:induction false} ShiftedOnes(m: nat, k: nat)
    requires m <= 8
    ensures Pow2(m) - 1 < 256 && Shifted(Pow2(m) - 1, k) == Pow2(if m + k <= 8 then m + k else 8) - 1
    decreases k
  {
    assert Pow2(8) == 256;
    Pow2Grows(m, 8);
    if k > 0 {
      ShiftedOnes(m, k - 1);
      if m + k <= 8 {
        Pow2Grows(m + k, 8);
        assert Pow2(m + k) == 2 * Pow2(m + k - 1);
      }
    }
  }

  // ----- the counts and the bitmaps -----

  /** `bg_free_blocks_count` of group `g`: the subtraction for the last group is unsigned and cut to 16 bits. */
  function FreeOf(n: nat, g: nat): (f: nat)
    ensures f < 0x1_0000
  {
    if (g + 1) * 8192 > n then (n - g * 8192 - 214 - 4 - 1) % 0x1_0000 else 8192 - 214 - 4
  }

  /** Bits below `m` set, and no others. */
  ghost predicate LowSet(bm: Block, m: nat) { forall x :: 0 <= x < 8192 ==> BitAt(bm, x) == (x < m) }

  /** Bits of `[lo, hi)` clear, and no others. */
  ghost predicate ClearBetween(bm: Block, lo: nat, hi: nat) {
    forall x :: 0 <= x < 8192 ==> BitAt(bm, x) == !(lo <= x < hi)
  }

  datatype Padded = OutOfBounds | Padded(bm: Block)

  /** The padding of the last group's bitmap, from the count of blocks in use or free; the byte index is not
      checked against the 1024-byte array. */
  function Pad(bm: Block, total: nat): (r: Padded) {
    if total / 8 >= 1024 then OutOfBounds
    else Padded(bm[..total / 8] + [255 - Shifted(bm[total / 8], total % 8)] + seq(1023 - total / 8, _ => 255))
  }

  /** The bits after padding, when the byte at the break holds `m` ones. */
  lemma {:induction false} PadBits(bm: Block, total: nat, m: nat, x: nat)
    requires total / 8 < 1024 && m <= 8 && bm[total / 8] == Pow2(m) - 1 && x < 8192
    ensures var k := m + total % 8;
      Pad(bm, total).Padded? && BitAt(Pad(bm, total).bm, x) ==
      if x / 8 < total / 8 then BitAt(bm, x) else if x / 8 == total / 8 then x % 8 >= k else true
  {
    var b, k := total / 8, m + total % 8;
    ShiftedOnes(m, total % 8);
    assert Pow2(8) == 256;
    if x / 8 == b {
      HighByte(if k <= 8 then k else 8, x % 8);
    } else if x / 8 > b {
      HighByte(0, x % 8);
    }
  }

  lemma {:induction false} LowSetByte(bm: Block, i: nat)
    requires LowSet(bm, 218) && 27 <= i < 1024
    ensures bm[i] == if i == 27 then 3 else 0
  {
    var want := if i == 27 then Pow2(2) - 1 else Pow2(0) - 1;
    assert Pow2(8) == 256 && Pow2(2) == 4;
    forall k | 0 <= k < 8 ensures Bit(bm[i], k) == Bit(want, k) {
      assert BitAt(bm, 8 * i + k) == (8 * i + k < 218);
      OnesBits(if i == 27 then 2 else 0, k);
    }
    SameBits(bm[i], want, 8);
  }

  /** The padded bitmap of the last group of a disk with remainder `r >= 225`: free are exactly the bits between
      the metadata and the end of the disk. */
  lemma {:induction false} PadGood(bm: Block, r: nat)
    requires LowSet(bm, 218) && 225 <= r <= 8192
    ensures Pad(bm, r - 1).Padded?
    ensures ClearBetween(Pad(bm, r - 1).bm, 218, r - 1)
    ensures Free(Pad(bm, r - 1).bm) == r - 219
  {
    var p := Pad(bm, r - 1).bm;
    LowSetByte(bm, (r - 1) / 8);
    forall x | 0 <= x < 8192 ensures BitAt(p, x) == !(218 <= x < r - 1) {
      PadBits(bm, r - 1, 0, x);
      assert BitAt(bm, x) == (x < 218);
    }
    ZerosInterval(p, 218, r - 1, 8 * |p|);
  }

  lemma {:induction false} PadBad(bm: Block, r: nat)
    requires LowSet(bm, 218) && 219 <= r < 225
    ensures Pad(bm, r - 1).Padded? && Free(Pad(bm, r - 1).bm) != r - 219
  {
    var p, k := Pad(bm, r - 1).bm, 2 + (r - 1) % 8;
    var hi := if k <= 8 then 216 + k else 224;
    LowSetByte(bm, 27);
    assert Pow2(2) == 4;
    forall x | 0 <= x < 8192 ensures BitAt(p, x) == !(216 <= x < hi) {
      PadBits(bm, r - 1, 2, x);
      assert BitAt(bm, x) == (x < 218);
    }
    ZerosInterval(p, 216, hi, 8 * |p|);
  }

  /** The number of groups that `ext2_format_device` works with: descriptors that do not fit in one block make it 51,
      whatever the size of the disk. */
  function GroupCount(n: nat): (g: nat)
    ensures g > 0
  {
    if 32 * (n / 8192 + 1) > 1024 then 51 else n / 8192 + 1
  }

  /** Blocks of the disk from the start of the last group on, in the 16 bits of the count. */
  function LastBlocks(n: nat): (r: nat)
    ensures r < 0x1_0000
  {
    (n - 8192 * (GroupCount(n) - 1)) % 0x1_0000
  }

  /** The disk ends inside the last group, and the last group's share of it, in 16 bits, is at least 225 blocks and no
      more than a whole group. */
  predicate PaddingFits(n: nat) { n < 8192 * GroupCount(n) && 225 <= LastBlocks(n) <= 8192 }

  /** For every disk size, the last group's bitmap comes out inside its array and with as many zero bits as its
      descriptor counts exactly when the padding fits. */
  lemma {:induction false} PaddingIsRight(n: nat, bm: Block)
    requires LowSet(bm, 218)
    ensures var f := FreeOf(n, GroupCount(n) - 1); var p := Pad(bm, f + 218);
      (p.Padded? && Free(p.bm) == f) <==> PaddingFits(n)
  {
    var r := LastBlocks(n);
    LastCounted(n);
    if n < 8192 * GroupCount(n) {
      if 225 <= r <= 8192 {
        PadGood(bm, r);
      } else if 219 <= r < 225 {
        PadBad(bm, r);
      }
    }
  }

  lemma LastCounted(n: nat)
    ensures var r := LastBlocks(n);
      FreeOf(n, GroupCount(n) - 1) ==
      if n >= 8192 * GroupCount(n) then 7974 else if r >= 219 then r - 219 else r + 65317
  {
  }

  /** Up to 32 groups, that is when the last group has at least 225 blocks. */
  lemma PaddingOfSmallDisks(n: nat)
    ensures n / 8192 < 32 ==> (PaddingFits(n) <==> n % 8192 >= 225)
  {
  }

  /** A disk of 256 MiB and 300 blocks: 51 groups, of which the last does not exist, and a break far outside the
      bitmap. */
  lemma {:induction false} LargeDiskPadsOutside(bm: Block)
    ensures GroupCount(262444) == 51 && !PaddingFits(262444) && FreeOf(262444, 50) == 49233
    ensures Pad(bm, 49233 + 218) == OutOfBounds
  {
    assert (262444 - 409600 - 219) % 0x1_0000 == 49233;
  }

  lemma LastFree(n: nat)
    ensures FreeOf(n, n / 8192) == if n % 8192 >= 219 then n % 8192 - 219 else n % 8192 + 65317
  {
  }

  // ----- building the bitmaps -----

  /** `setup_initial_block_bitmap` on a cleared bitmap. */
  method SetupBlockBitmap(tableLength: nat) returns (bm: Block)
    requires tableLength + 4 < 8192
    ensures LowSet(bm, tableLength + 4)
  {
    var full, rest := (tableLength + 4) / 8, (tableLength + 4) % 8;
    bm := Clear();
    for i := 0 to full
      invariant forall k :: 0 <= k < 1024 ==> bm[k] == if k < i then 255 else 0
    {
      bm := bm[i := 255];
    }
    var last := 0;
    for i := 0 to rest
      invariant 0 <= last < 256 && last == Pow2(i) - 1
    {
      ShiftedOnes(i, 1);
      assert Shifted(last, 1) == ShiftOne(Shifted(last, 0));
      last := ShiftOne(last);
    }
    bm := bm[full := last];
    forall x | 0 <= x < 8192 ensures BitAt(bm, x) == (x < tableLength + 4) {
      BitOfLow(bm, full, rest, x);
    }
  }

  function Clear(): (b: Block) ensures forall k :: 0 <= k < 1024 ==> b[k] == 0 { seq(1024, _ => 0) }

  lemma {:induction false} BitOfLow(bm: Block, full: nat, rest: nat, x: nat)
    requires full < 1024 && rest < 8 && x < 8192
    requires forall k :: 0 <= k < 1024 ==> bm[k] == if k < full then 255 else if k == full then Pow2(rest) - 1 else 0
    ensures BitAt(bm, x) == (x < 8 * full + rest)
  {
    assert Pow2(8) == 256 && Pow2(0) == 1;
    OnesBits(8, x % 8);
    OnesBits(rest, x % 8);
    OnesBits(0, x % 8);
  }

  /** The padding loops of `ext2_format_device`. */
  method PadLast(bm: Block, total: nat) returns (r: Block)
    requires total < 8192
    ensures Padded(r) == Pad(bm, total)
  {
    var breaking, empty := total / 8, total % 8;
    var b := bm[breaking];
    for j := 0 to empty
      invariant b == Shifted(bm[breaking], j)
    {
      b := ShiftOne(b);
    }
    r := bm[breaking := 255 - b];
    for j := breaking + 1 to 1024
      invariant forall k :: 0 <= k < 1024 ==>
        r[k] == if k < breaking then bm[k] else if k == breaking then 255 - b else if k < j then 255 else bm[k]
    {
      r := r[j := 255];
    }
    assert r == Pad(bm, total).bm;
  }

  /** `setup_initial_inode_bitmap`: the bits past the last inode are set. */
  method SetupInodeBitmap(inodesPerGroup: nat) returns (bm: Block)
    requires inodesPerGroup < 8192
    ensures ClearBetween(bm, 0, inodesPerGroup)
  {
    var low, rest := inodesPerGroup / 8, inodesPerGroup % 8;
    bm := Clear();
    var transition := 255;
    for i := 0 to rest
      invariant transition == 256 - Pow2(i) && 0 <= transition < 256
    {
      HighByte(i + 1, 0);
      transition := 2 * transition % 256;
    }
    bm := bm[low := transition];
    for i := low + 1 to 1024
      invariant forall k :: 0 <= k < 1024 ==> bm[k] == if k < low then 0 else if k == low then transition
        else if k < i then 255 else 0
    {
      bm := bm[i := 255];
    }
    forall x | 0 <= x < 8192 ensures BitAt(bm, x) == !(0 <= x < inodesPerGroup) {
      HighByte(8, x % 8);
      HighByte(rest, x % 8);
      HighByte(0, x % 8);
      assert Pow2(8) == 256 && Pow2(0) == 1;
    }
  }

  // ----- superblock and descriptors -----

  /** `fill_superblock`, the fields below byte 44: counts and sizes. */
  function SuperCounts(n: nat, freeBlocks: nat, freeInodes: nat): (sb: Block)
    requires Admissible(n) && freeBlocks < 0x1_0000_0000 && freeInodes < 0x1_0000_0000
  {
    var b0 := Put32(Clear(), 0, Groups(n) * 1712);
    var b1 := Put32(b0, 4, n);
    var b2 := Put32(b1, 8, 100);
    var b3 := Put32(b2, 12, freeBlocks);
    var b4 := Put32(b3, 16, freeInodes);
    var b5 := Put32(b4, 20, 1);
    var b6 := Put32(b5, 32, 8192);
    var b7 := Put32(b6, 36, 8192);
    Put32(b7, 40, 1712)
  }

  /** `fill_superblock`, the fields from byte 44 on. */
  function SuperRest(b: Block): (sb: Block)
    ensures OnlyAt(b, sb, 44, 980)
    ensures U16(sb, 54) == 32767 && U16(sb, 56) == 0xEF53 && U16(sb, 58) == 1 && U16(sb, 60) == 2
    ensures U32(sb, 72) == 10 && U32(sb, 76) == 1 && U32(sb, 84) == 11 && U16(sb, 88) == 128
  {
    var b0 := Put16(b, 54, 32767);
    var b1 := Put16(b0, 56, 0xEF53);
    var b2 := Put16(b1, 58, 1);
    var b3 := Put16(b2, 60, 2);
    var b4 := Put32(b3, 72, 10);
    var b5 := Put32(b4, 76, 1);
    var b6 := Put32(b5, 84, 11);
    Put16(b6, 88, 128)
  }

  function SuperOf(n: nat, freeBlocks: nat, freeInodes: nat): (sb: Block)
    requires Admissible(n) && freeBlocks < 0x1_0000_0000 && freeInodes < 0x1_0000_0000
  {
    SuperRest(SuperCounts(n, freeBlocks, freeInodes))
  }

  /** Every field set reads back: counts and sizes first; then mount limit, magic number, state, error behaviour,
      creator, revision, first inode and inode size. */
  lemma {:induction false} SuperFields(n: nat, freeBlocks: nat, freeInodes: nat)
    requires Admissible(n) && freeBlocks < 0x1_0000_0000 && freeInodes < 0x1_0000_0000
    ensures var sb := SuperOf(n, freeBlocks, freeInodes);
      SbBlocks(sb) == n && SbFreeBlocks(sb) == freeBlocks && SbFreeInodes(sb) == freeInodes &&
      SbBlocksPerGroup(sb) == 8192 && SbInodesPerGroup(sb) == 1712 &&
      U32(sb, 0) == Groups(n) * 1712 && U32(sb, 8) == 100 && U32(sb, 20) == 1 && U32(sb, 36) == 8192 &&
      U16(sb, 54) == 32767 && U16(sb, 56) == 0xEF53 && SbState(sb) == 1 && U16(sb, 60) == 2 &&
      U32(sb, 72) == 10 && U32(sb, 76) == 1 && U32(sb, 84) == 11 && U16(sb, 88) == 128
  {
    var c := SuperCounts(n, freeBlocks, freeInodes);
    assert SbBlocks(c) == n && SbFreeBlocks(c) == freeBlocks && SbFreeInodes(c) == freeInodes;
    assert SbBlocksPerGroup(c) == 8192 && SbInodesPerGroup(c) == 1712;
    assert U32(c, 0) == Groups(n) * 1712 && U32(c, 8) == 100 && U32(c, 20) == 1 && U32(c, 36) == 8192;
  }

  /** `fill_block_group_descriptor` for group `g`. */
  function DescFilled(t: Block, n: nat, g: nat): (t': Block)
    requires g < 32
    ensures OnlyAt(t, t', 32 * g, 32)
    ensures BgBlockBitmap(t', g) == 8192 * g + 3 && BgInodeBitmap(t', g) == 8192 * g + 4 &&
      BgInodeTable(t', g) == 8192 * g + 5
    ensures BgFreeBlocks(t', g) == FreeOf(n, g) && BgFreeInodes(t', g) == 1712
    ensures BgUsedDirs(t', g) == BgUsedDirs(t, g)
  {
    var t1 := Put32(t, 32 * g, 8192 * g + 3);
    var t2 := Put32(t1, 32 * g + 4, 8192 * g + 4);
    var t3 := Put32(t2, 32 * g + 8, 8192 * g + 5);
    var t4 := Put16(t3, 32 * g + 12, FreeOf(n, g));
    Put16(t4, 32 * g + 14, 1712)
  }

  /** Descriptor `g` of a table with the first `count` filled. */
  ghost predicate DescRight(t: Block, n: nat, count: nat, g: nat)
    requires g < 32
  {
    BgUsedDirs(t, g) == 0 &&
    if g < count then
      BgBlockBitmap(t, g) == 8192 * g + 3 && BgInodeBitmap(t, g) == 8192 * g + 4 &&
      BgInodeTable(t, g) == 8192 * g + 5 &&
      BgFreeBlocks(t, g) == FreeOf(n, g) && BgFreeInodes(t, g) == 1712
    else BgBlockBitmap(t, g) == 0
  }

  ghost predicate TableRight(t: Block, n: nat, count: nat) { forall g :: 0 <= g < 32 ==> DescRight(t, n, count, g) }

  lemma {:induction false} OneMoreDesc(t: Block, n: nat, i: nat)
    requires i < 32 && TableRight(t, n, i)
    ensures TableRight(DescFilled(t, n, i), n, i + 1)
  {
    var t', c := DescFilled(t, n, i), i + 1;
    forall g | 0 <= g < 32 ensures DescRight(t', n, c, g) {
      assert DescRight(t, n, i, g);
      if g != i {
        OtherDesc(t, t', i, g);
      }
    }
  }

  lemma OtherDesc(t: Block, t': Block, i: nat, g: nat)
    requires i < 32 && g < 32 && g != i && OnlyAt(t, t', 32 * i, 32)
    ensures BgBlockBitmap(t', g) == BgBlockBitmap(t, g) && BgInodeBitmap(t', g) == BgInodeBitmap(t, g)
    ensures BgInodeTable(t', g) == BgInodeTable(t, g) && BgFreeBlocks(t', g) == BgFreeBlocks(t, g)
    ensures BgFreeInodes(t', g) == BgFreeInodes(t, g) && BgUsedDirs(t', g) == BgUsedDirs(t, g)
  {
  }

  /** The loop that fills the descriptor table, on a zeroed block. */
  method FillTable(n: nat) returns (t: Block)
    requires Admissible(n)
    ensures TableRight(t, n, Groups(n))
  {
    t := Clear();
    for i := 0 to Groups(n)
      invariant TableRight(t, n, i)
    {
      OneMoreDesc(t, n, i);
      t := DescFilled(t, n, i);
    }
  }

  /** The loop that adds up the free counts for the superblock. */
  method SumCounts(t: Block, groups: nat) returns (freeBlocks: nat, freeInodes: nat)
    requires groups <= 32
    ensures freeBlocks == SumFreeBlocks(t, groups) && freeInodes == SumFreeInodes(t, groups)
    ensures freeBlocks < 0x1_0000_0000 && freeInodes < 0x1_0000_0000
  {
    freeBlocks, freeInodes := 0, 0;
    for i := 0 to groups
      invariant freeBlocks == SumFreeBlocks(t, i) && freeInodes == SumFreeInodes(t, i)
      invariant freeBlocks <= 0x1_0000 * i && freeInodes <= 0x1_0000 * i
    {
      freeBlocks, freeInodes := freeBlocks + BgFreeBlocks(t, i), freeInodes + BgFreeInodes(t, i);
    }
  }

  /** The sum of what the descriptors call free, with the metadata and block 0, is the whole disk. */
  lemma {:induction false} FreeSum(t: Block, n: nat)
    requires Admissible(n) && TableRight(t, n, Groups(n))
    ensures SumFreeBlocks(t, Groups(n)) + 218 * Groups(n) + 1 == n
    ensures SumFreeInodes(t, Groups(n)) == 1712 * Groups(n)
  {
    FreeSumBelow(t, n, n / 8192);
    LastFree(n);
    assert DescRight(t, n, Groups(n), n / 8192);
  }

  lemma {:induction false} FreeSumBelow(t: Block, n: nat, k: nat)
    requires Admissible(n) && TableRight(t, n, Groups(n)) && k <= n / 8192
    ensures SumFreeBlocks(t, k) == 7974 * k && SumFreeInodes(t, k) == 1712 * k
    decreases k
  {
    if k > 0 {
      FreeSumBelow(t, n, k - 1);
      assert DescRight(t, n, Groups(n), k - 1);
    }
  }

  // ----- writing the groups -----

  /** What the format writes: superblock, descriptors, the bitmaps, and the inode table filled with the inode
      bitmap's bytes. */
  datatype Plan = Plan(sb: Block, table: Block, inodes: Block, blocks: Block, last: Block)

  /** The block that the plan puts at bit `x < 218` of group `g`. */
  function Planned(p: Plan, groups: nat, g: nat, x: nat): (b: Block) {
    if x == 0 then p.sb else if x == 1 then p.table
    else if x == 2 then (if g + 1 == groups then p.last else p.blocks)
    else p.inodes
  }

  /** `d` is `d0` with the metadata of the first `k` groups written. */
  ghost predicate Written(d0: seq<Block>, d: seq<Block>, p: Plan, groups: nat, k: nat) {
    |d| == |d0| && forall b :: 0 <= b < |d| ==> d[b] == WrittenAt(d0, p, groups, k, b)
  }

  ghost function WrittenAt(d0: seq<Block>, p: Plan, groups: nat, k: nat, b: nat): (r: Block)
    requires b < |d0|
  {
    if b > 0 && GroupOf(b) < k && BitOf(b) < 218 then Planned(p, groups, GroupOf(b), BitOf(b)) else d0[b]
  }

  /** One round of the group loop, from the cursor `curr`; it returns the cursor after the metadata. */
  method FormatGroup(dev: BlockDevice, curr: nat, p: Plan, groups: nat, g: nat) returns (next: nat)
    requires dev.Valid() && curr + 218 <= |dev.Blocks()|
    modifies dev`sectors
    ensures dev.Valid() && next == curr + 218 && |dev.Blocks()| == old(|dev.Blocks()|)
    ensures forall b :: 0 <= b < |dev.Blocks()| ==>
      dev.Blocks()[b] == if curr <= b < curr + 218 then Planned(p, groups, g, b - curr) else old(dev.Blocks()[b])
  {
    next := curr;
    dev.WriteBlock(next, p.sb);
    next := next + 1;
    dev.WriteBlock(next, p.table);
    next := next + 1;
    dev.WriteBlock(next, if g + 1 == groups then p.last else p.blocks);
    next := next + 1;
    dev.WriteBlock(next, p.inodes);
    next := next + 1;
    for j := 0 to 214
      invariant dev.Valid() && next == curr + 4 + j && |dev.Blocks()| == old(|dev.Blocks()|)
      invariant forall b :: 0 <= b < |dev.Blocks()| ==>
        dev.Blocks()[b] == if curr <= b < next then Planned(p, groups, g, b - curr) else old(dev.Blocks()[b])
    {
      dev.WriteBlock(next, p.inodes);
      next := next + 1;
    }
  }

  lemma {:induction false} WrittenMore(d0: seq<Block>, d: seq<Block>, d': seq<Block>, p: Plan, groups: nat, k: nat)
    requires Written(d0, d, p, groups, k) && |d'| == |d|
    requires forall b :: 0 <= b < |d| ==>
      d'[b] == if 8192 * k + 1 <= b < 8192 * k + 219 then Planned(p, groups, k, b - (8192 * k + 1)) else d[b]
    ensures Written(d0, d', p, groups, k + 1)
  {
    forall b | 0 <= b < |d'| ensures d'[b] == WrittenAt(d0, p, groups, k + 1, b) {
      assert d[b] == WrittenAt(d0, p, groups, k, b);
      if b > 0 {
        InGroupRange(b, k);
      }
    }
  }

  lemma InGroupRange(b: nat, k: nat)
    requires b > 0
    ensures GroupOf(b) == k && BitOf(b) < 218 <==> 8192 * k + 1 <= b < 8192 * k + 219
    ensures GroupOf(b) == k ==> BitOf(b) == b - (8192 * k + 1)
  {
  }

  /** The group loop: the running cursor meets every group at the address its descriptor records, and what is
      written is the metadata of every group and nothing else. */
  method WriteGroups(dev: BlockDevice, p: Plan)
    requires dev.Valid() && Admissible(|dev.Blocks()|) && TableRight(p.table, |dev.Blocks()|, Groups(|dev.Blocks()|))
    modifies dev`sectors
    ensures dev.Valid() && Written(old(dev.Blocks()), dev.Blocks(), p, Groups(|dev.Blocks()|), Groups(|dev.Blocks()|))
  {
    var n := |dev.sectors| / 2;
    ghost var d0 := dev.Blocks();
    var groups := Groups(n);
    var curr := 1;
    for i := 0 to groups
      invariant dev.Valid() && |dev.Blocks()| == n && (i < groups ==> curr == 8192 * i + 1)
      invariant Written(d0, dev.Blocks(), p, groups, i)
    {
      MetaOnDisk(n, i);
      ghost var d := dev.Blocks();
      curr := FormatGroup(dev, curr, p, groups, i);
      WrittenMore(d0, d, dev.Blocks(), p, groups, i);
      CursorMoves(p.table, n, i);
      curr := curr + BgFreeBlocks(p.table, i);
    }
  }

  lemma {:induction false} CursorMoves(t: Block, n: nat, i: nat)
    requires Admissible(n) && TableRight(t, n, Groups(n)) && i < Groups(n)
    ensures i + 1 < Groups(n) ==> 8192 * i + 219 + BgFreeBlocks(t, i) == 8192 * (i + 1) + 1
  {
    assert DescRight(t, n, Groups(n), i);
  }
}
