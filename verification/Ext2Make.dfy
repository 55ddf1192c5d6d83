/** The whole of `ext2_format_device`: group metadata, mount, root and lost+found, unmount. */
module Ext2Make {
  import opened Bytes
  import opened Bits
  import opened Device
  import opened Ext2Layout
  import opened Ext2Mount
  import opened Ext2Blocks
  import opened Ext2Inodes
  import opened Ext2Dirs
  import opened Ext2Links
  import opened Ext2World
  import opened Ext2Kept
  import opened Ext2Format

  // ----- the disk after the group loop -----

  ghost predicate GoodPlan(p: Plan, n: nat) {
    Admissible(n) && TableRight(p.table, n, Groups(n)) && LowSet(p.blocks, 218) && ClearBetween(p.inodes, 0, 1712) &&
    Padded(p.last) == Pad(p.blocks, n % 8192 - 1) &&
    SbFreeBlocks(p.sb) == SumFreeBlocks(p.table, Groups(n)) &&
    SbFreeInodes(p.sb) == SumFreeInodes(p.table, Groups(n)) &&
    SbBlocksPerGroup(p.sb) == 8192 && SbInodesPerGroup(p.sb) == 1712
  }

  /** What the group loop leaves where the rest of the code looks for it. */
  lemma {:induction false} WrittenMeta(d0: seq<Block>, d: seq<Block>, p: Plan, g: nat)
    requires GoodPlan(p, |d0|) && Written(d0, d, p, Groups(|d0|), Groups(|d0|)) && g < Groups(|d0|)
    ensures 8192 * g + 225 <= |d| && d[8192 * g + 1] == p.sb && d[8192 * g + 2] == p.table
    ensures d[8192 * g + 3] == (if g + 1 == Groups(|d0|) then p.last else p.blocks) && d[8192 * g + 4] == p.inodes
  {
    MetaOnDisk(|d0|, g);
    WrittenOne(d0, d, p, Groups(|d0|), g, 0);
    WrittenOne(d0, d, p, Groups(|d0|), g, 1);
    WrittenOne(d0, d, p, Groups(|d0|), g, 2);
    WrittenOne(d0, d, p, Groups(|d0|), g, 3);
  }

  lemma {:induction false} WrittenOne(d0: seq<Block>, d: seq<Block>, p: Plan, groups: nat, g: nat, x: nat)
    requires Written(d0, d, p, groups, groups) && g < groups && x < 218 && 8192 * g + 1 + x < |d|
    ensures d[8192 * g + 1 + x] == Planned(p, groups, g, x)
  {
    var b := 8192 * g + 1 + x;
    InGroupRange(b, g);
    assert d[b] == WrittenAt(d0, p, groups, groups, b);
  }

  /** Zero bits are exactly the data blocks on the disk. */
  ghost predicate CoversData(bm: Block, n: nat, g: nat) {
    forall x :: 0 <= x < 8192 ==> (!BitAt(bm, x) <==> IsData(n, BlockAt(g, x)))
  }

  /** The end of the data bits of group `g`. */
  function DataEnd(n: nat, g: nat): (hi: int) { if g + 1 == Groups(n) then n % 8192 - 1 else 8192 }

  lemma {:induction false} DataRange(n: nat, g: nat, x: nat)
    requires Admissible(n) && g < Groups(n) && x < 8192
    ensures IsData(n, BlockAt(g, x)) <==> 218 <= x < DataEnd(n, g)
  {
    var b, q, r := BlockAt(g, x), n / 8192, n % 8192;
    assert BitOf(b) == x by { BlockAtInverse(g, x, 1); }
    InRange(q, r, g, x);
    assert n == 8192 * q + r;
  }

  lemma InRange(q: nat, r: nat, g: nat, x: nat)
    requires 225 <= r && g <= q && x < 8192
    ensures 8192 * g + x + 1 < 8192 * q + r <==> x < if g == q then r - 1 else 8192
  {
  }

  /** The bitmap of every group, padded or not, counts and covers exactly the data blocks on the disk. */
  lemma {:induction false} PlannedMaps(p: Plan, n: nat, g: nat)
    requires GoodPlan(p, n) && g < Groups(n)
    ensures var bm := if g + 1 == Groups(n) then p.last else p.blocks;
      Free(bm) == BgFreeBlocks(p.table, g) && CoversData(bm, n, g)
  {
    var bm, hi := if g + 1 == Groups(n) then p.last else p.blocks, DataEnd(n, g);
    PlannedClear(p, n, g);
    ZerosInterval(bm, 218, hi, 8 * |bm|);
    forall x | 0 <= x < 8192 ensures !BitAt(bm, x) <==> IsData(n, BlockAt(g, x)) {
      DataRange(n, g, x);
    }
  }

  lemma {:induction false} PlannedClear(p: Plan, n: nat, g: nat)
    requires GoodPlan(p, n) && g < Groups(n)
    ensures var bm := if g + 1 == Groups(n) then p.last else p.blocks;
      ClearBetween(bm, 218, DataEnd(n, g)) && BgFreeBlocks(p.table, g) == DataEnd(n, g) - 218
  {
    PadGood(p.blocks, n % 8192);
    LastFree(n);
    assert DescRight(p.table, n, Groups(n), g);
  }

  /** After the group loop all bitmaps, descriptors and the superblock agree; there are no directories yet. */
  lemma {:induction false} FormattedIsConsistent(d0: seq<Block>, d: seq<Block>, p: Plan)
    requires GoodPlan(p, |d0|) && Written(d0, d, p, Groups(|d0|), Groups(|d0|))
    ensures Inv(World(Fs(d, p.sb), [], {}))
  {
    var fs, G := Fs(d, p.sb), Groups(|d0|);
    WrittenMeta(d0, d, p, 0);
    var t := p.table;
    forall g | 0 <= g < 32 ensures DescAddressed(t, G, g) {
      assert DescRight(t, |d0|, G, g);
    }
    assert Laid(fs);
    forall g | 0 <= g < G ensures GroupCounted(fs, g) && FreeIsData(fs, g) && InodeGroupCounted(fs, g) {
      FormattedGroup(d0, d, p, g);
    }
  }

  lemma {:induction false} FormattedGroup(d0: seq<Block>, d: seq<Block>, p: Plan, g: nat)
    requires GoodPlan(p, |d0|) && Written(d0, d, p, Groups(|d0|), Groups(|d0|)) && g < Groups(|d0|)
    requires Laid(Fs(d, p.sb)) && d[2] == p.table
    ensures var fs := Fs(d, p.sb); GroupCounted(fs, g) && FreeIsData(fs, g) && InodeGroupCounted(fs, g)
  {
    WrittenMeta(d0, d, p, g);
    PlannedMaps(p, |d0|, g);
    ZerosInterval(p.inodes, 0, 1712, 8 * |p.inodes|);
    assert DescRight(p.table, |d0|, Groups(|d0|), g);
  }

  // ----- descriptors against the cursor -----

  /** Blocks that the cursor writes for group `g`. */
  predicate InRegion(g: nat, b: nat) { Base(g) <= b < Base(g) + META_BLOCKS }

  /** The regions of different groups share no block, and together they are exactly the blocks, the first one aside,
      that are not data. */
  lemma {:induction false} RegionsApart(n: nat, g: nat, h: nat, b: nat)
    requires Admissible(n)
    ensures InRegion(g, b) && InRegion(h, b) ==> g == h
    ensures InRegion(g, b) ==> !IsData(n, b)
    ensures 0 < b < n && !IsData(n, b) ==> InRegion(GroupOf(b), b) && GroupOf(b) < Groups(n)
  {
    if b > 0 {
      InGroupRange(b, g);
      InGroupRange(b, h);
      InGroupRange(b, GroupOf(b));
      GroupInRange(n, b);
    }
  }

  lemma GroupInRange(n: nat, b: nat)
    requires 0 < b
    ensures b < n ==> GroupOf(b) < Groups(n)
  {
  }

  /** What the descriptor of group `g` points to is what the cursor wrote there: its block bitmap, its inode bitmap,
      and each block of its inode table. */
  lemma {:induction false} DescriptorsMeetCursor(d0: seq<Block>, d: seq<Block>, p: Plan, g: nat, k: nat)
    requires GoodPlan(p, |d0|) && Written(d0, d, p, Groups(|d0|), Groups(|d0|)) && g < Groups(|d0|) && k < TABLE_LENGTH
    ensures g < 32 && BgInodeTable(p.table, g) + k < |d| &&
      BgBlockBitmap(p.table, g) < BgInodeBitmap(p.table, g) < BgInodeTable(p.table, g)
    ensures d[BgBlockBitmap(p.table, g)] == (if g + 1 == Groups(|d0|) then p.last else p.blocks)
    ensures d[BgInodeBitmap(p.table, g)] == p.inodes && d[BgInodeTable(p.table, g) + k] == p.inodes
    ensures InRegion(g, BgBlockBitmap(p.table, g)) && InRegion(g, BgInodeBitmap(p.table, g)) &&
      InRegion(g, BgInodeTable(p.table, g) + k)
  {
    MetaOnDisk(|d0|, g);
    assert DescRight(p.table, |d0|, Groups(|d0|), g);
    WrittenOne(d0, d, p, Groups(|d0|), g, 2);
    WrittenOne(d0, d, p, Groups(|d0|), g, 3);
    WrittenOne(d0, d, p, Groups(|d0|), g, 4 + k);
  }

  /** Writing inode 12 of a freshly formatted disk, without allocating it, breaks the accounting. */
  lemma {:induction false} WriteBeforeAllocating(d0: seq<Block>, d: seq<Block>, p: Plan, inode: Inode)
    requires GoodPlan(p, |d0|) && Written(d0, d, p, Groups(|d0|), Groups(|d0|))
    ensures var fs := Fs(d, p.sb);
      InodesCounted(fs) && InodeExists(|d|, 12) && !InodesCounted(InodeWritten(fs, 12, inode))
  {
    FormattedIsConsistent(d0, d, p);
    WrittenMeta(d0, d, p, 0);
    WriteKeepsAccounting(Fs(d, p.sb), 12, inode);
  }

  // ----- mount and unmount -----

  /** A superblock whose counts and sizes are those of another. */
  ghost predicate SameSuper(sb: Block, sb': Block) {
    SbFreeBlocks(sb') == SbFreeBlocks(sb) && SbFreeInodes(sb') == SbFreeInodes(sb) &&
    SbBlocksPerGroup(sb') == SbBlocksPerGroup(sb) && SbInodesPerGroup(sb') == SbInodesPerGroup(sb)
  }

  lemma StateField(sb: Block, v: nat)
    requires v < 0x1_0000
    ensures SameSuper(sb, Put16(sb, 58, v)) && SbState(Put16(sb, 58, v)) == v
  {
  }

  /** Writing block 1 disturbs nothing. */
  lemma SuperWriteKeeps(fs: Fs, x: Block, sb': Block)
    requires Laid(fs) && SameSuper(fs.sb, sb')
    ensures var fs' := Fs(fs.disk[1 := x], sb');
      Laid(fs') && Desc(fs') == Desc(fs) && forall g :: 0 <= g < Groups(|fs.disk|) ==>
        BlockMap(fs', g) == BlockMap(fs, g) && InodeMap(fs', g) == InodeMap(fs, g)
  {
  }

  lemma {:induction false} SuperWriteInv(w: World, x: Block, sb': Block)
    requires Inv(w) && SameSuper(w.fs.sb, sb')
    ensures var w' := World(Fs(w.fs.disk[1 := x], sb'), w.dirs, w.live);
      Inv(w') && Listings(w') == Listings(w) && Taken(w.fs, w'.fs, [])
  {
    var fs' := Fs(w.fs.disk[1 := x], sb');
    SuperWriteKeeps(w.fs, x, sb');
    forall g | 0 <= g < Groups(|w.fs.disk|) ensures GroupCounted(fs', g) && FreeIsData(fs', g) &&
      InodeGroupCounted(fs', g) {
      assert GroupCounted(w.fs, g) && FreeIsData(w.fs, g) && InodeGroupCounted(w.fs, g);
    }
    SuperWriteUndisturbed(w.fs, x, sb', w.live);
    LinksUndisturbed(w, fs');
    SameMapsTakeNothing(w.fs, fs');
  }

  lemma {:induction false} SuperWriteUndisturbed(fs: Fs, x: Block, sb': Block, live: set<nat>)
    requires Laid(fs) && SameSuper(fs.sb, sb')
    ensures Laid(Fs(fs.disk[1 := x], sb')) && Undisturbed(fs, Fs(fs.disk[1 := x], sb'), live)
  {
    var fs' := Fs(fs.disk[1 := x], sb');
    SuperWriteKeeps(fs, x, sb');
    forall n | n in live && InodeExists(|fs.disk|, n) && InodeAllocated(fs, n)
      ensures InodeAllocated(fs', n) && InodeSlot(fs', n) == InodeSlot(fs, n)
    {
      TableOnDisk(|fs.disk|, n);
    }
  }

  /** `ext2_mount_device`: the superblock is marked as in use, on disk too. */
  method MountDevice(dev: BlockDevice) returns (mnt: Mount)
    requires dev.Valid() && |dev.Blocks()| > 1
    modifies dev`sectors
    ensures fresh(mnt) && mnt.device == dev && dev.Valid()
    ensures mnt.superblock == Put16(old(dev.Blocks())[1], 58, 2)
    ensures dev.Blocks() == old(dev.Blocks())[1 := mnt.superblock]
  {
    var sb := dev.ReadBlock(1);
    sb := Put16(sb, 58, 2);
    dev.WriteBlock(1, sb);
    mnt := new Mount(dev, sb);
  }

  /** `ext2_unmount_device`: the superblock goes back to disk marked valid, and the context is cleared. */
  method UnmountDevice(mnt: Mount)
    requires mnt.device.Valid() && |mnt.device.Blocks()| > 1
    modifies mnt, mnt.device`sectors
    ensures mnt.device.Valid()
    ensures mnt.device.Blocks() == old(mnt.device.Blocks())[1 := Put16(old(mnt.superblock), 58, 1)]
  {
    mnt.superblock := Put16(mnt.superblock, 58, 1);
    mnt.device.WriteBlock(1, mnt.superblock);
    mnt.superblock := Clear();
  }

  // ----- the next free block -----

  /** Every block up to `x` is taken and the `m` after it are free. */
  ghost predicate NextFree(fs: Fs, x: nat, m: nat)
    requires Admissible(|fs.disk|)
  {
    x + m < 8192 && (forall b :: 0 < b <= x ==> !BlockFree(fs, b)) && (forall b :: x < b <= x + m ==> BlockFree(fs, b))
  }

  lemma {:induction false} PickLeast(bm: seq<byte>, j: nat, x: nat)
    requires j <= |bm| && 8 * j <= x < 8 * |bm| && !BitAt(bm, x)
    requires forall y {:trigger BitAt(bm, y)} :: 8 * j <= y < x ==> BitAt(bm, y)
    ensures Picks(bm, j, 1) == [x]
    decreases |bm| - j
  {
    FullByte(bm[j]);
    if x / 8 == j {
      assert !Bit(bm[j], x % 8);
      var k := FirstZero(bm[j]);
      assert BitAt(bm, 8 * j + k) == Bit(bm[j], k);
      assert Picks(bm, j + 1, 0) == [];
    } else {
      forall k | 0 <= k < 8 ensures Bit(bm[j], k) {
        assert BitAt(bm, 8 * j + k);
      }
      PickLeast(bm, j + 1, x);
    }
  }

  /** A request for one block gets the lowest free block. */
  lemma {:induction false} GrantsLowest(fs: Fs, x: nat)
    requires BlocksCounted(fs) && NextFree(fs, x, 1)
    ensures Search(fs, 1, 0) == Granted(0, [x]) && Search(fs, 1, 0).Blocks() == [x + 1]
  {
    var bm := BlockMap(fs, 0);
    assert BlockFree(fs, x + 1);
    forall y | 0 <= y < x ensures BitAt(bm, y) {
      assert !BlockFree(fs, y + 1);
    }
    PickLeast(bm, 0, x);
    ZerosPositive(bm, x, 8 * |bm|);
    assert GroupCounted(fs, 0);
    assert DescAddressed(Desc(fs), Groups(|fs.disk|), 0);
  }

  // ----- the directories -----

  /** `create_dir_inode` with its first block set. */
  function DirInode(b: nat): (i: Inode)
    requires b < 0x1_0000_0000
    ensures LinksCount(i) == 0 && FirstBlock(i) == b
  {
    var i0 := Put16(NoInode(), 0, 0x4000 + 0x1FF);
    var i1 := Put32(i0, 4, 1024);
    var i2 := Put32(i1, 28, 2);
    Put32(i2, 40, b)
  }

  /** The 128 bytes of a directory inode: mode 0x41FF, size 1024, a link count, two sectors, one block, and zeros. */
  ghost predicate DirBytes(i: seq<byte>, links: nat, block: nat)
    requires |i| == 128
  {
    U16(i, 0) == 0x41FF && U32(i, 4) == 1024 && U16(i, 26) == links && U32(i, 28) == 2 && U32(i, 40) == block &&
    forall k :: 0 <= k < 128 && !(k < 2 || 4 <= k < 8 || 26 <= k < 32 || 40 <= k < 44) ==> i[k] == 0
  }

  lemma DirInodeBytes(b: nat)
    requires b < 0x1_0000_0000
    ensures DirBytes(DirInode(b), 0, b)
  {
  }

  lemma {:induction false} BumpedDir(i: Inode, links: nat, block: nat)
    requires DirBytes(i, links, block) && links < 100
    ensures DirBytes(Bumped(i), links + 1, block)
  {
    BumpedBytes(i);
  }

  /** Data blocks and inode bits look the same in both states. */
  ghost predicate SameContents(fs: Fs, fs': Fs)
    requires Admissible(|fs.disk|) && |fs'.disk| == |fs.disk|
  {
    (forall b: nat :: IsData(|fs.disk|, b) ==> fs'.disk[b] == fs.disk[b]) &&
    (forall m: nat :: InodeExists(|fs.disk|, m) ==> InodeAllocated(fs', m) == InodeAllocated(fs, m))
  }

  /** Where a new directory gets its block. */
  ghost predicate CanMakeDir(w: World, n: nat, x: nat) {
    Inv(w) && InodeExists(|w.fs.disk|, n) && InodeAllocated(w.fs, n) && n !in w.live &&
    NextFree(w.fs, x, 1) && x + 1 < |w.fs.disk| && U32(w.fs.disk[x + 1], 0) == 0
  }

  lemma {:induction false} AfterAlloc(w: World, n: nat, x: nat)
    requires CanMakeDir(w, n, x)
    ensures var w1 := World(Allocated(w.fs, 1), w.dirs, w.live);
      Inv(w1) && |w1.fs.disk| == |w.fs.disk| && Listings(w1) == Listings(w) &&
      Taken(w.fs, w1.fs, [x + 1]) && SameContents(w.fs, w1.fs) && IsData(|w.fs.disk|, x + 1) &&
      forall i :: 0 <= i < |w.dirs| ==> DirBlock(w1.fs, w.dirs[i]) == DirBlock(w.fs, w.dirs[i])
  {
    GrantsLowest(w.fs, x);
    StepKeeps(w, AllocBlocks(1));
    SearchGrantable(w.fs, 1);
    GrantUndisturbed(w.fs, 0, [x], w.live);
    LinksUndisturbed(w, Allocated(w.fs, 1));
    forall m: nat | InodeExists(|w.fs.disk|, m)
      ensures InodeAllocated(Allocated(w.fs, 1), m) == InodeAllocated(w.fs, m) {
      GrantElsewhere(w.fs, 0, [x], m, 219, 0);
    }
    assert FreeIsData(w.fs, 0);
    assert BlockFree(w.fs, x + 1) && !BitAt(BlockMap(w.fs, 0), x);
  }

  /** A free block is no directory's block. */
  lemma FreeNotDir(w: World, b: nat)
    requires Laid(w.fs) && DirsGood(w) && 0 < b && GroupOf(b) < Groups(|w.fs.disk|) && BlockFree(w.fs, b)
    ensures forall i :: 0 <= i < |w.dirs| ==> DirBlock(w.fs, w.dirs[i]) != b
  {
  }

  lemma {:induction false} AfterAllocBlock(fs: Fs, fs1: Fs, x: nat)
    requires Laid(fs) && Laid(fs1) && |fs1.disk| == |fs.disk| && Taken(fs, fs1, [x + 1]) && SameContents(fs, fs1)
    requires IsData(|fs.disk|, x + 1) && U32(fs.disk[x + 1], 0) == 0
    ensures !BlockFree(fs1, x + 1) && U32(fs1.disk[x + 1], 0) == 0
  {
    assert x + 1 in [x + 1];
  }

  lemma {:induction false} AfterAllocEnabled(w: World, n: nat, x: nat)
    requires CanMakeDir(w, n, x)
    ensures var w1 := World(Allocated(w.fs, 1), w.dirs, w.live);
      Inv(w1) && Enabled(w1, StoreDir(n, DirInode(x + 1)))
  {
    AfterAlloc(w, n, x);
    assert BlockFree(w.fs, x + 1);
    FreeNotDir(w, x + 1);
    AfterAllocBlock(w.fs, Allocated(w.fs, 1), x);
  }

  /** Writing an allocated inode changes no data block, no inode bit and no block bit. */
  lemma {:induction false} WriteSameContents(fs: Fs, n: nat, inode: Inode)
    requires Laid(fs) && InodeExists(|fs.disk|, n) && InodeAllocated(fs, n)
    ensures var fs' := InodeWritten(fs, n, inode); Taken(fs, fs', []) && SameContents(fs, fs')
  {
    var fs' := InodeWritten(fs, n, inode);
    WriteKeepsLayout(fs, n, inode);
    SameMapsTakeNothing(fs, fs');
    WriteUndisturbed(fs, n, inode, {});
    forall m: nat | InodeExists(|fs.disk|, m) ensures InodeAllocated(fs', m) == InodeAllocated(fs, m) {
      WriteThenAllocated(fs, n, inode, m);
    }
  }

  ghost function DirMade(w: World, n: nat, x: nat): (w': World)
    requires CanMakeDir(w, n, x)
  {
    World(InodeWritten(Allocated(w.fs, 1), n, DirInode(x + 1)), w.dirs + [n], w.live + {n})
  }

  lemma {:induction false} DirMadeKeeps(w: World, n: nat, x: nat, w': World)
    requires CanMakeDir(w, n, x) && w' == DirMade(w, n, x)
    ensures Inv(w') && |w'.fs.disk| == |w.fs.disk| && Listings(w') == Listings(w) + [[]]
    ensures w'.dirs == w.dirs + [n] && w'.live == w.live + {n}
  {
    AfterAlloc(w, n, x);
    AfterAllocEnabled(w, n, x);
    StoreDirKeeps(World(Allocated(w.fs, 1), w.dirs, w.live), n, DirInode(x + 1));
  }

  lemma {:induction false} DirMadeTakes(w: World, n: nat, x: nat, fs1: Fs, fs': Fs)
    requires CanMakeDir(w, n, x) && fs1 == Allocated(w.fs, 1) && fs' == DirMade(w, n, x).fs
    ensures |fs'.disk| == |w.fs.disk| && Taken(w.fs, fs', [x + 1]) && SameContents(w.fs, fs')
  {
    AfterAlloc(w, n, x);
    WriteSameContents(fs1, n, DirInode(x + 1));
    TakenTwice(w.fs, fs1, fs', [x + 1]);
  }

  /** What a new directory leaves alone. */
  lemma {:induction false} DirMadeKept(w: World, n: nat, x: nat, fs': Fs)
    requires CanMakeDir(w, n, x) && fs' == DirMade(w, n, x).fs
    ensures Kept(w.fs, fs') && SbFreeBlocks(fs'.sb) == Sub32(SbFreeBlocks(w.fs.sb), 1)
  {
    var fs1 := Allocated(w.fs, 1);
    GrantsLowest(w.fs, x);
    SearchGrantable(w.fs, 1);
    AfterAlloc(w, n, x);
    GrantKept(w.fs, 0, [x]);
    WriteKept(fs1, n, DirInode(x + 1));
    KeptTwice(w.fs, fs1, fs');
  }

  /** Its inode, and every other one. */
  lemma {:induction false} DirMadeSlot(w: World, n: nat, x: nat, fs': Fs, m: nat)
    requires CanMakeDir(w, n, x) && fs' == DirMade(w, n, x).fs && InodeExists(|w.fs.disk|, m)
    ensures |fs'.disk| == |w.fs.disk| && InodeSlot(fs', m) == if m == n then DirInode(x + 1) else InodeSlot(w.fs, m)
  {
    GrantsLowest(w.fs, x);
    SearchGrantable(w.fs, 1);
    AfterAlloc(w, n, x);
    FirstData(|w.fs.disk|);
    GrantElsewhere(w.fs, 0, [x], m, 219, 0);
    WriteThenSlot(Allocated(w.fs, 1), n, DirInode(x + 1), m);
  }

  lemma {:induction false} MadeDirBytes(w: World, n: nat, x: nat, fs': Fs)
    requires CanMakeDir(w, n, x) && fs' == DirMade(w, n, x).fs
    ensures |fs'.disk| == |w.fs.disk| && DirBytes(InodeSlot(fs', n), 0, x + 1)
  {
    DirMadeSlot(w, n, x, fs', n);
    DirInodeBytes(x + 1);
  }

  lemma TakenTwice(a: Fs, b: Fs, c: Fs, blocks: seq<nat>)
    requires Admissible(|a.disk|) && |a.disk| == |b.disk| == |c.disk| && Taken(a, b, blocks) && Taken(b, c, [])
    requires SameContents(a, b) && SameContents(b, c)
    ensures Taken(a, c, blocks) && SameContents(a, c)
  {
  }

  /** Block allocation and inode write for a new directory; the block it gets is the lowest free one. */
  method MakeDir(mnt: Mount, n: nat, ghost w: World, ghost x: nat)
    requires mnt.Valid() && CanMakeDir(w, n, x) && mnt.State() == w.fs
    modifies mnt`superblock, mnt.device`sectors, mnt.device.rwBuffer
    ensures mnt.device.Valid() && mnt.State() == DirMade(w, n, x).fs
    ensures Admissible(|mnt.State().disk|) && InodeExists(|mnt.State().disk|, n)
    ensures DirBytes(InodeSlot(mnt.State(), n), 0, x + 1)
  {
    GrantsLowest(w.fs, x);
    AfterAlloc(w, n, x);
    MadeDirBytes(w, n, x, DirMade(w, n, x).fs);
    var out := new nat[1];
    var _ := AllocateBlocks(mnt, out, 1);
    assert out[..1][0] == x + 1;
    WriteInode(mnt, DirInode(out[0]), n);
  }

  // ----- the five links -----

  function Dot(n: nat): (e: Entry) { Entry(n, 0, [46]) }
  function DotDot(n: nat): (e: Entry) { Entry(n, 0, [46, 46]) }
  function LostFound(): (e: Entry) { Entry(11, 0, [108, 111, 115, 116, 43, 102, 111, 117, 110, 100]) }

  /** What is known of the two directories: their listings, where their chains end, and their link counts. */
  datatype Shape =
    Shape(root: seq<Entry>, lost: seq<Entry>, rootEnd: nat, lostEnd: nat, rootLinks: nat, lostLinks: nat)
  {
    function Add(k: nat, e: Entry): (s: Shape) {
      var r, l := rootLinks + (if e.inode == 2 then 1 else 0), lostLinks + (if e.inode == 11 then 1 else 0);
      if k == 0 then Shape(root + [e], lost, rootEnd + RecLen(|e.name|), lostEnd, r, l)
      else Shape(root, lost + [e], rootEnd, lostEnd + RecLen(|e.name|), r, l)
    }

    predicate Fits(k: nat, e: Entry) {
      e.Storable() && (e.inode == 2 || e.inode == 11) && rootLinks < 100 && lostLinks < 100 &&
      (if k == 0 then rootEnd else lostEnd) + RecLen(|e.name|) + 8 <= 1024
    }
  }

  /** Two empty directories. */
  function NoEntries(): (s: Shape) { Shape([], [], 0, 0, 0, 0) }

  /** The bytes of the two directory inodes. */
  ghost predicate Inodes(fs: Fs, s: Shape)
    requires Laid(fs)
  {
    FirstInodes(|fs.disk|);
    DirBytes(InodeSlot(fs, 2), s.rootLinks, 219) && DirBytes(InodeSlot(fs, 11), s.lostLinks, 220)
  }

  lemma FirstInodes(n: nat)
    requires Admissible(n)
    ensures InodeExists(n, 1) && InodeExists(n, 2) && InodeExists(n, 11)
  {
  }

  ghost predicate Rooted(w: World, s: Shape) {
    Inv(w) && w.dirs == [2, 11] && w.live == {2, 11} && Listings(w) == [s.root, s.lost] &&
    GoodDir(w.fs, 2) && GoodDir(w.fs, 11) && EndOf(w.fs, 2) == s.rootEnd && EndOf(w.fs, 11) == s.lostEnd &&
    Inodes(w.fs, s)
  }

  ghost function Linked(w: World, k: nat, e: Entry): (w': World)
    requires k < |w.dirs| && Linkable(w.fs, w.dirs[k], e)
  {
    World(LinkAdded(w.fs, w.dirs[k], e), w.dirs, w.live)
  }

  lemma {:induction false} RootedEnabled(w: World, s: Shape, k: nat, e: Entry)
    requires Rooted(w, s) && k < 2 && s.Fits(k, e)
    ensures Enabled(w, Link(w.dirs[k], e)) && Linkable(w.fs, w.dirs[k], e) && HasRoom(w.fs, w.dirs[k], e)
    ensures InodeAllocated(w.fs, e.inode)
  {
    LinkEnabled(w, w.dirs[k], e);
  }

  lemma {:induction false} LinkEnd(w: World, k: nat, e: Entry, i: nat)
    requires Laid(w.fs) && DirsGood(w) && k < |w.dirs| && i < |w.dirs|
    requires Linkable(w.fs, w.dirs[k], e) && HasRoom(w.fs, w.dirs[k], e)
    ensures var fs', d := LinkAdded(w.fs, w.dirs[k], e), w.dirs[i];
      Laid(fs') && GoodDir(fs', d) && GoodDir(w.fs, d) &&
      EndOf(fs', d) == if i == k then EndOf(w.fs, d) + RecLen(|e.name|) else EndOf(w.fs, d)
  {
    LinkDir(w, k, e, i);
  }

  lemma {:induction false} LinkRooted(w: World, s: Shape, k: nat, e: Entry, w': World)
    requires Rooted(w, s) && k < 2 && s.Fits(k, e) && Linkable(w.fs, w.dirs[k], e) && w' == Linked(w, k, e)
    ensures Rooted(w', s.Add(k, e))
  {
    RootedEnabled(w, s, k, e);
    LinkKeepsAt(w, k, e);
    LinkedEnds(w, s, k, e, w'.fs);
    LinkedInodes(w.fs, s, k, w.dirs[k], e, w'.fs);
    ShapeListing(s, k, e);
  }

  lemma {:induction false} LinkedInodes(fs: Fs, s: Shape, k: nat, dir: nat, e: Entry, fs': Fs)
    requires Linkable(fs, dir, e) && fs' == LinkAdded(fs, dir, e) && Laid(fs')
    requires Inodes(fs, s) && s.Fits(k, e) && InodeAllocated(fs, e.inode)
    ensures Inodes(fs', s.Add(k, e))
  {
    FirstInodes(|fs.disk|);
    LinkedInode(fs, dir, e, 2, s.rootLinks, 219);
    LinkedInode(fs, dir, e, 11, s.lostLinks, 220);
  }

  lemma {:induction false} LinkedInode(fs: Fs, dir: nat, e: Entry, m: nat, links: nat, block: nat)
    requires Linkable(fs, dir, e) && InodeAllocated(fs, e.inode) && InodeExists(|fs.disk|, m) && links < 100
    requires DirBytes(InodeSlot(fs, m), links, block)
    ensures DirBytes(InodeSlot(LinkAdded(fs, dir, e), m), links + (if e.inode == m then 1 else 0), block)
  {
    LinkSlots(fs, dir, e, m);
    if e.inode == m {
      BumpedDir(InodeSlot(fs, m), links, block);
    }
  }

  lemma {:induction false} LinkedEnds(w: World, s: Shape, k: nat, e: Entry, fs': Fs)
    requires Laid(w.fs) && DirsGood(w) && w.dirs == [2, 11] && k < 2
    requires Linkable(w.fs, w.dirs[k], e) && HasRoom(w.fs, w.dirs[k], e) && fs' == LinkAdded(w.fs, w.dirs[k], e)
    requires GoodDir(w.fs, 2) && GoodDir(w.fs, 11) && EndOf(w.fs, 2) == s.rootEnd && EndOf(w.fs, 11) == s.lostEnd
    ensures var s' := s.Add(k, e);
      Laid(fs') && GoodDir(fs', 2) && GoodDir(fs', 11) && EndOf(fs', 2) == s'.rootEnd && EndOf(fs', 11) == s'.lostEnd
  {
    LinkEndOf(w, k, e, 0, 2, fs');
    LinkEndOf(w, k, e, 1, 11, fs');
  }

  lemma {:induction false} LinkEndOf(w: World, k: nat, e: Entry, i: nat, d: nat, fs': Fs)
    requires Laid(w.fs) && DirsGood(w) && k < |w.dirs| && i < |w.dirs| && w.dirs[i] == d && GoodDir(w.fs, d)
    requires Linkable(w.fs, w.dirs[k], e) && HasRoom(w.fs, w.dirs[k], e) && fs' == LinkAdded(w.fs, w.dirs[k], e)
    ensures Laid(fs') && GoodDir(fs', d)
    ensures EndOf(fs', d) == EndOf(w.fs, d) + (if i == k then RecLen(|e.name|) else 0)
  {
    LinkEnd(w, k, e, i);
  }

  lemma ShapeListing(s: Shape, k: nat, e: Entry)
    requires k < 2
    ensures var ls, s' := [s.root, s.lost], s.Add(k, e); ls[k := ls[k] + [e]] == [s'.root, s'.lost]
  {
  }

  /** A file system of this shape. */
  ghost predicate Shaped(fs: Fs, s: Shape) { exists w: World :: w.fs == fs && Rooted(w, s) }

  lemma {:induction false} LinkShaped(fs: Fs, s: Shape, k: nat, e: Entry)
    requires Shaped(fs, s) && k < 2 && s.Fits(k, e)
    ensures var dir := if k == 0 then 2 else 11; Linkable(fs, dir, e) && Shaped(LinkAdded(fs, dir, e), s.Add(k, e))
  {
    var w: World :| w.fs == fs && Rooted(w, s);
    RootedEnabled(w, s, k, e);
    LinkRooted(w, s, k, e, Linked(w, k, e));
  }

  /** `ext2_add_link` into the root (`k == 0`) or lost+found (`k == 1`). */
  method LinkInto(mnt: Mount, k: nat, e: Entry, ghost s: Shape)
    requires mnt.Valid() && Shaped(mnt.State(), s) && k < 2 && s.Fits(k, e)
    modifies mnt.device`sectors, mnt.device.rwBuffer
    ensures mnt.Valid() && Shaped(mnt.State(), s.Add(k, e)) && |mnt.State().disk| == old(|mnt.State().disk|)
    ensures mnt.superblock == old(mnt.superblock)
    ensures Admissible(|mnt.State().disk|) && Kept(old(mnt.State()), mnt.State())
  {
    LinkShaped(mnt.State(), s, k, e);
    LinkKept(mnt.State(), if k == 0 then 2 else 11, e);
    AddLink(mnt, if k == 0 then 2 else 11, e);
  }

  /** What `ext2_format_device` leaves in its two directories. */
  function FinalShape(): (s: Shape) { Shape([Dot(2), DotDot(2), LostFound()], [Dot(11), DotDot(2)], 44, 24, 3, 2) }

  function Step1(): (s: Shape) { NoEntries().Add(0, Dot(2)) }
  function Step2(): (s: Shape) { Step1().Add(0, DotDot(2)) }
  function Step3(): (s: Shape) { Step2().Add(0, LostFound()) }
  function Step4(): (s: Shape) { Step3().Add(1, Dot(11)) }

  lemma {:induction false} StepsFit()
    ensures NoEntries().Fits(0, Dot(2)) && Step1().Fits(0, DotDot(2)) && Step2().Fits(0, LostFound())
    ensures Step3().Fits(1, Dot(11)) && Step4().Fits(1, DotDot(2)) && Step4().Add(1, DotDot(2)) == FinalShape()
  {
    assert RecLen(1) == 12 && RecLen(2) == 12 && RecLen(10) == 20;
  }

  /** The five `ext2_add_link` calls. */
  method LinkAll(mnt: Mount)
    requires mnt.Valid() && Shaped(mnt.State(), NoEntries())
    modifies mnt.device`sectors, mnt.device.rwBuffer
    ensures mnt.Valid() && Shaped(mnt.State(), FinalShape()) && |mnt.State().disk| == old(|mnt.State().disk|)
    ensures mnt.superblock == old(mnt.superblock)
    ensures Admissible(|mnt.State().disk|) && Kept(old(mnt.State()), mnt.State())
  {
    StepsFit();
    ghost var fs := mnt.State();
    LinkInto(mnt, 0, Dot(2), NoEntries());
    ghost var fs1 := mnt.State();
    LinkInto(mnt, 0, DotDot(2), Step1());
    ghost var fs2 := mnt.State();
    KeptTwice(fs, fs1, fs2);
    LinkInto(mnt, 0, LostFound(), Step2());
    ghost var fs3 := mnt.State();
    KeptTwice(fs, fs2, fs3);
    LinkInto(mnt, 1, Dot(11), Step3());
    ghost var fs4 := mnt.State();
    KeptTwice(fs, fs3, fs4);
    LinkInto(mnt, 1, DotDot(2), Step4());
    KeptTwice(fs, fs4, mnt.State());
  }

  // ----- the whole format -----

  /** The superblock of a disk of `n` blocks, byte by byte, but for its state. */
  ghost predicate SuperWith(sb: Block, n: nat, freeBlocks: int, freeInodes: int) {
    U32(sb, 0) == 1712 * Groups(n) && U32(sb, 4) == n && U32(sb, 8) == 100 && U32(sb, 12) == freeBlocks &&
    U32(sb, 16) == freeInodes && U32(sb, 20) == 1 && U32(sb, 32) == 8192 && U32(sb, 36) == 8192 &&
    U32(sb, 40) == 1712 &&
    U16(sb, 54) == 32767 && U16(sb, 56) == 0xEF53 && U16(sb, 60) == 2 &&
    U32(sb, 72) == 10 && U32(sb, 76) == 1 && U32(sb, 84) == 11 && U16(sb, 88) == 128
  }

  method BuildPlan(n: nat) returns (p: Plan)
    requires Admissible(n)
    ensures GoodPlan(p, n) && SuperWith(p.sb, n, n - 218 * Groups(n) - 1, 1712 * Groups(n))
  {
    var table := FillTable(n);
    var freeBlocks, freeInodes := SumCounts(table, Groups(n));
    var blocks, last := BuildMaps(n, table);
    var inodes := SetupInodeBitmap(1712);
    FreeSum(table, n);
    var sb := BuildSuper(n, freeBlocks, freeInodes);
    p := Plan(sb, table, inodes, blocks, last);
  }

  /** The block bitmap of every group but the last one, and that of the last one. */
  method BuildMaps(n: nat, table: Block) returns (blocks: Block, last: Block)
    requires Admissible(n) && TableRight(table, n, Groups(n))
    ensures LowSet(blocks, 218) && Padded(last) == Pad(blocks, n % 8192 - 1)
  {
    blocks := SetupBlockBitmap(214);
    LastFree(n);
    assert DescRight(table, n, Groups(n), n / 8192);
    last := PadLast(blocks, BgFreeBlocks(table, n / 8192) + 214 + 4);
  }

  method BuildSuper(n: nat, freeBlocks: nat, freeInodes: nat) returns (sb: Block)
    requires Admissible(n) && freeBlocks < 0x1_0000_0000 && freeInodes < 0x1_0000_0000
    ensures SuperWith(sb, n, freeBlocks, freeInodes)
  {
    SuperFields(n, freeBlocks, freeInodes);
    sb := SuperOf(n, freeBlocks, freeInodes);
  }

  /** No directories yet, and blocks 219 and 220 are the next free ones. */
  ghost predicate Blank(fs: Fs) { Inv(World(fs, [], {})) && NextFree(fs, 218, 2) }

  lemma {:induction false} FormattedFree(d0: seq<Block>, d: seq<Block>, p: Plan, b: nat)
    requires GoodPlan(p, |d0|) && Written(d0, d, p, Groups(|d0|), Groups(|d0|)) && 0 < b <= 220
    ensures BlockFree(Fs(d, p.sb), b) == (b > 218)
  {
    WrittenMeta(d0, d, p, 0);
    PlannedMaps(p, |d0|, 0);
    assert GroupOf(b) == 0 && BitOf(b) == b - 1 && BlockAt(0, b - 1) == b;
    DataRange(|d0|, 0, b - 1);
  }

  lemma {:induction false} FormattedNextFree(d0: seq<Block>, d: seq<Block>, p: Plan)
    requires GoodPlan(p, |d0|) && Written(d0, d, p, Groups(|d0|), Groups(|d0|))
    ensures NextFree(Fs(d, p.sb), 218, 2)
  {
    forall b | 0 < b <= 220 ensures BlockFree(Fs(d, p.sb), b) == (b > 218) {
      FormattedFree(d0, d, p, b);
    }
  }

  lemma {:induction false} FormattedKeepsData(d0: seq<Block>, d: seq<Block>, p: Plan, b: nat)
    requires Written(d0, d, p, Groups(|d0|), Groups(|d0|)) && IsData(|d0|, b)
    ensures d[b] == d0[b]
  {
    assert d[b] == WrittenAt(d0, p, Groups(|d0|), Groups(|d0|), b);
  }

  lemma {:induction false} TakeBlank(fs: Fs, n: nat, isDir: bool, fs': Fs)
    requires Blank(fs) && InodeExists(|fs.disk|, n) && fs' == InodeTaken(fs, n, isDir)
    ensures Blank(fs') && |fs'.disk| == |fs.disk| && InodeAllocated(fs', n)
    ensures forall b: nat :: IsData(|fs.disk|, b) ==> fs'.disk[b] == fs.disk[b]
  {
    var w := World(fs, [], {});
    AllocInodeKeeps(w, n, isDir);
    OthersTakeNothing(w, AllocInode(n, isDir));
    TakeUndisturbed(fs, n, isDir, {});
    TakeAllocates(fs, n, isDir, n);
  }

  /** Inodes 1, 2 and 11 are free, and no directory is counted. */
  ghost predicate NoneReserved(fs: Fs)
    requires Admissible(|fs.disk|)
  {
    FirstInodes(|fs.disk|);
    !InodeAllocated(fs, 1) && !InodeAllocated(fs, 2) && !InodeAllocated(fs, 11) && BgUsedDirs(Desc(fs), 0) == 0 &&
    SbFreeInodes(fs.sb) >= 3
  }

  /** They are allocated, and two directories are counted. */
  ghost predicate AllReserved(fs: Fs)
    requires Admissible(|fs.disk|)
  {
    FirstInodes(|fs.disk|);
    InodeAllocated(fs, 1) && InodeAllocated(fs, 2) && InodeAllocated(fs, 11) && BgUsedDirs(Desc(fs), 0) == 2
  }

  /** The superblock then: three free inodes less. */
  ghost predicate ThreeLess(sb: Block, sb': Block) {
    SameRest(sb, sb') && SbFreeInodes(sb') == SbFreeInodes(sb) - 3 && SbFreeBlocks(sb') == SbFreeBlocks(sb)
  }

  lemma {:induction false} ReservedCounts(fs: Fs, fs1: Fs, fs2: Fs, fs3: Fs)
    requires Laid(fs) && NoneReserved(fs) && InodeExists(|fs.disk|, 1) && fs1 == InodeTaken(fs, 1, false)
    requires Laid(fs1) && |fs1.disk| == |fs.disk| && InodeExists(|fs.disk|, 2) && fs2 == InodeTaken(fs1, 2, true)
    requires Laid(fs2) && |fs2.disk| == |fs.disk| && InodeExists(|fs.disk|, 11) && fs3 == InodeTaken(fs2, 11, true)
    ensures |fs3.disk| == |fs.disk| && AllReserved(fs3) && ThreeLess(fs.sb, fs3.sb)
  {
    TakeCounts(fs, 1, false, fs1);
    TakeCounts(fs1, 2, true, fs2);
    TakeCounts(fs2, 11, true, fs3);
  }

  /** The three `allocate_inode` calls: numbers 1, 2 and 11. */
  method ReserveInodes(mnt: Mount)
    requires mnt.Valid() && Blank(mnt.State()) && NoneReserved(mnt.State())
    modifies mnt`superblock, mnt.device`sectors
    ensures mnt.Valid() && Blank(mnt.State()) && |mnt.State().disk| == old(|mnt.State().disk|)
    ensures AllReserved(mnt.State()) && ThreeLess(old(mnt.superblock), mnt.superblock)
    ensures forall b: nat :: IsData(|mnt.State().disk|, b) ==> mnt.State().disk[b] == old(mnt.State().disk)[b]
  {
    ghost var fs := mnt.State();
    TakeBlank(fs, 1, false, InodeTaken(fs, 1, false));
    var _ := AllocateInode(mnt, 1, false);
    ghost var fs1 := mnt.State();
    TakeBlank(fs1, 2, true, InodeTaken(fs1, 2, true));
    var _ := AllocateInode(mnt, 2, true);
    ghost var fs2 := mnt.State();
    TakeBlank(fs2, 11, true, InodeTaken(fs2, 11, true));
    var _ := AllocateInode(mnt, 11, true);
    ReservedCounts(fs, fs1, fs2, mnt.State());
  }

  /** A blank file system with inodes 2 and 11 reserved and blocks 219 and 220 empty. */
  ghost predicate Reserved(fs: Fs) {
    Blank(fs) && InodeAllocated(fs, 2) && InodeAllocated(fs, 11) &&
    U32(fs.disk[219], 0) == 0 && U32(fs.disk[220], 0) == 0
  }

  lemma {:induction false} NextAfter(fs: Fs, fs': Fs, x: nat, m: nat)
    requires Admissible(|fs.disk|) && |fs'.disk| == |fs.disk| && NextFree(fs, x, m + 1) && Taken(fs, fs', [x + 1])
    ensures NextFree(fs', x + 1, m)
  {
    assert x + 1 in [x + 1];
    forall b | 0 < b <= x + 1 + m ensures BlockFree(fs', b) == (b > x + 1) {
    }
  }

  lemma CanMakeRoot(fs: Fs)
    requires Reserved(fs)
    ensures CanMakeDir(World(fs, [], {}), 2, 218)
  {
  }

  lemma {:induction false} RootTakes(w: World, fs': Fs)
    requires CanMakeDir(w, 2, 218) && fs' == DirMade(w, 2, 218).fs && NextFree(w.fs, 218, 2)
    ensures |fs'.disk| == |w.fs.disk| && NextFree(fs', 219, 1) && SameContents(w.fs, fs')
  {
    DirMadeTakes(w, 2, 218, Allocated(w.fs, 1), fs');
    NextAfter(w.fs, fs', 218, 1);
  }

  lemma {:induction false} CanMakeLost(w: World, w1: World)
    requires CanMakeDir(w, 2, 218) && w.dirs == [] && w.live == {} && w1 == DirMade(w, 2, 218)
    requires NextFree(w.fs, 218, 2) && InodeAllocated(w.fs, 11) && U32(w.fs.disk[220], 0) == 0
    ensures CanMakeDir(w1, 11, 219)
  {
    DirMadeKeeps(w, 2, 218, w1);
    RootTakes(w, w1.fs);
    FirstData(|w.fs.disk|);
    NotLive(w.live, w1.live);
  }

  lemma NotLive(live: set<nat>, live1: set<nat>)
    requires live == {} && live1 == live + {2}
    ensures 11 !in live1
  {
  }

  /** Both directories, empty. */
  lemma {:induction false} TwoDirs(w: World, w1: World, w2: World)
    requires Laid(w.fs) && DirsGood(w) && Laid(w1.fs) && DirsGood(w1) && Laid(w2.fs) && DirsGood(w2)
    requires w.dirs == [] && w1.dirs == w.dirs + [2] && w2.dirs == w1.dirs + [11]
    requires w.live == {} && w1.live == w.live + {2} && w2.live == w1.live + {11}
    requires Listings(w1) == Listings(w) + [[]] && Listings(w2) == Listings(w1) + [[]]
    ensures w2.dirs == [2, 11] && w2.live == {2, 11} && Listings(w2) == [[], []]
  {
    assert Listings(w) == [];
  }

  lemma {:induction false} EmptyRooted(w: World)
    requires Inv(w) && w.dirs == [2, 11] && w.live == {2, 11} && Listings(w) == [[], []] && Inodes(w.fs, NoEntries())
    ensures Rooted(w, NoEntries())
  {
    EmptyEnd(w, 0);
    EmptyEnd(w, 1);
  }

  /** Both inodes, without links. */
  lemma {:induction false} MadeInodes(w: World, w1: World, fs2: Fs)
    requires CanMakeDir(w, 2, 218) && w1 == DirMade(w, 2, 218)
    requires CanMakeDir(w1, 11, 219) && fs2 == DirMade(w1, 11, 219).fs && Laid(fs2)
    ensures Inodes(fs2, NoEntries())
  {
    FirstInodes(|w.fs.disk|);
    DirMadeSlot(w, 2, 218, w1.fs, 2);
    DirMadeSlot(w1, 11, 219, fs2, 2);
    DirMadeSlot(w1, 11, 219, fs2, 11);
    DirInodeBytes(219);
    DirInodeBytes(220);
  }

  lemma {:induction false} BothMade(w: World, w1: World, w2: World)
    requires CanMakeDir(w, 2, 218) && w.dirs == [] && w.live == {} && w1 == DirMade(w, 2, 218)
    requires CanMakeDir(w1, 11, 219) && w2 == DirMade(w1, 11, 219)
    ensures Rooted(w2, NoEntries())
  {
    DirMadeKeeps(w, 2, 218, w1);
    DirMadeKeeps(w1, 11, 219, w2);
    TwoDirs(w, w1, w2);
    MadeInodes(w, w1, w2.fs);
    EmptyRooted(w2);
  }

  /** An empty directory's chain ends where it starts. */
  lemma {:induction false} EmptyEnd(w: World, i: nat)
    requires Laid(w.fs) && DirsGood(w) && i < |w.dirs| && Listings(w)[i] == []
    ensures GoodDir(w.fs, w.dirs[i]) && EndOf(w.fs, w.dirs[i]) == 0
  {
    var b := w.fs.disk[DirBlock(w.fs, w.dirs[i])];
    assert Walk(b, 0).entries == [];
  }

  /** Root and lost+found, as `ext2_format_device` makes them on a mounted blank file system. */
  method MakeTree(mnt: Mount)
    requires mnt.Valid() && Reserved(mnt.State())
    modifies mnt`superblock, mnt.device`sectors, mnt.device.rwBuffer
    ensures mnt.Valid() && Shaped(mnt.State(), FinalShape()) && |mnt.State().disk| == old(|mnt.State().disk|)
    ensures Admissible(|mnt.State().disk|) && Kept(old(mnt.State()), mnt.State())
    ensures SbFreeBlocks(mnt.superblock) == Sub32(Sub32(SbFreeBlocks(old(mnt.superblock)), 1), 1)
  {
    ghost var w := World(mnt.State(), [], {});
    CanMakeRoot(mnt.State());
    ghost var w1 := DirMade(w, 2, 218);
    CanMakeLost(w, w1);
    ghost var w2 := DirMade(w1, 11, 219);
    BothMade(w, w1, w2);
    BothKept(w, w1, w2.fs);
    MakeDir(mnt, 2, w, 218);
    MakeDir(mnt, 11, w1, 219);
    assert Rooted(w2, NoEntries());
    LinkAll(mnt);
    KeptTwice(w.fs, w2.fs, mnt.State());
  }

  lemma {:induction false} BothKept(w: World, w1: World, fs2: Fs)
    requires CanMakeDir(w, 2, 218) && w1 == DirMade(w, 2, 218)
    requires CanMakeDir(w1, 11, 219) && fs2 == DirMade(w1, 11, 219).fs
    ensures Kept(w.fs, fs2) && SbFreeBlocks(fs2.sb) == Sub32(Sub32(SbFreeBlocks(w.fs.sb), 1), 1)
  {
    DirMadeKept(w, 2, 218, w1.fs);
    DirMadeKept(w1, 11, 219, fs2);
    KeptTwice(w.fs, w1.fs, fs2);
  }

  lemma {:induction false} MountedBlank(d0: seq<Block>, d: seq<Block>, p: Plan, sb: Block)
    requires GoodPlan(p, |d0|) && Written(d0, d, p, Groups(|d0|), Groups(|d0|)) && sb == Put16(d[1], 58, 2)
    ensures Blank(Fs(d[1 := sb], sb))
  {
    FormattedIsConsistent(d0, d, p);
    FormattedNextFree(d0, d, p);
    assert d[1] == p.sb by { WrittenMeta(d0, d, p, 0); }
    StateField(d[1], 2);
    BlankSuper(Fs(d, p.sb), sb);
  }

  lemma {:induction false} BlankSuper(fs: Fs, sb: Block)
    requires Blank(fs) && SameSuper(fs.sb, sb)
    ensures Blank(Fs(fs.disk[1 := sb], sb))
  {
    SuperWriteInv(World(fs, [], {}), sb, sb);
  }

  /** What is on a disk whose superblock is in block 1. */
  ghost function OnDisk(d: seq<Block>): (fs: Fs) requires |d| > 1 { Fs(d, d[1]) }

  lemma {:induction false} UnmountedShape(fs: Fs, s: Shape)
    requires Shaped(fs, s) && |fs.disk| > 1
    ensures var sb := Put16(fs.sb, 58, 1); Shaped(OnDisk(fs.disk[1 := sb]), s) && SbState(sb) == 1
  {
    var sb := Put16(fs.sb, 58, 1);
    var w: World :| w.fs == fs && Rooted(w, s);
    StateField(fs.sb, 1);
    SuperWriteRooted(w, s, sb);
  }

  lemma {:induction false} SuperWriteRooted(w: World, s: Shape, sb: Block)
    requires Rooted(w, s) && SameSuper(w.fs.sb, sb)
    ensures Rooted(World(Fs(w.fs.disk[1 := sb], sb), w.dirs, w.live), s)
  {
    SuperWriteInv(w, sb, sb);
    SuperWriteUndisturbed(w.fs, sb, sb, w.live);
    var fs' := Fs(w.fs.disk[1 := sb], sb);
    SuperEnd(w.fs, fs', w.live, 2);
    SuperEnd(w.fs, fs', w.live, 11);
    SuperInodes(w.fs, sb, s);
  }

  lemma {:induction false} SuperInodes(fs: Fs, sb: Block, s: Shape)
    requires Laid(fs) && Inodes(fs, s) && Laid(Fs(fs.disk[1 := sb], sb))
    ensures Inodes(Fs(fs.disk[1 := sb], sb), s)
  {
    FirstInodes(|fs.disk|);
    TableOnDisk(|fs.disk|, 2);
    TableOnDisk(|fs.disk|, 11);
  }

  lemma {:induction false} SuperEnd(fs: Fs, fs': Fs, live: set<nat>, d: nat)
    requires Laid(fs) && Laid(fs') && |fs'.disk| == |fs.disk| && Undisturbed(fs, fs', live) && GoodDir(fs, d) &&
      d in live
    ensures GoodDir(fs', d) && EndOf(fs', d) == EndOf(fs, d)
  {
    DirUndisturbed(fs, fs', live, d);
  }

  // ----- the final disk, byte by byte -----

  /** The superblock of a formatted disk. */
  ghost predicate SuperAs(sb: Block, n: nat) {
    SuperWith(sb, n, n - 218 * Groups(n) - 3, 1712 * Groups(n) - 3) && U16(sb, 58) == 1
  }

  /** The two directory blocks: `.`, `..` and `lost+found`; `.` and `..`. */
  ghost predicate DirsAs(root: Block, lost: Block) {
    var name := [108, 111, 115, 116, 43, 102, 111, 117, 110, 100];
    Walk(root, 0) == Listing([Entry(2, 0, [46]), Entry(2, 0, [46, 46]), Entry(11, 0, name)], 44) &&
    Walk(lost, 0) == Listing([Entry(11, 0, [46]), Entry(2, 0, [46, 46])], 24)
  }

  /** A formatted disk: superblock; two directories counted in the first descriptor; inodes 1, 2 and 11 in the bitmap;
      inodes 2 and 11 in the table, with three and two links; and the two directory blocks. */
  ghost predicate FormattedAs(d: seq<Block>)
    requires Admissible(|d|)
  {
    SuperAs(d[1], |d|) && U16(d[2], 16) == 2 && BitAt(d[4], 0) && BitAt(d[4], 1) && BitAt(d[4], 10) &&
    DirBytes(d[5][128..256], 3, 219) && DirBytes(d[6][256..384], 2, 220) && DirsAs(d[219], d[220])
  }

  lemma {:induction false} SuperKept(n: nat, sb: Block, blocks: int, inodes: int, sb': Block)
    requires SuperWith(sb, n, blocks, inodes) && SameRest(sb, sb')
    ensures SuperWith(sb', n, SbFreeBlocks(sb'), SbFreeInodes(sb'))
  {
    RestRead(sb, sb');
  }

  lemma RestTwice(a: Block, b: Block, c: Block)
    requires SameRest(a, b) && SameRest(b, c)
    ensures SameRest(a, c)
  {
  }

  lemma {:induction false} RestRead(a: Block, b: Block)
    requires SameRest(a, b)
    ensures U32(b, 0) == U32(a, 0) && U32(b, 4) == U32(a, 4) && U32(b, 8) == U32(a, 8) && U32(b, 20) == U32(a, 20)
    ensures U32(b, 32) == U32(a, 32) && U32(b, 36) == U32(a, 36) && U32(b, 40) == U32(a, 40)
    ensures U16(b, 54) == U16(a, 54) && U16(b, 56) == U16(a, 56) && U16(b, 60) == U16(a, 60)
    ensures U32(b, 72) == U32(a, 72) && U32(b, 76) == U32(a, 76) && U32(b, 84) == U32(a, 84) && U16(b, 88) == U16(a, 88)
  {
    RestFields(a, b, 0);
    RestFields(a, b, 4);
    RestFields(a, b, 8);
    RestFields(a, b, 20);
    RestFields(a, b, 32);
    RestFields(a, b, 36);
    RestFields(a, b, 40);
    RestFields(a, b, 54);
    RestFields(a, b, 60);
    RestFields(a, b, 72);
    RestFields(a, b, 76);
    RestFields(a, b, 84);
    RestFields(a, b, 88);
  }

  /** Where inodes 2 and 11 are. */
  lemma {:induction false} SlotPlaces(fs: Fs, s: Shape)
    requires Laid(fs) && Inodes(fs, s)
    ensures DirBytes(fs.disk[5][128..256], s.rootLinks, 219) && DirBytes(fs.disk[6][256..384], s.lostLinks, 220)
  {
    FirstInodes(|fs.disk|);
    FirstSlots(fs);
  }

  lemma FirstSlots(fs: Fs)
    requires Admissible(|fs.disk|) && InodeExists(|fs.disk|, 2) && InodeExists(|fs.disk|, 11)
    ensures InodeSlot(fs, 2) == fs.disk[5][128..256] && InodeSlot(fs, 11) == fs.disk[6][256..384]
  {
  }

  /** Where a directory's entries are. */
  lemma DirPlace(w: World, i: nat, n: nat, b: nat, es: seq<Entry>, end: nat)
    requires Laid(w.fs) && DirsGood(w) && i < |w.dirs| && w.dirs[i] == n && Listings(w)[i] == es
    requires GoodDir(w.fs, n) && EndOf(w.fs, n) == end && U32(InodeSlot(w.fs, n), 40) == b
    ensures b < |w.fs.disk| && Walk(w.fs.disk[b], 0) == Listing(es, end)
  {
  }

  lemma {:induction false} DirPlaces(w: World, s: Shape)
    requires Rooted(w, s)
    ensures Walk(w.fs.disk[219], 0) == Listing(s.root, s.rootEnd)
    ensures Walk(w.fs.disk[220], 0) == Listing(s.lost, s.lostEnd)
  {
    FirstInodes(|w.fs.disk|);
    DirPlace(w, 0, 2, 219, s.root, s.rootEnd);
    DirPlace(w, 1, 11, 220, s.lost, s.lostEnd);
  }

  lemma {:induction false} FinalBits(fs: Fs)
    requires Admissible(|fs.disk|) && AllReserved(fs)
    ensures BitAt(fs.disk[4], 0) && BitAt(fs.disk[4], 1) && BitAt(fs.disk[4], 10) && U16(fs.disk[2], 16) == 2
  {
    FirstInodes(|fs.disk|);
  }

  lemma EnoughBlocks(n: nat)
    requires Admissible(n)
    ensures n >= 218 * Groups(n) + 3
  {
  }

  /** The file system right after mounting. */
  ghost predicate Mounted(fs: Fs, n: nat) {
    Admissible(n) && |fs.disk| == n && Blank(fs) && NoneReserved(fs) &&
    SuperWith(fs.sb, n, n - 218 * Groups(n) - 1, 1712 * Groups(n)) &&
    U32(fs.disk[219], 0) == 0 && U32(fs.disk[220], 0) == 0
  }

  /** The file system right before unmounting. */
  ghost predicate Complete(fs: Fs, n: nat) {
    Admissible(n) && |fs.disk| == n && Shaped(fs, FinalShape()) && AllReserved(fs) &&
    SuperWith(fs.sb, n, n - 218 * Groups(n) - 3, 1712 * Groups(n) - 3)
  }

  /** The disk that unmounting leaves. */
  lemma {:induction false} FinalDisk(fs: Fs, n: nat, sb: Block)
    requires Complete(fs, n) && sb == Put16(fs.sb, 58, 1)
    ensures FormattedAs(fs.disk[1 := sb])
  {
    StateOnly(fs.sb, 1);
    SuperKept(n, fs.sb, n - 218 * Groups(n) - 3, 1712 * Groups(n) - 3, sb);
    FinalPlaces(fs);
  }

  lemma {:induction false} FinalPlaces(fs: Fs)
    requires Laid(fs) && Shaped(fs, FinalShape()) && AllReserved(fs)
    ensures var d := fs.disk;
      U16(d[2], 16) == 2 && BitAt(d[4], 0) && BitAt(d[4], 1) && BitAt(d[4], 10) &&
      DirBytes(d[5][128..256], 3, 219) && DirBytes(d[6][256..384], 2, 220) && DirsAs(d[219], d[220])
  {
    var w: World :| w.fs == fs && Rooted(w, FinalShape());
    SlotPlaces(fs, FinalShape());
    DirPlaces(w, FinalShape());
    FinalBits(fs);
  }

  lemma {:induction false} MountedNone(d0: seq<Block>, d: seq<Block>, p: Plan, sb: Block)
    requires GoodPlan(p, |d0|) && Written(d0, d, p, Groups(|d0|), Groups(|d0|)) && SbFreeInodes(sb) >= 3
    ensures NoneReserved(Fs(d[1 := sb], sb))
  {
    WrittenMeta(d0, d, p, 0);
    FirstInodes(|d0|);
    assert DescRight(p.table, |d0|, Groups(|d0|), 0);
  }

  lemma {:induction false} WrittenMounted(d0: seq<Block>, d: seq<Block>, p: Plan, n: nat, sb: Block)
    requires |d0| == n && GoodPlan(p, n) && Written(d0, d, p, Groups(n), Groups(n))
    requires SuperWith(p.sb, n, n - 218 * Groups(n) - 1, 1712 * Groups(n))
    requires U32(d0[219], 0) == 0 && U32(d0[220], 0) == 0 && sb == Put16(d[1], 58, 2)
    ensures Mounted(Fs(d[1 := sb], sb), n)
  {
    WrittenMeta(d0, d, p, 0);
    StateOnly(p.sb, 2);
    SuperKept(n, p.sb, n - 218 * Groups(n) - 1, 1712 * Groups(n), sb);
    MountedBlank(d0, d, p, sb);
    MountedNone(d0, d, p, sb);
    FirstData(n);
    FormattedKeepsData(d0, d, p, 219);
    FormattedKeepsData(d0, d, p, 220);
  }

  /** The part of `ext2_format_device` up to mounting. */
  method WriteAndMount(dev: BlockDevice) returns (mnt: Mount)
    requires dev.Valid() && Admissible(|dev.Blocks()|)
    requires U32(dev.Blocks()[219], 0) == 0 && U32(dev.Blocks()[220], 0) == 0
    modifies dev`sectors
    ensures fresh(mnt) && mnt.device == dev && mnt.device.Valid()
    ensures |dev.Blocks()| == old(|dev.Blocks()|) && Mounted(mnt.State(), |dev.Blocks()|)
  {
    ghost var d0 := dev.Blocks();
    var n := |dev.sectors| / 2;
    var p := BuildPlan(n);
    WriteGroups(dev, p);
    ghost var d := dev.Blocks();
    WrittenMounted(d0, d, p, n, Put16(d[1], 58, 2));
    mnt := MountDevice(dev);
  }

  /** The part of `ext2_format_device` between mounting and unmounting. */
  method FillMounted(mnt: Mount, ghost n: nat)
    requires mnt.device.Valid() && Mounted(mnt.State(), n)
    modifies mnt`superblock, mnt.device`sectors, mnt.device.rwBuffer
    ensures mnt.Valid() && Complete(mnt.State(), n)
  {
    ghost var fs0 := mnt.State();
    ReserveInodes(mnt);
    ghost var fs := mnt.State();
    FirstData(n);
    MakeTree(mnt);
    CompleteSuper(fs0, fs, mnt.State(), n);
  }

  lemma {:induction false} CompleteSuper(fs0: Fs, fs: Fs, fs': Fs, n: nat)
    requires Admissible(n) && |fs0.disk| == n && |fs.disk| == n
    requires SuperWith(fs0.sb, n, n - 218 * Groups(n) - 1, 1712 * Groups(n))
    requires AllReserved(fs) && SameRest(fs0.sb, fs.sb) && SbFreeInodes(fs.sb) == SbFreeInodes(fs0.sb) - 3
    requires SbFreeBlocks(fs.sb) == SbFreeBlocks(fs0.sb) && Kept(fs, fs')
    requires SbFreeBlocks(fs'.sb) == Sub32(Sub32(SbFreeBlocks(fs.sb), 1), 1)
    ensures AllReserved(fs') && SuperWith(fs'.sb, n, n - 218 * Groups(n) - 3, 1712 * Groups(n) - 3)
  {
    FirstInodes(n);
    EnoughBlocks(n);
    RestTwice(fs0.sb, fs.sb, fs'.sb);
    SuperKept(n, fs0.sb, n - 218 * Groups(n) - 1, 1712 * Groups(n), fs'.sb);
  }

  /** `ext2_format_device`. On every admissible disk whose first two data blocks start with a zero inode number,
      the result is a consistent file system: bitmaps, descriptors and the superblock on disk agree, root and
      lost+found list what they should, and the link counts match. */
  method FormatDevice(dev: BlockDevice)
    requires dev.Valid() && Admissible(|dev.Blocks()|)
    requires U32(dev.Blocks()[219], 0) == 0 && U32(dev.Blocks()[220], 0) == 0
    modifies dev`sectors, dev.rwBuffer
    ensures dev.Valid() && |dev.Blocks()| == old(|dev.Blocks()|)
    ensures Shaped(OnDisk(dev.Blocks()), FinalShape()) && FormattedAs(dev.Blocks())
  {
    var mnt := WriteAndMount(dev);
    ghost var n := |dev.Blocks()|;
    FillMounted(mnt, n);
    ghost var fs := mnt.State();
    UnmountedShape(fs, FinalShape());
    FinalDisk(fs, n, Put16(fs.sb, 58, 1));
    UnmountDevice(mnt);
  }
}
