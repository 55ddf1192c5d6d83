/** The inode table: reading, writing and allocating inodes, and their accounting. */
module Ext2Inodes {
  import opened Bytes
  import opened Bits
  import opened Device
  import opened Ext2Layout
  import opened Ext2Mount
  import opened Status

  type Inode = i: seq<byte> | |i| == 128 witness seq(128, _ => 0)

  /** What a failed read leaves in the caller's inode. */
  function NoInode(): (i: Inode) { seq(128, _ => 0) }

  function LinksCount(i: Inode): (v: nat) { U16(i, 26) }
  function FirstBlock(i: Inode): (v: nat) { U32(i, 40) }

  // ----- where inode `n` lives -----

  function InodeGroup(n: nat): (g: nat) requires n > 0 { (n - 1) / 1712 }
  function InodeIndex(n: nat): (i: nat) requires n > 0 { (n - 1) % 1712 }

  /** The block of the inode table that holds inode number `n`, and the byte in it. */
  function TableBlock(n: nat): (b: nat) requires n > 0 { 8192 * InodeGroup(n) + 5 + InodeIndex(n) / 8 }
  function TableByte(n: nat): (o: nat)
    requires n > 0
    ensures o + 128 <= 1024
  {
    128 * (InodeIndex(n) % 8)
  }

  /** Inode numbers that the disk has room for. */
  predicate InodeExists(blocks: nat, n: nat) { n > 0 && InodeGroup(n) < Groups(blocks) }

  lemma TableOnDisk(blocks: nat, n: nat)
    requires Admissible(blocks) && InodeExists(blocks, n)
    ensures InodeGroup(n) < 32 && InodeIndex(n) < 1712
    ensures 8192 * InodeGroup(n) + 5 <= TableBlock(n) < 8192 * InodeGroup(n) + 219 <= blocks
  {
  }

  /** Two inode numbers never share a slot of the table. */
  lemma {:induction false} SlotsDisjoint(blocks: nat, m: nat, n: nat)
    requires Admissible(blocks) && InodeExists(blocks, m) && InodeExists(blocks, n) && m != n
    ensures TableBlock(m) != TableBlock(n) || TableByte(m) + 128 <= TableByte(n) || TableByte(n) + 128 <= TableByte(m)
    ensures InodeGroup(m) != InodeGroup(n) || InodeIndex(m) != InodeIndex(n)
  {
    TableOnDisk(blocks, m);
    TableOnDisk(blocks, n);
  }

  // ----- the operations on values -----

  predicate InodeAllocated(fs: Fs, n: nat)
    requires Admissible(|fs.disk|) && InodeExists(|fs.disk|, n)
  {
    TableOnDisk(|fs.disk|, n);
    BitAt(InodeMap(fs, InodeGroup(n)), InodeIndex(n))
  }

  /** The slot of inode `n`, whether it is allocated or not. */
  function InodeSlot(fs: Fs, n: nat): (i: Inode)
    requires Admissible(|fs.disk|) && InodeExists(|fs.disk|, n)
  {
    TableOnDisk(|fs.disk|, n);
    fs.disk[TableBlock(n)][TableByte(n)..TableByte(n) + 128]
  }

  /** The result of `ext2_read_inode`. */
  function InodeRead(fs: Fs, n: nat): (r: (Ret, Inode))
    requires Admissible(|fs.disk|) && InodeExists(|fs.disk|, n)
  {
    if InodeAllocated(fs, n) then (NoError, InodeSlot(fs, n)) else (NotFound, NoInode())
  }

  /** The state after `ext2_write_inode`. */
  function InodeWritten(fs: Fs, n: nat, i: Inode): (fs': Fs)
    requires Admissible(|fs.disk|) && InodeExists(|fs.disk|, n)
    ensures |fs'.disk| == |fs.disk|
  {
    TableOnDisk(|fs.disk|, n);
    Fs(fs.disk[8192 * InodeGroup(n) + 4 := SetAt(InodeMap(fs, InodeGroup(n)), InodeIndex(n))]
              [TableBlock(n) := PutBytes(fs.disk[TableBlock(n)], TableByte(n), i)],
       fs.sb)
  }

  // ----- write then read -----

  lemma {:induction false} InodeWrittenDisk(fs: Fs, n: nat, i: Inode)
    requires Admissible(|fs.disk|) && InodeExists(|fs.disk|, n)
    ensures var fs' := InodeWritten(fs, n, i);
      TableBlock(n) < |fs.disk| && fs'.disk[TableBlock(n)] == PutBytes(fs.disk[TableBlock(n)], TableByte(n), i) &&
      InodeIndex(n) < 8192 && InodeMap(fs', InodeGroup(n)) == SetAt(InodeMap(fs, InodeGroup(n)), InodeIndex(n)) &&
      forall b :: 0 <= b < |fs.disk| && b != TableBlock(n) && b != 8192 * InodeGroup(n) + 4 ==>
        fs'.disk[b] == fs.disk[b]
  {
    TableOnDisk(|fs.disk|, n);
  }

  lemma {:induction false} WriteThenSlot(fs: Fs, n: nat, i: Inode, m: nat)
    requires Admissible(|fs.disk|) && InodeExists(|fs.disk|, n) && InodeExists(|fs.disk|, m)
    ensures InodeSlot(InodeWritten(fs, n, i), m) == if m == n then i else InodeSlot(fs, m)
  {
    var fs' := InodeWritten(fs, n, i);
    TableOnDisk(|fs.disk|, n);
    TableOnDisk(|fs.disk|, m);
    InodeWrittenDisk(fs, n, i);
    if m != n {
      SlotsDisjoint(|fs.disk|, m, n);
      if TableBlock(m) != TableBlock(n) {
        TableAvoidsMaps(|fs.disk|, m, InodeGroup(n));
      }
    }
  }

  /** No inode-table block is the descriptor table or a bitmap of any group. */
  lemma {:induction false} TableAvoidsMaps(blocks: nat, n: nat, g: nat)
    requires Admissible(blocks) && InodeExists(blocks, n)
    ensures TableBlock(n) != 2 && TableBlock(n) != 8192 * g + 3 && TableBlock(n) != 8192 * g + 4
  {
    TableOnDisk(blocks, n);
  }

  lemma {:induction false} WriteThenAllocated(fs: Fs, n: nat, i: Inode, m: nat)
    requires Admissible(|fs.disk|) && InodeExists(|fs.disk|, n) && InodeExists(|fs.disk|, m)
    ensures InodeAllocated(InodeWritten(fs, n, i), m) == (m == n || InodeAllocated(fs, m))
  {
    TableOnDisk(|fs.disk|, m);
    InodeWrittenDisk(fs, n, i);
    if m != n {
      SlotsDisjoint(|fs.disk|, m, n);
    }
    TableAvoidsMaps(|fs.disk|, n, InodeGroup(m));
  }

  /** Writing an inode and reading it back gives it, without error; every other number reads as before. */
  lemma {:induction false} WriteThenRead(fs: Fs, n: nat, i: Inode, m: nat)
    requires Admissible(|fs.disk|) && InodeExists(|fs.disk|, n) && InodeExists(|fs.disk|, m)
    ensures InodeRead(InodeWritten(fs, n, i), n) == (NoError, i)
    ensures m != n ==> InodeRead(InodeWritten(fs, n, i), m) == InodeRead(fs, m)
  {
    WriteThenSlot(fs, n, i, n);
    WriteThenSlot(fs, n, i, m);
    WriteThenAllocated(fs, n, i, n);
    WriteThenAllocated(fs, n, i, m);
  }

  /** Inode `n` is record `(n - 1) % 1712` of group `(n - 1) / 1712`, eight records to a block from block 5 of the group
      on; its bit is in block 4. */
  lemma {:induction false} InodePlace(fs: Fs, n: nat, g: nat, x: nat)
    requires Admissible(|fs.disk|) && InodeExists(|fs.disk|, n) && x < 1712 && n == 1712 * g + x + 1
    ensures 8192 * g + 5 + x / 8 < |fs.disk|
    ensures InodeSlot(fs, n) == fs.disk[8192 * g + 5 + x / 8][128 * (x % 8)..128 * (x % 8) + 128]
    ensures InodeAllocated(fs, n) == BitAt(fs.disk[8192 * g + 4], x)
  {
    TableOnDisk(|fs.disk|, n);
    assert InodeGroup(n) == g && InodeIndex(n) == x;
  }

  /** Bit `x` is set in `bm'`, and every other bit is as in `bm`. */
  ghost predicate OneMore(bm: Block, bm': Block, x: nat) {
    forall y :: 0 <= y < 8192 ==> BitAt(bm', y) == (y == x || BitAt(bm, y))
  }

  /** Writing inode `n` sets that bit and those 128 bytes, and nothing else on the disk or in the superblock. */
  lemma {:induction false} WritePlace(fs: Fs, n: nat, i: Inode, g: nat, x: nat)
    requires Admissible(|fs.disk|) && InodeExists(|fs.disk|, n) && x < 1712 && n == 1712 * g + x + 1
    ensures var fs', t, o := InodeWritten(fs, n, i), 8192 * g + 5 + x / 8, 128 * (x % 8);
      t < |fs.disk| && fs'.sb == fs.sb && OnlyAt(fs.disk[t], fs'.disk[t], o, 128) && fs'.disk[t][o..o + 128] == i &&
      OneMore(fs.disk[8192 * g + 4], fs'.disk[8192 * g + 4], x) &&
      forall b :: 0 <= b < |fs.disk| && b != t && b != 8192 * g + 4 ==> fs'.disk[b] == fs.disk[b]
  {
    TableOnDisk(|fs.disk|, n);
    assert InodeGroup(n) == g && InodeIndex(n) == x;
    InodeWrittenDisk(fs, n, i);
  }

  // ----- accounting -----

  /** Inode bitmap of group `g` against its descriptor; the bits past the last inode are set. */
  ghost predicate InodeGroupCounted(fs: Fs, g: nat)
    requires Laid(fs) && g < Groups(|fs.disk|)
  {
    Free(InodeMap(fs, g)) == BgFreeInodes(Desc(fs), g) &&
    forall x :: 1712 <= x < 8192 ==> BitAt(InodeMap(fs, g), x)
  }

  ghost predicate InodesCounted(fs: Fs) {
    Laid(fs) && (forall g :: 0 <= g < Groups(|fs.disk|) ==> InodeGroupCounted(fs, g)) &&
    SumFreeInodes(Desc(fs), Groups(|fs.disk|)) == SbFreeInodes(fs.sb)
  }

  lemma {:induction false} WriteKeepsLayout(fs: Fs, n: nat, i: Inode)
    requires Laid(fs) && InodeExists(|fs.disk|, n)
    ensures var fs' := InodeWritten(fs, n, i);
      Laid(fs') && Desc(fs') == Desc(fs) && forall g :: 0 <= g < Groups(|fs.disk|) ==>
        BlockMap(fs', g) == BlockMap(fs, g) && (g != InodeGroup(n) ==> InodeMap(fs', g) == InodeMap(fs, g))
  {
    InodeWrittenDisk(fs, n, i);
    forall g | 0 <= g < Groups(|fs.disk|)
      ensures BlockMap(InodeWritten(fs, n, i), g) == BlockMap(fs, g)
      ensures g != InodeGroup(n) ==> InodeMap(InodeWritten(fs, n, i), g) == InodeMap(fs, g)
    {
      MetaOnDisk(|fs.disk|, g);
      TableAvoidsMaps(|fs.disk|, n, g);
    }
  }

  /** `ext2_write_inode` sets the inode's bit but touches no count: it keeps the inode accounting
      exactly when the inode was allocated before the call. */
  lemma {:induction false} WriteKeepsAccounting(fs: Fs, n: nat, i: Inode)
    requires InodesCounted(fs) && InodeExists(|fs.disk|, n)
    ensures InodesCounted(InodeWritten(fs, n, i)) <==> InodeAllocated(fs, n)
  {
    var fs', g := InodeWritten(fs, n, i), InodeGroup(n);
    WriteKeepsLayout(fs, n, i);
    InodeWrittenDisk(fs, n, i);
    var a, b := InodeMap(fs, g), InodeMap(fs', g);
    assert InodeGroupCounted(fs, g);
    if InodeAllocated(fs, n) {
      ZerosSame(a, b, 8 * |a|);
      forall h | 0 <= h < Groups(|fs.disk|) ensures InodeGroupCounted(fs', h) {
        assert InodeGroupCounted(fs, h);
      }
    } else {
      FreeSet(a, InodeIndex(n));
      assert !InodeGroupCounted(fs', g);
    }
  }

  // ----- allocation of a given inode -----

  /** The state after `allocate_inode` with `allocate_given` set. */
  function InodeTaken(fs: Fs, n: nat, isDir: bool): (fs': Fs)
    requires Admissible(|fs.disk|) && InodeExists(|fs.disk|, n)
    ensures |fs'.disk| == |fs.disk|
  {
    if InodeAllocated(fs, n) then fs
    else
      TableOnDisk(|fs.disk|, n);
      var g := InodeGroup(n);
      Fs(fs.disk[8192 * g + 4 := SetAt(InodeMap(fs, g), InodeIndex(n))][2 := TakenDesc(Desc(fs), g, isDir)],
         Put32(fs.sb, 16, Sub32(SbFreeInodes(fs.sb), 1)))
  }

  /** One inode less, and perhaps one directory more, in descriptor `g`; both counters are 16 bits wide. */
  function TakenDesc(t: Block, g: nat, isDir: bool): (t': Block)
    requires g < 32
  {
    var t1 := Put16(t, 32 * g + 14, Dec16(BgFreeInodes(t, g)));
    if isDir then Put16(t1, 32 * g + 16, Inc16(BgUsedDirs(t, g))) else t1
  }

  lemma {:induction false} TakenDescFields(t: Block, g: nat, isDir: bool)
    requires g < 32
    ensures var t' := TakenDesc(t, g, isDir);
      SameAddresses(t, t') && BgFreeInodes(t', g) == Dec16(BgFreeInodes(t, g)) &&
      (BgUsedDirs(t', g) == if isDir then Inc16(BgUsedDirs(t, g)) else BgUsedDirs(t, g)) &&
      forall h :: 0 <= h < 32 ==>
        BgFreeBlocks(t', h) == BgFreeBlocks(t, h) &&
        (h != g ==> BgFreeInodes(t', h) == BgFreeInodes(t, h) && BgUsedDirs(t', h) == BgUsedDirs(t, h))
  {
    var t1 := Put16(t, 32 * g + 14, Dec16(BgFreeInodes(t, g)));
    var t' := TakenDesc(t, g, isDir);
    assert OnlyAt(t, t1, 32 * g + 14, 2) && OnlyAt(t1, t', 32 * g + 16, 2);
    assert OnlyAt(t, t', 32 * g + 14, 4);
    forall h | 0 <= h < 32
      ensures BgBlockBitmap(t', h) == BgBlockBitmap(t, h) && BgInodeBitmap(t', h) == BgInodeBitmap(t, h)
      ensures BgInodeTable(t', h) == BgInodeTable(t, h) && BgFreeBlocks(t', h) == BgFreeBlocks(t, h)
      ensures h != g ==> BgFreeInodes(t', h) == BgFreeInodes(t, h) && BgUsedDirs(t', h) == BgUsedDirs(t, h)
    {
    }
  }

  lemma {:induction false} SumInodesLess(t: Block, t': Block, n: nat, g: nat)
    requires g < 32 && n <= 32 && BgFreeInodes(t', g) == BgFreeInodes(t, g) - 1
    requires forall h :: 0 <= h < 32 && h != g ==> BgFreeInodes(t', h) == BgFreeInodes(t, h)
    ensures SumFreeInodes(t', n) == SumFreeInodes(t, n) - (if g < n then 1 else 0)
    decreases n
  {
    if n > 0 {
      SumInodesLess(t, t', n - 1, g);
    }
  }

  lemma {:induction false} SumInodesAtLeast(t: Block, n: nat, g: nat)
    requires g < n <= 32
    ensures BgFreeInodes(t, g) <= SumFreeInodes(t, n)
    decreases n
  {
    if g < n - 1 {
      SumInodesAtLeast(t, n - 1, g);
    }
  }

  lemma {:induction false} TakeDisk(fs: Fs, n: nat, isDir: bool)
    requires Laid(fs) && InodeExists(|fs.disk|, n) && !InodeAllocated(fs, n)
    ensures var fs', g := InodeTaken(fs, n, isDir), InodeGroup(n);
      g < 32 && InodeIndex(n) < 1712 &&
      Desc(fs') == TakenDesc(Desc(fs), g, isDir) && InodeMap(fs', g) == SetAt(InodeMap(fs, g), InodeIndex(n)) &&
      (forall b :: 0 <= b < |fs.disk| && b != 2 && b != 8192 * g + 4 ==> fs'.disk[b] == fs.disk[b])
  {
    TableOnDisk(|fs.disk|, n);
  }

  /** Descriptor `g` counts one free inode less and `dirs` directories more, in 16 bits; no other byte changes. */
  ghost predicate DescTook(t: Block, t': Block, g: nat, dirs: nat)
    requires g < 32
  {
    OnlyAt(t, t', 32 * g + 14, 4) && U16(t', 32 * g + 14) == (U16(t, 32 * g + 14) - 1) % 0x1_0000 &&
    U16(t', 32 * g + 16) == (U16(t, 32 * g + 16) + dirs) % 0x1_0000
  }

  /** The superblock in the mount context counts one free inode less, in 32 bits. */
  ghost predicate SuperTook(sb: Block, sb': Block) {
    OnlyAt(sb, sb', 16, 4) && U32(sb', 16) == (U32(sb, 16) - 1) % 0x1_0000_0000
  }

  /** Allocating inode `n` for the first time: its bit is set, the two free counts fall by one, and for a directory the
      count of directories of the group rises by one; nothing else changes. */
  lemma {:induction false} TakePlace(fs: Fs, n: nat, isDir: bool, g: nat, x: nat)
    requires Laid(fs) && InodeExists(|fs.disk|, n) && x < 1712 && n == 1712 * g + x + 1 && g < 32
    requires 8192 * g + 4 < |fs.disk| && !BitAt(fs.disk[8192 * g + 4], x)
    ensures var fs' := InodeTaken(fs, n, isDir);
      OneMore(fs.disk[8192 * g + 4], fs'.disk[8192 * g + 4], x) &&
      DescTook(fs.disk[2], fs'.disk[2], g, if isDir then 1 else 0) &&
      SuperTook(fs.sb, fs'.sb) &&
      forall b :: 0 <= b < |fs.disk| && b != 2 && b != 8192 * g + 4 ==> fs'.disk[b] == fs.disk[b]
  {
    InodePlace(fs, n, g, x);
    assert InodeGroup(n) == g && InodeIndex(n) == x;
    TakeDisk(fs, n, isDir);
    TakenDescTook(Desc(fs), g, isDir);
    TakenSuper(fs.sb);
  }

  lemma TakenSuper(sb: Block)
    ensures var sb' := Put32(sb, 16, Sub32(SbFreeInodes(sb), 1)); SuperTook(sb, sb')
  {
  }

  lemma {:induction false} TakenDescTook(t: Block, g: nat, isDir: bool)
    requires g < 32
    ensures DescTook(t, TakenDesc(t, g, isDir), g, if isDir then 1 else 0)
  {
    var t1 := Put16(t, 32 * g + 14, Dec16(BgFreeInodes(t, g)));
    assert OnlyAt(t1, TakenDesc(t, g, isDir), 32 * g + 16, 2);
  }

  lemma {:induction false} TakeLaid(fs: Fs, n: nat, isDir: bool)
    requires Laid(fs) && InodeExists(|fs.disk|, n) && !InodeAllocated(fs, n)
    ensures var fs' := InodeTaken(fs, n, isDir);
      Laid(fs') && SbFreeBlocks(fs'.sb) == SbFreeBlocks(fs.sb) &&
      SbFreeInodes(fs'.sb) == Sub32(SbFreeInodes(fs.sb), 1)
  {
    TakeDisk(fs, n, isDir);
    TakenDescFields(Desc(fs), InodeGroup(n), isDir);
    LaidKept(fs, InodeTaken(fs, n, isDir));
  }

  lemma {:induction false} TakeKeepsGroup(fs: Fs, n: nat, isDir: bool, h: nat)
    requires Laid(fs) && InodeExists(|fs.disk|, n) && !InodeAllocated(fs, n) && h < Groups(|fs.disk|)
    requires InodeGroupCounted(fs, h) && Laid(InodeTaken(fs, n, isDir))
    ensures InodeGroupCounted(InodeTaken(fs, n, isDir), h)
    ensures h == InodeGroup(n) ==> BgFreeInodes(Desc(fs), h) > 0
  {
    var fs', g := InodeTaken(fs, n, isDir), InodeGroup(n);
    TakeDisk(fs, n, isDir);
    TakenDescFields(Desc(fs), g, isDir);
    MetaOnDisk(|fs.disk|, h);
    if h == g {
      FreeSet(InodeMap(fs, g), InodeIndex(n));
    } else {
      assert InodeMap(fs', h) == InodeMap(fs, h);
    }
  }

  lemma {:induction false} TakeKeepsSum(fs: Fs, n: nat, isDir: bool)
    requires Laid(fs) && InodeExists(|fs.disk|, n) && !InodeAllocated(fs, n)
    requires BgFreeInodes(Desc(fs), InodeGroup(n)) > 0
    requires SumFreeInodes(Desc(fs), Groups(|fs.disk|)) == SbFreeInodes(fs.sb)
    ensures var fs' := InodeTaken(fs, n, isDir);
      SumFreeInodes(Desc(fs'), Groups(|fs.disk|)) == SbFreeInodes(fs'.sb) == SbFreeInodes(fs.sb) - 1
  {
    var fs', g, G := InodeTaken(fs, n, isDir), InodeGroup(n), Groups(|fs.disk|);
    TakeDisk(fs, n, isDir);
    TakeLaid(fs, n, isDir);
    TakenDescFields(Desc(fs), g, isDir);
    SumInodesLess(Desc(fs), Desc(fs'), G, g);
    SumInodesAtLeast(Desc(fs), G, g);
  }

  /** Allocating an inode keeps bitmap, descriptor and superblock counts in agreement. */
  lemma {:induction false} TakeKeepsAccounting(fs: Fs, n: nat, isDir: bool)
    requires InodesCounted(fs) && InodeExists(|fs.disk|, n)
    ensures InodesCounted(InodeTaken(fs, n, isDir))
  {
    if !InodeAllocated(fs, n) {
      var fs' := InodeTaken(fs, n, isDir);
      TakeLaid(fs, n, isDir);
      forall h | 0 <= h < Groups(|fs.disk|) ensures InodeGroupCounted(fs', h) {
        TakeKeepsGroup(fs, n, isDir, h);
      }
      TakeKeepsGroup(fs, n, isDir, InodeGroup(n));
      TakeKeepsSum(fs, n, isDir);
    }
  }

  /** Exactly the given inode becomes allocated, and no inode slot changes. */
  lemma {:induction false} TakeAllocates(fs: Fs, n: nat, isDir: bool, m: nat)
    requires Laid(fs) && InodeExists(|fs.disk|, n) && InodeExists(|fs.disk|, m)
    ensures InodeAllocated(InodeTaken(fs, n, isDir), m) == (m == n || InodeAllocated(fs, m))
    ensures InodeSlot(InodeTaken(fs, n, isDir), m) == InodeSlot(fs, m)
  {
    if !InodeAllocated(fs, n) {
      TakeDisk(fs, n, isDir);
      TableOnDisk(|fs.disk|, m);
      TableAvoidsMaps(|fs.disk|, m, InodeGroup(n));
      if m != n {
        SlotsDisjoint(|fs.disk|, m, n);
      }
    }
  }

  // ----- the routines -----

  /** `ext2_read_inode`: the table block goes through the device's shared buffer. */
  method ReadInode(mnt: Mount, n: nat) returns (ret: Ret, inode: Inode)
    requires mnt.Valid() && InodeExists(|mnt.State().disk|, n)
    modifies mnt.device.rwBuffer
    ensures mnt.State() == old(mnt.State())
    ensures (ret, inode) == InodeRead(mnt.State(), n)
  {
    ghost var fs := mnt.State();
    var g, local := InodePosition(mnt.superblock, n);
    TableOnDisk(|fs.disk|, n);
    var t := mnt.device.ReadBlock(2);
    assert DescAddressed(t, Groups(|fs.disk|), g);
    var bitmap := mnt.device.ReadBlock(BgInodeBitmap(t, g));
    if !BitAt(bitmap, local) {
      return NotFound, NoInode();
    }
    var rw := mnt.device.rwBuffer;
    mnt.device.ReadBlocks(BgInodeTable(t, g) + local / 8, rw, 1);
    var at := 128 * (local % 8);
    inode := rw[at..at + 128];
    assert inode == rw[..1024][at..at + 128];
    ret := NoError;
  }

  /** Group and index of an inode number, by the superblock's inodes per group. */
  method InodePosition(sb: Block, n: nat) returns (group: nat, local: nat)
    requires n > 0 && SbInodesPerGroup(sb) == 1712
    ensures group == InodeGroup(n) && local == InodeIndex(n) && local < 1712
  {
    var perGroup := SbInodesPerGroup(sb);
    group := (n - 1) / perGroup;
    local := (n - 1) % perGroup;
  }

  /** `ext2_write_inode`. */
  method WriteInode(mnt: Mount, inode: Inode, n: nat)
    requires mnt.Valid() && InodeExists(|mnt.State().disk|, n)
    modifies mnt.device`sectors, mnt.device.rwBuffer
    ensures mnt.State() == InodeWritten(old(mnt.State()), n, inode)
  {
    ghost var fs := mnt.State();
    var g, local := InodePosition(mnt.superblock, n);
    TableOnDisk(|fs.disk|, n);
    var t := mnt.device.ReadBlock(2);
    assert DescAddressed(t, Groups(|fs.disk|), g);
    var bitmap := mnt.device.ReadBlock(BgInodeBitmap(t, g));
    mnt.device.WriteBlock(BgInodeBitmap(t, g), SetAt(bitmap, local));
    TableAvoidsMaps(|fs.disk|, n, g);
    StoreSlot(mnt.device, BgInodeTable(t, g) + local / 8, 128 * (local % 8), inode);
  }

  /** Reads a table block into the shared buffer, replaces one record and writes the block back. */
  method StoreSlot(dev: BlockDevice, block: nat, at: nat, inode: Inode)
    requires dev.Valid() && block < |dev.Blocks()| && at + 128 <= 1024
    modifies dev`sectors, dev.rwBuffer
    ensures dev.Blocks() == old(dev.Blocks())[block := PutBytes(old(dev.Blocks())[block], at, inode)]
  {
    var rw := dev.rwBuffer;
    dev.ReadBlocks(block, rw, 1);
    ghost var before := rw[..];
    assert before[..1024] == dev.Blocks()[block];
    CopyIn(rw, at, inode);
    assert rw[..1024] == rw[..][..1024] == PutBytes(before[..1024], at, inode);
    dev.WriteBlocks(block, rw, 1);
  }

  /** `allocate_inode` with `allocate_given` set, as every caller uses it. */
  method AllocateInode(mnt: Mount, n: nat, isDir: bool) returns (ret: Ret)
    requires mnt.Valid() && InodeExists(|mnt.State().disk|, n)
    modifies mnt`superblock, mnt.device`sectors
    ensures ret == if InodeAllocated(old(mnt.State()), n) then Unavailable else NoError
    ensures mnt.State() == InodeTaken(old(mnt.State()), n, isDir)
  {
    ghost var fs := mnt.State();
    var g, local := InodePosition(mnt.superblock, n);
    TableOnDisk(|fs.disk|, n);
    var t := mnt.device.ReadBlock(2);
    assert DescAddressed(t, Groups(|fs.disk|), g);
    var bitmap := mnt.device.ReadBlock(BgInodeBitmap(t, g));
    if BitAt(bitmap, local) {
      return Unavailable;
    }
    CommitInode(mnt, t, bitmap, g, local, isDir);
    ret := NoError;
  }

  /** The commit part of `allocate_inode`. */
  method CommitInode(mnt: Mount, t: Block, bitmap: Block, g: nat, local: nat, isDir: bool)
    requires mnt.device.Valid() && Admissible(|mnt.State().disk|) && g < Groups(|mnt.State().disk|) && local < 1712
    requires BgInodeBitmap(t, g) == 8192 * g + 4
    modifies mnt`superblock, mnt.device`sectors
    ensures mnt.superblock == Put32(old(mnt.superblock), 16, Sub32(SbFreeInodes(old(mnt.superblock)), 1))
    ensures mnt.device.Blocks() ==
      old(mnt.device.Blocks())[8192 * g + 4 := SetAt(bitmap, local)][2 := TakenDesc(t, g, isDir)]
  {
    mnt.superblock := Put32(mnt.superblock, 16, Sub32(SbFreeInodes(mnt.superblock), 1));
    mnt.device.WriteBlock(BgInodeBitmap(t, g), SetAt(bitmap, local));
    var t' := Put16(t, 32 * g + 14, Dec16(BgFreeInodes(t, g)));
    if isDir {
      t' := Put16(t', 32 * g + 16, Inc16(BgUsedDirs(t, g)));
    }
    mnt.device.WriteBlock(2, t');
  }
}
