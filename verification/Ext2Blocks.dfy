/** Block allocation: what `allocate_blocks` does to the bitmaps and the counts, and what runs of it keep. */
module Ext2Blocks {
  import opened Bytes
  import opened Bits
  import opened Device
  import opened Ext2Layout
  import opened Ext2Mount
  import opened Status

  /** A request size; the scan never stops on a request for no blocks. */
  type Count = c: int | c >= 1 witness 1

  // ----- what one group can offer -----

  /** The scan takes the lowest zero bit of each byte that has one, at most `c` of them, from byte `j` on. */
  function Picks(bm: seq<byte>, j: nat, c: nat): (p: seq<nat>)
    requires j <= |bm|
    ensures |p| <= c
    decreases |bm| - j
  {
    if c == 0 || j == |bm| then []
    else if bm[j] == 255 then Picks(bm, j + 1, c)
    else [8 * j + FirstZero(bm[j])] + Picks(bm, j + 1, c - 1)
  }

  /** They are zero bits in increasing order. */
  ghost predicate ZerosAscending(bm: seq<byte>, from: nat, p: seq<nat>) {
    (forall k :: 0 <= k < |p| ==> from <= p[k] < 8 * |bm| && !BitAt(bm, p[k])) &&
    (forall k, l :: 0 <= k < l < |p| ==> p[k] < p[l])
  }

  lemma {:induction false} PicksAreZeros(bm: seq<byte>, j: nat, c: nat)
    requires j <= |bm|
    ensures ZerosAscending(bm, 8 * j, Picks(bm, j, c))
    decreases |bm| - j
  {
    if c > 0 && j < |bm| {
      PicksAreZeros(bm, j + 1, if bm[j] == 255 then c else c - 1);
    }
  }

  /** Bytes from `j` on with a zero bit. */
  function OpenBytes(bm: seq<byte>, j: nat): (n: nat)
    requires j <= |bm|
    decreases |bm| - j
  {
    if j == |bm| then 0 else OpenBytes(bm, j + 1) + (if bm[j] == 255 then 0 else 1)
  }

  /** A group serves a request exactly when that many of its bytes have a zero bit. */
  lemma {:induction false} PicksCount(bm: seq<byte>, j: nat, c: nat)
    requires j <= |bm|
    ensures |Picks(bm, j, c)| == if c <= OpenBytes(bm, j) then c else OpenBytes(bm, j)
    decreases |bm| - j
  {
    if c > 0 && j < |bm| {
      PicksCount(bm, j + 1, if bm[j] == 255 then c else c - 1);
    }
  }

  function MarkAll(bm: seq<byte>, xs: seq<nat>): (r: seq<byte>)
    requires forall k :: 0 <= k < |xs| ==> xs[k] < 8 * |bm|
    ensures |r| == |bm|
    ensures forall y {:trigger BitAt(r, y)} :: 0 <= y < 8 * |bm| ==> BitAt(r, y) == (y in xs || BitAt(bm, y))
    decreases |xs|
  {
    if xs == [] then bm else SetAt(MarkAll(bm, xs[..|xs| - 1]), xs[|xs| - 1])
  }

  /** Marking distinct zero bits lowers the free count by their number. */
  lemma {:induction false} MarkAllFree(bm: seq<byte>, xs: seq<nat>)
    requires ZerosAscending(bm, 0, xs)
    ensures Free(MarkAll(bm, xs)) == Free(bm) - |xs|
    decreases |xs|
  {
    if xs != [] {
      var init, x := xs[..|xs| - 1], xs[|xs| - 1];
      MarkAllFree(bm, init);
      assert !BitAt(MarkAll(bm, init), x);
      FreeSet(MarkAll(bm, init), x);
    }
  }

  // ----- the search over groups -----

  datatype Outcome =
    | Granted(group: nat, bits: seq<nat>)  // blocks were marked
    | NoGroup                              // met an unused descriptor: SYS_RET_NOT_FOUND
    | Exhausted                            // passed all 32 descriptors: SYS_RET_NO_ERROR, nothing marked
  {
    function Blocks(): (b: seq<nat>)
      ensures Granted? ==> |b| == |bits| && forall k :: 0 <= k < |b| ==> b[k] == BlockAt(group, bits[k])
      ensures !Granted? ==> b == []
    {
      if Granted? then seq(|bits|, k requires 0 <= k < |bits| => BlockAt(group, bits[k])) else []
    }
  }

  predicate InGroup(bits: seq<nat>) { forall k :: 0 <= k < |bits| ==> bits[k] < 8192 }

  /** Group `g` serves a request for `count` blocks. */
  predicate Serves(fs: Fs, count: nat, g: nat)
    requires Admissible(|fs.disk|) && g < Groups(|fs.disk|)
  {
    BgFreeBlocks(Desc(fs), g) >= count && |Picks(BlockMap(fs, g), 0, count)| == count
  }

  /** The search of `allocate_blocks` from group `i` on. */
  function Search(fs: Fs, count: nat, i: nat): (o: Outcome)
    requires Laid(fs) && i <= 32
    ensures o.Granted? ==>
      i <= o.group < Groups(|fs.disk|) && Serves(fs, count, o.group) &&
      o.bits == Picks(BlockMap(fs, o.group), 0, count)
    decreases 32 - i
  {
    if i == 32 then Exhausted
    else
      assert DescAddressed(Desc(fs), Groups(|fs.disk|), i);
      if BgBlockBitmap(Desc(fs), i) == 0 then NoGroup
      else if Serves(fs, count, i) then Granted(i, Picks(BlockMap(fs, i), 0, count))
      else Search(fs, count, i + 1)
  }

  /** The search finds the first group that serves the request, or none does. */
  lemma {:induction false} SearchIsFirst(fs: Fs, count: nat, i: nat)
    requires Laid(fs) && i <= Groups(|fs.disk|)
    ensures var o := Search(fs, count, i);
      if o.Granted? then forall g :: i <= g < o.group ==> !Serves(fs, count, g)
      else (forall g :: i <= g < Groups(|fs.disk|) ==> !Serves(fs, count, g)) &&
           (o.NoGroup? <==> Groups(|fs.disk|) < 32)
    decreases 32 - i
  {
    if i < 32 {
      assert DescAddressed(Desc(fs), Groups(|fs.disk|), i);
      if i < Groups(|fs.disk|) && !Serves(fs, count, i) {
        SearchIsFirst(fs, count, i + 1);
      }
    }
  }

  /** A group serves a request exactly when its descriptor counts enough free blocks and enough bytes of its bitmap are
      not full. */
  lemma {:induction false} ServesMeans(fs: Fs, count: nat, g: nat)
    requires Laid(fs) && g < Groups(|fs.disk|)
    ensures g < 32 && 8192 * g + 3 < |fs.disk|
    ensures Serves(fs, count, g) <==>
      U16(fs.disk[2], 32 * g + 12) >= count && OpenBytes(fs.disk[8192 * g + 3], 0) >= count
  {
    MetaOnDisk(|fs.disk|, g);
    PicksCount(BlockMap(fs, g), 0, count);
  }

  /** One group has 1024 bitmap bytes and gives at most one block of each: no larger request is ever granted. On a disk
      of 32 groups the call still reports success. */
  lemma {:induction false} LargeRequestsFail(fs: Fs, count: nat)
    requires Laid(fs) && count > 1024
    ensures Search(fs, count, 0) == if Groups(|fs.disk|) < 32 then NoGroup else Exhausted
  {
    SearchIsFirst(fs, count, 0);
    var o := Search(fs, count, 0);
    if o.Granted? {
      var bm := BlockMap(fs, o.group);
      PicksCount(bm, 0, count);
      OpenBytesBound(bm, 0);
    }
  }

  lemma {:induction false} OpenBytesBound(bm: seq<byte>, j: nat)
    requires j <= |bm|
    ensures OpenBytes(bm, j) <= |bm| - j
    decreases |bm| - j
  {
    if j < |bm| {
      OpenBytesBound(bm, j + 1);
    }
  }

  /** Marks `bits` of group `g` and takes them off the two counts, in 16-bit and 32-bit arithmetic. */
  function Grant(fs: Fs, g: nat, bits: seq<nat>): (fs': Fs)
    requires Laid(fs) && g < Groups(|fs.disk|) && InGroup(bits) && |bits| <= BgFreeBlocks(Desc(fs), g)
    ensures |fs'.disk| == |fs.disk|
  {
    var t := Desc(fs);
    Fs(fs.disk[8192 * g + 3 := MarkAll(BlockMap(fs, g), bits)]
              [2 := Put16(t, 32 * g + 12, BgFreeBlocks(t, g) - |bits|)],
       Put32(fs.sb, 12, Sub32(SbFreeBlocks(fs.sb), |bits|)))
  }

  /** Bits that a group can grant: zero, and in increasing order. */
  ghost predicate Grantable(fs: Fs, g: nat, bits: seq<nat>) {
    Laid(fs) && g < Groups(|fs.disk|) && InGroup(bits) && |bits| <= BgFreeBlocks(Desc(fs), g) &&
    ZerosAscending(BlockMap(fs, g), 0, bits)
  }

  lemma {:induction false} SearchGrantable(fs: Fs, count: nat)
    requires Laid(fs)
    ensures var o := Search(fs, count, 0); o.Granted? ==> Grantable(fs, o.group, o.bits) && |o.bits| == count
  {
    var o := Search(fs, count, 0);
    if o.Granted? {
      PicksAreZeros(BlockMap(fs, o.group), 0, count);
    }
  }

  /** The state after `allocate_blocks`. */
  function Allocated(fs: Fs, count: nat): (fs': Fs)
    requires Laid(fs)
    ensures |fs'.disk| == |fs.disk|
  {
    var o := Search(fs, count, 0);
    SearchGrantable(fs, count);
    if o.Granted? then Grant(fs, o.group, o.bits) else fs
  }

  // ----- what one call keeps -----

  lemma {:induction false} SumOneLess(t: Block, t': Block, n: nat, g: nat, c: nat)
    requires g < 32 && n <= 32
    requires BgFreeBlocks(t', g) == BgFreeBlocks(t, g) - c
    requires forall h :: 0 <= h < 32 && h != g ==> BgFreeBlocks(t', h) == BgFreeBlocks(t, h)
    ensures SumFreeBlocks(t', n) == SumFreeBlocks(t, n) - (if g < n then c else 0)
    decreases n
  {
    if n > 0 {
      SumOneLess(t, t', n - 1, g, c);
    }
  }

  /** Only the free count of descriptor `g` changes. */
  lemma {:induction false} PutFreeBlocks(t: Block, g: nat, v: nat)
    requires g < 32 && v < 0x1_0000
    ensures var t' := Put16(t, 32 * g + 12, v);
      SameAddresses(t, t') && BgFreeBlocks(t', g) == v &&
      forall h :: 0 <= h < 32 ==>
        (h != g ==> BgFreeBlocks(t', h) == BgFreeBlocks(t, h)) &&
        BgFreeInodes(t', h) == BgFreeInodes(t, h)
  {
    var t' := Put16(t, 32 * g + 12, v);
    forall h | 0 <= h < 32
      ensures BgBlockBitmap(t', h) == BgBlockBitmap(t, h) && BgInodeBitmap(t', h) == BgInodeBitmap(t, h)
      ensures BgInodeTable(t', h) == BgInodeTable(t, h) && BgFreeInodes(t', h) == BgFreeInodes(t, h)
      ensures h != g ==> BgFreeBlocks(t', h) == BgFreeBlocks(t, h)
    {
    }
  }

  /** The superblock keeps its other fields. */
  lemma PutSbFree(sb: Block, v: nat)
    requires v < 0x1_0000_0000
    ensures var sb' := Put32(sb, 12, v);
      SbFreeBlocks(sb') == v && SbBlocksPerGroup(sb') == SbBlocksPerGroup(sb) &&
      SbInodesPerGroup(sb') == SbInodesPerGroup(sb) && SbFreeInodes(sb') == SbFreeInodes(sb)
  {
  }

  /** What a grant changes on the disk: one bitmap and the descriptor table. */
  lemma {:induction false} GrantDisk(fs: Fs, g: nat, bits: seq<nat>)
    requires Grantable(fs, g, bits)
    ensures var fs' := Grant(fs, g, bits);
      BlockMap(fs', g) == MarkAll(BlockMap(fs, g), bits) &&
      forall b :: 0 <= b < |fs.disk| && b != 2 && b != 8192 * g + 3 ==> fs'.disk[b] == fs.disk[b]
  {
    MetaOnDisk(|fs.disk|, g);
    var t, bm := Desc(fs), MarkAll(BlockMap(fs, g), bits);
    var t' := Put16(t, 32 * g + 12, BgFreeBlocks(t, g) - |bits|);
    assert Grant(fs, g, bits).disk == fs.disk[8192 * g + 3 := bm][2 := t'];
  }

  lemma {:induction false} GrantLaid(fs: Fs, g: nat, bits: seq<nat>)
    requires Grantable(fs, g, bits)
    ensures var fs' := Grant(fs, g, bits);
      Laid(fs') && SbFreeInodes(fs'.sb) == SbFreeInodes(fs.sb) &&
      SbFreeBlocks(fs'.sb) == Sub32(SbFreeBlocks(fs.sb), |bits|)
  {
    var fs', t := Grant(fs, g, bits), Desc(fs);
    var v, f := BgFreeBlocks(Desc(fs), g) - |bits|, Sub32(SbFreeBlocks(fs.sb), |bits|);
    assert Desc(fs') == Put16(t, 32 * g + 12, v) && fs'.sb == Put32(fs.sb, 12, f);
    PutSbFree(fs.sb, f);
    assert SameAddresses(t, Desc(fs')) by { PutFreeBlocks(t, g, v); }
    LaidKept(fs, fs');
  }

  lemma {:induction false} GrantCounts(fs: Fs, g: nat, bits: seq<nat>)
    requires Grantable(fs, g, bits)
    ensures var t, t' := Desc(fs), Desc(Grant(fs, g, bits));
      BgFreeBlocks(t', g) == BgFreeBlocks(t, g) - |bits| &&
      forall h :: 0 <= h < 32 ==>
        (h != g ==> BgFreeBlocks(t', h) == BgFreeBlocks(t, h)) && BgFreeInodes(t', h) == BgFreeInodes(t, h)
  {
    PutFreeBlocks(Desc(fs), g, BgFreeBlocks(Desc(fs), g) - |bits|);
  }

  lemma {:induction false} SumAtLeast(t: Block, n: nat, g: nat)
    requires g < n <= 32
    ensures BgFreeBlocks(t, g) <= SumFreeBlocks(t, n)
    decreases n
  {
    if g < n - 1 {
      SumAtLeast(t, n - 1, g);
    }
  }

  /** The bitmap of every group after a grant still agrees with its descriptor. */
  lemma {:induction false} GrantKeepsGroup(fs: Fs, g: nat, bits: seq<nat>, h: nat)
    requires Grantable(fs, g, bits) && h < Groups(|fs.disk|)
    requires GroupCounted(fs, h) && FreeIsData(fs, h) && Laid(Grant(fs, g, bits))
    ensures GroupCounted(Grant(fs, g, bits), h) && FreeIsData(Grant(fs, g, bits), h)
  {
    var fs' := Grant(fs, g, bits);
    GrantDisk(fs, g, bits);
    GrantCounts(fs, g, bits);
    MetaOnDisk(|fs.disk|, h);
    if h == g {
      MarkAllFree(BlockMap(fs, g), bits);
    } else {
      assert BlockMap(fs', h) == BlockMap(fs, h);
    }
  }

  lemma {:induction false} GrantKeepsSum(fs: Fs, g: nat, bits: seq<nat>)
    requires Grantable(fs, g, bits) && SumFreeBlocks(Desc(fs), Groups(|fs.disk|)) == SbFreeBlocks(fs.sb)
    ensures var fs' := Grant(fs, g, bits);
      SumFreeBlocks(Desc(fs'), Groups(|fs.disk|)) == SbFreeBlocks(fs'.sb) == SbFreeBlocks(fs.sb) - |bits|
  {
    var fs', G := Grant(fs, g, bits), Groups(|fs.disk|);
    GrantLaid(fs, g, bits);
    GrantCounts(fs, g, bits);
    SumOneLess(Desc(fs), Desc(fs'), G, g, |bits|);
    SumAtLeast(Desc(fs), G, g);
  }

  /** After a grant a block is free exactly when it was free and was not granted. */
  lemma {:induction false} GrantTakes(fs: Fs, g: nat, bits: seq<nat>, b: nat)
    requires Grantable(fs, g, bits) && 0 < b && GroupOf(b) < Groups(|fs.disk|)
    ensures BlockFree(Grant(fs, g, bits), b) == (BlockFree(fs, b) && b !in Granted(g, bits).Blocks())
  {
    GrantDisk(fs, g, bits);
    MetaOnDisk(|fs.disk|, GroupOf(b));
    GrantedBlocks(g, bits, b);
    if GroupOf(b) != g {
      assert BlockMap(Grant(fs, g, bits), GroupOf(b)) == BlockMap(fs, GroupOf(b));
    }
  }

  lemma {:induction false} GrantedBlocks(g: nat, bits: seq<nat>, b: nat)
    requires InGroup(bits) && 0 < b
    ensures b in Granted(g, bits).Blocks() <==> GroupOf(b) == g && BitOf(b) in bits
  {
    var blocks := Granted(g, bits).Blocks();
    if GroupOf(b) == g && BitOf(b) in bits {
      var k :| 0 <= k < |bits| && bits[k] == BitOf(b);
      assert blocks[k] == b;
    }
  }

  /** One call keeps the three records of free blocks in agreement. */
  lemma {:induction false} AllocateKeepsCounts(fs: Fs, count: nat)
    requires BlocksCounted(fs)
    ensures BlocksCounted(Allocated(fs, count))
  {
    var o, fs' := Search(fs, count, 0), Allocated(fs, count);
    SearchGrantable(fs, count);
    if o.Granted? {
      GrantLaid(fs, o.group, o.bits);
      GrantKeepsSum(fs, o.group, o.bits);
      forall h | 0 <= h < Groups(|fs.disk|) ensures GroupCounted(fs', h) && FreeIsData(fs', h) {
        GrantKeepsGroup(fs, o.group, o.bits, h);
      }
    }
  }

  /** Free data blocks of the disk, all different. */
  ghost predicate FreshData(fs: Fs, blocks: seq<nat>)
    requires Admissible(|fs.disk|)
  {
    (forall k :: 0 <= k < |blocks| ==> IsData(|fs.disk|, blocks[k]) && BlockFree(fs, blocks[k])) &&
    (forall k, l :: 0 <= k < l < |blocks| ==> blocks[k] != blocks[l])
  }

  /** Between two states exactly `blocks` stopped being free. */
  ghost predicate Taken(fs: Fs, fs': Fs, blocks: seq<nat>)
    requires Admissible(|fs.disk|) && |fs'.disk| == |fs.disk|
  {
    forall b :: 0 < b && GroupOf(b) < Groups(|fs.disk|) ==>
      BlockFree(fs', b) == (BlockFree(fs, b) && b !in blocks)
  }

  lemma {:induction false} GrantIsFreshData(fs: Fs, g: nat, bits: seq<nat>)
    requires Grantable(fs, g, bits) && FreeIsData(fs, g)
    ensures FreshData(fs, Granted(g, bits).Blocks())
  {
    var blocks := Granted(g, bits).Blocks();
    forall k | 0 <= k < |blocks| ensures IsData(|fs.disk|, blocks[k]) && BlockFree(fs, blocks[k]) {
      BlockAtInverse(g, bits[k], 1);
    }
  }

  /** The blocks one call hands out: as many as asked for, free data blocks before the call and all different;
      they and no others are taken by it, and the superblock count falls by their number. */
  lemma {:induction false} AllocateHandsOutFreeData(fs: Fs, count: nat)
    requires BlocksCounted(fs)
    ensures var o, fs' := Search(fs, count, 0), Allocated(fs, count);
      (o.Granted? ==> |o.Blocks()| == count) && FreshData(fs, o.Blocks()) && Taken(fs, fs', o.Blocks()) &&
      SbFreeBlocks(fs'.sb) == SbFreeBlocks(fs.sb) - |o.Blocks()|
  {
    var o, fs' := Search(fs, count, 0), Allocated(fs, count);
    SearchGrantable(fs, count);
    if o.Granted? {
      GrantIsFreshData(fs, o.group, o.bits);
      GrantKeepsSum(fs, o.group, o.bits);
      forall b | 0 < b && GroupOf(b) < Groups(|fs.disk|)
        ensures BlockFree(fs', b) == (BlockFree(fs, b) && b !in o.Blocks())
      {
        GrantTakes(fs, o.group, o.bits, b);
      }
    }
  }

  /** Exactly the bits of `blocks` of group `g` are set in `bm'` besides those of `bm`. */
  ghost predicate MarkedToo(bm: Block, bm': Block, g: nat, blocks: seq<nat>) {
    forall x :: 0 <= x < 8192 ==> BitAt(bm', x) == (8192 * g + x + 1 in blocks || BitAt(bm, x))
  }

  /** The records of group `g` on the disk after a grant: the bits of `blocks` are set in the bitmap, and the descriptor
      counts that many fewer. */
  ghost predicate DiskWrote(d: seq<Block>, d': seq<Block>, g: nat, blocks: seq<nat>) {
    g < 32 && 8192 * g + 3 < |d| == |d'| && MarkedToo(d[8192 * g + 3], d'[8192 * g + 3], g, blocks) &&
    OnlyAt(d[2], d'[2], 32 * g + 12, 2) && U16(d'[2], 32 * g + 12) == U16(d[2], 32 * g + 12) - |blocks| &&
    forall b :: 0 <= b < |d| && b != 2 && b != 8192 * g + 3 ==> d'[b] == d[b]
  }

  /** The superblock in the mount context counts `c` fewer, in 32 bits. */
  ghost predicate SuperWrote(sb: Block, sb': Block, c: nat) {
    OnlyAt(sb, sb', 12, 4) && U32(sb', 12) == (U32(sb, 12) - c) % 0x1_0000_0000
  }

  /** Everything a granted request writes: the bits of the blocks handed out in their group's bitmap, the free count of
      the group in the descriptor table, and the free count of the superblock in the mount context. */
  lemma {:induction false} AllocateWrites(fs: Fs, count: nat)
    requires Laid(fs) && Search(fs, count, 0).Granted?
    ensures var o, fs' := Search(fs, count, 0), Allocated(fs, count);
      |o.Blocks()| == count && DiskWrote(fs.disk, fs'.disk, o.group, o.Blocks()) && SuperWrote(fs.sb, fs'.sb, count)
  {
    var o := Search(fs, count, 0);
    SearchGrantable(fs, count);
    GrantWrites(fs, o.group, o.bits);
  }

  lemma {:induction false} GrantWrites(fs: Fs, g: nat, bits: seq<nat>)
    requires Grantable(fs, g, bits)
    ensures var fs', blocks := Grant(fs, g, bits), Granted(g, bits).Blocks();
      DiskWrote(fs.disk, fs'.disk, g, blocks) && SuperWrote(fs.sb, fs'.sb, |bits|)
  {
    MetaOnDisk(|fs.disk|, g);
    GrantDisk(fs, g, bits);
    MarkedBlocks(BlockMap(fs, g), g, bits);
    GrantRecords(fs, g, bits);
  }

  lemma {:induction false} MarkedBlocks(bm: Block, g: nat, bits: seq<nat>)
    requires InGroup(bits)
    ensures MarkedToo(bm, MarkAll(bm, bits), g, Granted(g, bits).Blocks())
  {
    var bm', blocks := MarkAll(bm, bits), Granted(g, bits).Blocks();
    forall x | 0 <= x < 8192 ensures BitAt(bm', x) == (8192 * g + x + 1 in blocks || BitAt(bm, x)) {
      GrantedBlocks(g, bits, 8192 * g + x + 1);
    }
  }

  lemma {:induction false} GrantRecords(fs: Fs, g: nat, bits: seq<nat>)
    requires Grantable(fs, g, bits)
    ensures var fs', c := Grant(fs, g, bits), |bits|;
      OnlyAt(fs.disk[2], fs'.disk[2], 32 * g + 12, 2) &&
      U16(fs'.disk[2], 32 * g + 12) == U16(fs.disk[2], 32 * g + 12) - c && SuperWrote(fs.sb, fs'.sb, c)
  {
    var t, c := Desc(fs), |bits|;
    PutCounts(t, 32 * g + 12, BgFreeBlocks(t, g) - c, fs.sb, c);
  }

  lemma PutCounts(t: Block, o: nat, v: nat, sb: Block, c: nat)
    requires o + 2 <= 1024 && v < 0x1_0000 && c < 0x1_0000
    ensures OnlyAt(t, Put16(t, o, v), o, 2) && U16(Put16(t, o, v), o) == v
    ensures SuperWrote(sb, Put32(sb, 12, Sub32(SbFreeBlocks(sb), c)), c)
  {
  }

  // ----- the routine -----

  /** The byte scan of one group: up to `count` block numbers into `out`. */
  method ScanGroup(bm: Block, group: nat, count: Count, out: array<nat>) returns (found: bool)
    requires count <= out.Length
    modifies out
    ensures found <==> |Picks(bm, 0, count)| == count
    ensures found ==> forall k :: 0 <= k < count ==> out[k] == BlockAt(group, Picks(bm, 0, count)[k])
  {
    var j, next := 0, 0;
    ghost var done: seq<nat> := [];
    while j < 1024
      invariant 0 <= j <= 1024 && 0 <= next < count && |done| == next && InGroup(done)
      invariant Picks(bm, 0, count) == done + Picks(bm, j, count - next)
      invariant forall k :: 0 <= k < next ==> out[k] == BlockAt(group, done[k])
    {
      if bm[j] != 255 {
        var k := ScanByte(bm[j]);
        PickOne(bm, j, count - next, done);
        done := done + [8 * j + k];
        out[next] := group * 8192 + j * 8 + k + 1;
        next := next + 1;
        if next == count {
          return true;
        }
      }
      j := j + 1;
    }
    return false;
  }

  lemma PickOne(bm: Block, j: nat, c: Count, done: seq<nat>)
    requires j < 1024 && bm[j] != 255
    ensures done + Picks(bm, j, c) == (done + [8 * j + FirstZero(bm[j])]) + Picks(bm, j + 1, c - 1)
  {
  }

  /** Sets the bit of each block found, computing its byte and bit back from the block number. */
  method MarkFound(bm: Block, found: seq<nat>, ghost group: nat, ghost bits: seq<nat>) returns (r: Block)
    requires InGroup(bits) && |bits| == |found|
    requires forall k :: 0 <= k < |bits| ==> found[k] == BlockAt(group, bits[k])
    ensures r == MarkAll(bm, bits)
  {
    r := bm;
    var j := 0;
    assert bits[..0] == [];
    while j < |found|
      invariant 0 <= j <= |found| && r == MarkAll(bm, bits[..j])
    {
      MarkNext(bm, bits, j);
      var x := BlockBit(found[j], group, bits[j]);
      r := SetAt(r, x);
      j := j + 1;
    }
    assert bits[..j] == bits;
  }

  /** The bit of a block within its group, computed from its number. */
  method BlockBit(block: nat, ghost g: nat, ghost x: nat) returns (bit: nat)
    requires x < 8192 && block == BlockAt(g, x)
    ensures bit == x
  {
    bit := (block - 1) % 8192;
  }

  lemma {:induction false} MarkNext(bm: Block, bits: seq<nat>, j: nat)
    requires InGroup(bits) && j < |bits|
    ensures MarkAll(bm, bits[..j + 1]) == SetAt(MarkAll(bm, bits[..j]), bits[j])
  {
    assert bits[..j + 1][..j] == bits[..j];
  }

  /** `allocate_blocks`: block numbers go to `out`; on failure `out` may hold the finds of groups given up. */
  method AllocateBlocks(mnt: Mount, out: array<nat>, count: Count) returns (ret: Ret)
    requires mnt.Valid() && count <= out.Length
    modifies mnt`superblock, mnt.device`sectors, out
    ensures mnt.State() == Allocated(old(mnt.State()), count)
    ensures var o := Search(old(mnt.State()), count, 0);
      (ret == NotFound <==> o.NoGroup?) && (ret == NoError <==> !o.NoGroup?) &&
      (o.Granted? ==> |o.Blocks()| == count && out[..count] == o.Blocks())
  {
    ghost var fs := mnt.State();
    var t := mnt.device.ReadBlock(2);
    var i := 0;
    while i < 32
      invariant 0 <= i <= 32 && mnt.State() == fs
      invariant Search(fs, count, 0) == Search(fs, count, i)
    {
      assert DescAddressed(t, Groups(|fs.disk|), i);
      if BgBlockBitmap(t, i) == 0 {
        return NotFound;
      }
      if BgFreeBlocks(t, i) >= count {
        var found := TryGroup(mnt, t, i, out, count);
        if found {
          return NoError;
        }
      }
      i := i + 1;
    }
    return NoError;
  }

  /** One round of the group loop of `allocate_blocks`. */
  method TryGroup(mnt: Mount, t: Block, g: nat, out: array<nat>, count: Count) returns (found: bool)
    requires mnt.Valid() && g < Groups(|mnt.State().disk|) && t == Desc(mnt.State()) && count <= out.Length
    requires BgFreeBlocks(t, g) >= count
    modifies mnt`superblock, mnt.device`sectors, out
    ensures found <==> Serves(old(mnt.State()), count, g)
    ensures !found ==> mnt.State() == old(mnt.State())
    ensures found ==>
      var bits := Picks(BlockMap(old(mnt.State()), g), 0, count);
      Grantable(old(mnt.State()), g, bits) && mnt.State() == Grant(old(mnt.State()), g, bits) &&
      out[..count] == Granted(g, bits).Blocks()
  {
    assert DescAddressed(t, Groups(|mnt.State().disk|), g);
    var bm := mnt.device.ReadBlock(BgBlockBitmap(t, g));
    found := ScanGroup(bm, g, count, out);
    if found {
      ghost var bits := Picks(bm, 0, count);
      PicksAreZeros(bm, 0, count);
      CommitGrant(mnt, t, bm, g, out, count, bits);
      assert out[..count] == Granted(g, bits).Blocks();
    }
  }

  /** The commit part of `allocate_blocks`, once a group has enough finds. */
  method CommitGrant(mnt: Mount, t: Block, bm: Block, g: nat, out: array<nat>, count: Count, ghost bits: seq<nat>)
    requires mnt.Valid() && count == |bits| <= out.Length
    requires Grantable(mnt.State(), g, bits) && t == Desc(mnt.State()) && bm == BlockMap(mnt.State(), g)
    requires forall k :: 0 <= k < count ==> out[k] == BlockAt(g, bits[k])
    modifies mnt`superblock, mnt.device`sectors
    ensures mnt.State() == Grant(old(mnt.State()), g, bits)
  {
    assert DescAddressed(t, Groups(|mnt.State().disk|), g);
    var marked := MarkFound(bm, out[..count], g, bits);
    mnt.device.WriteBlock(BgBlockBitmap(t, g), marked);
    mnt.superblock := Put32(mnt.superblock, 12, Sub32(SbFreeBlocks(mnt.superblock), count));
    var t' := Put16(t, 32 * g + 12, BgFreeBlocks(t, g) - count);
    mnt.device.WriteBlock(2, t');
  }
}
