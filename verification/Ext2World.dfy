/** Every run of the file system's operations: what they keep, together. */
module Ext2World {
  import opened Bytes
  import opened Device
  import opened Ext2Layout
  import opened Ext2Blocks
  import opened Ext2Inodes
  import opened Ext2Dirs
  import opened Ext2Links

  /** The file system, its directories in order of creation, and the inodes whose links are being counted. */
  datatype World = World(fs: Fs, dirs: seq<nat>, live: set<nat>)

  // ----- the invariant -----

  /** The end record of a directory that has entries reaches the end of its block. */
  ghost predicate SealedIfUsed(fs: Fs, d: nat)
    requires Laid(fs) && GoodDir(fs, d)
  {
    Entries(fs, d) == [] || Sealed(fs.disk[DirBlock(fs, d)])
  }

  ghost predicate DirsGood(w: World)
    requires Laid(w.fs)
  {
    (forall i :: 0 <= i < |w.dirs| ==>
      GoodDir(w.fs, w.dirs[i]) && w.dirs[i] in w.live && !BlockFree(w.fs, DirBlock(w.fs, w.dirs[i])) &&
      SealedIfUsed(w.fs, w.dirs[i])) &&
    (forall i, j :: 0 <= i < j < |w.dirs| ==> DirBlock(w.fs, w.dirs[i]) != DirBlock(w.fs, w.dirs[j]))
  }

  /** What the directories list. */
  ghost function Listings(w: World): (ls: seq<seq<Entry>>)
    requires Laid(w.fs) && DirsGood(w)
    ensures |ls| == |w.dirs| && forall i :: 0 <= i < |ls| ==> ls[i] == Entries(w.fs, w.dirs[i])
  {
    seq(|w.dirs|, i requires 0 <= i < |w.dirs| => Entries(w.fs, w.dirs[i]))
  }

  /** Directories name only live inodes. */
  ghost predicate NamesLive(ls: seq<seq<Entry>>, live: set<nat>) {
    forall i, k :: 0 <= i < |ls| && 0 <= k < |ls[i]| ==> ls[i][k].inode in live
  }

  function CountIn(es: seq<Entry>, n: nat): (c: nat)
    decreases |es|
  {
    if es == [] then 0 else CountIn(es[..|es| - 1], n) + (if es[|es| - 1].inode == n then 1 else 0)
  }

  /** Entries that name `n`, over all directories. */
  function Named(ls: seq<seq<Entry>>, n: nat): (c: nat)
    decreases |ls|
  {
    if ls == [] then 0 else Named(ls[..|ls| - 1], n) + CountIn(ls[|ls| - 1], n)
  }

  /** The link count of a live inode is the number of entries naming it, in 16 bits. */
  ghost predicate LinkCounted(fs: Fs, ls: seq<seq<Entry>>, n: nat)
    requires Laid(fs)
  {
    InodeExists(|fs.disk|, n) && InodeAllocated(fs, n) && LinksCount(InodeSlot(fs, n)) == Named(ls, n) % 0x1_0000
  }

  ghost predicate LinksCounted(w: World)
    requires Laid(w.fs) && DirsGood(w)
  {
    NamesLive(Listings(w), w.live) && forall n :: n in w.live ==> LinkCounted(w.fs, Listings(w), n)
  }

  ghost predicate Inv(w: World) {
    BlocksCounted(w.fs) && InodesCounted(w.fs) && DirsGood(w) && LinksCounted(w)
  }

  // ----- the operations -----

  datatype Op =
    | AllocBlocks(count: Count)
    | AllocInode(n: nat, isDir: bool)
    | StoreInode(n: nat, inode: Inode)     // first write of an allocated inode
    | StoreDir(n: nat, inode: Inode)       // first write of a directory inode with an empty block
    | Link(dir: nat, entry: Entry)

  ghost predicate CanStore(w: World, n: nat, inode: Inode)
    requires Inv(w)
  {
    InodeExists(|w.fs.disk|, n) && InodeAllocated(w.fs, n) && n !in w.live && LinksCount(inode) == 0
  }

  /** What the callers respect. */
  ghost predicate Enabled(w: World, op: Op)
    requires Inv(w)
  {
    match op
    case AllocBlocks(count) => true
    case AllocInode(n, _) => InodeExists(|w.fs.disk|, n)
    case StoreInode(n, inode) => CanStore(w, n, inode)
    case StoreDir(n, inode) =>
      var b := FirstBlock(inode);
      CanStore(w, n, inode) && IsData(|w.fs.disk|, b) && !BlockFree(w.fs, b) && U32(w.fs.disk[b], 0) == 0 &&
      forall i :: 0 <= i < |w.dirs| ==> DirBlock(w.fs, w.dirs[i]) != b
    case Link(dir, e) =>
      dir in w.dirs && e.inode in w.live && e.Storable() && GoodDir(w.fs, dir) && HasRoom(w.fs, dir, e)
  }

  ghost function Next(w: World, op: Op): (w': World)
    requires Inv(w) && Enabled(w, op)
  {
    match op
    case AllocBlocks(count) => World(Allocated(w.fs, count), w.dirs, w.live)
    case AllocInode(n, isDir) => World(InodeTaken(w.fs, n, isDir), w.dirs, w.live)
    case StoreInode(n, inode) => World(InodeWritten(w.fs, n, inode), w.dirs, w.live + {n})
    case StoreDir(n, inode) => World(InodeWritten(w.fs, n, inode), w.dirs + [n], w.live + {n})
    case Link(dir, e) =>
      assert LinkCounted(w.fs, Listings(w), e.inode);
      World(LinkAdded(w.fs, dir, e), w.dirs, w.live)
  }

  /** The blocks an operation hands out. */
  ghost function Grants(w: World, op: Op): (blocks: seq<nat>)
    requires Inv(w) && Enabled(w, op)
  {
    match op
    case AllocBlocks(count) => Search(w.fs, count, 0).Blocks()
    case _ => []
  }

  // ----- counting -----

  lemma {:induction false} CountAppend(es: seq<Entry>, e: Entry, n: nat)
    ensures CountIn(es + [e], n) == CountIn(es, n) + (if e.inode == n then 1 else 0)
  {
    assert (es + [e])[..|es|] == es;
  }

  lemma {:induction false} NamedAppend(ls: seq<seq<Entry>>, k: nat, e: Entry, n: nat)
    requires k < |ls|
    ensures Named(ls[k := ls[k] + [e]], n) == Named(ls, n) + (if e.inode == n then 1 else 0)
    decreases |ls|
  {
    var m := ls[k := ls[k] + [e]];
    if k == |ls| - 1 {
      assert m[..k] == ls[..k];
      CountAppend(ls[k], e, n);
    } else {
      assert m[..|ls| - 1] == ls[..|ls| - 1][k := ls[k] + [e]];
      NamedAppend(ls[..|ls| - 1], k, e, n);
    }
  }

  lemma {:induction false} CountAbsent(es: seq<Entry>, n: nat)
    requires forall k :: 0 <= k < |es| ==> es[k].inode != n
    ensures CountIn(es, n) == 0
    decreases |es|
  {
    if es != [] {
      CountAbsent(es[..|es| - 1], n);
    }
  }

  lemma {:induction false} NamedAbsent(ls: seq<seq<Entry>>, n: nat)
    requires forall i, k :: 0 <= i < |ls| && 0 <= k < |ls[i]| ==> ls[i][k].inode != n
    ensures Named(ls, n) == 0
    decreases |ls|
  {
    if ls != [] {
      NamedAbsent(ls[..|ls| - 1], n);
      CountAbsent(ls[|ls| - 1], n);
    }
  }

  // ----- operations that leave directories and live inodes alone -----

  /** Live inodes, data blocks and taken blocks look the same in `fs'`. */
  ghost predicate Undisturbed(fs: Fs, fs': Fs, live: set<nat>)
    requires Laid(fs) && Laid(fs') && |fs'.disk| == |fs.disk|
  {
    (forall n :: n in live && InodeExists(|fs.disk|, n) && InodeAllocated(fs, n) ==>
      InodeAllocated(fs', n) && InodeSlot(fs', n) == InodeSlot(fs, n)) &&
    (forall b: nat :: IsData(|fs.disk|, b) ==> fs'.disk[b] == fs.disk[b] && (!BlockFree(fs, b) ==> !BlockFree(fs', b)))
  }

  lemma DirUndisturbed(fs: Fs, fs': Fs, live: set<nat>, d: nat)
    requires Laid(fs) && Laid(fs') && |fs'.disk| == |fs.disk| && Undisturbed(fs, fs', live)
    requires GoodDir(fs, d) && d in live
    ensures GoodDir(fs', d) && DirBlock(fs', d) == DirBlock(fs, d) && Entries(fs', d) == Entries(fs, d)
    ensures !BlockFree(fs, DirBlock(fs, d)) ==> !BlockFree(fs', DirBlock(fs', d))
    ensures SealedIfUsed(fs, d) ==> SealedIfUsed(fs', d)
  {
  }

  lemma {:induction false} DirsUndisturbed(w: World, fs': Fs)
    requires Laid(w.fs) && DirsGood(w) && Laid(fs') && |fs'.disk| == |w.fs.disk| && Undisturbed(w.fs, fs', w.live)
    ensures var w' := World(fs', w.dirs, w.live);
      DirsGood(w') && Listings(w') == Listings(w) &&
      forall i :: 0 <= i < |w.dirs| ==> DirBlock(fs', w.dirs[i]) == DirBlock(w.fs, w.dirs[i])
  {
    var ls := Listings(w);
    forall i | 0 <= i < |w.dirs|
      ensures GoodDir(fs', w.dirs[i]) && DirBlock(fs', w.dirs[i]) == DirBlock(w.fs, w.dirs[i])
      ensures Entries(fs', w.dirs[i]) == ls[i] && !BlockFree(fs', DirBlock(fs', w.dirs[i]))
      ensures SealedIfUsed(fs', w.dirs[i])
    {
      DirUndisturbed(w.fs, fs', w.live, w.dirs[i]);
    }
    DirsMoved(w, fs', ls);
  }

  lemma {:induction false} LinksUndisturbed(w: World, fs': Fs)
    requires Inv(w) && Laid(fs') && |fs'.disk| == |w.fs.disk| && Undisturbed(w.fs, fs', w.live)
    ensures var w' := World(fs', w.dirs, w.live);
      DirsGood(w') && Listings(w') == Listings(w) && LinksCounted(w') &&
      forall i :: 0 <= i < |w.dirs| ==> DirBlock(fs', w.dirs[i]) == DirBlock(w.fs, w.dirs[i])
  {
    var w' := World(fs', w.dirs, w.live);
    DirsUndisturbed(w, fs');
    forall n | n in w.live ensures LinkCounted(fs', Listings(w'), n) {
      assert LinkCounted(w.fs, Listings(w), n);
    }
  }

  // ----- allocate_blocks -----

  /** A grant changes no data block, no inode and no inode bitmap. */
  lemma {:induction false} GrantElsewhere(fs: Fs, g: nat, bits: seq<nat>, n: nat, b: nat, h: nat)
    requires Grantable(fs, g, bits) && InodeExists(|fs.disk|, n) && IsData(|fs.disk|, b) && h < Groups(|fs.disk|)
    ensures var fs' := Grant(fs, g, bits);
      InodeSlot(fs', n) == InodeSlot(fs, n) && InodeAllocated(fs', n) == InodeAllocated(fs, n) &&
      fs'.disk[b] == fs.disk[b] && InodeMap(fs', h) == InodeMap(fs, h)
  {
    GrantDisk(fs, g, bits);
    TableOnDisk(|fs.disk|, n);
    TableAvoidsMaps(|fs.disk|, n, g);
    DataApart(|fs.disk|, b, g, n);
    MetaOnDisk(|fs.disk|, h);
    MetaOnDisk(|fs.disk|, InodeGroup(n));
  }

  lemma {:induction false} GrantKeepsInodes(fs: Fs, g: nat, bits: seq<nat>)
    requires Grantable(fs, g, bits) && InodesCounted(fs)
    ensures InodesCounted(Grant(fs, g, bits))
  {
    var fs', G := Grant(fs, g, bits), Groups(|fs.disk|);
    GrantLaid(fs, g, bits);
    GrantCounts(fs, g, bits);
    SumInodesSame(Desc(fs), Desc(fs'), G);
    forall h | 0 <= h < G ensures InodeGroupCounted(fs', h) {
      assert InodeGroupCounted(fs, h);
      GrantElsewhere(fs, g, bits, 1, 219, h);
    }
  }

  lemma {:induction false} SumInodesSame(t: Block, t': Block, n: nat)
    requires n <= 32 && forall h :: 0 <= h < 32 ==> BgFreeInodes(t', h) == BgFreeInodes(t, h)
    ensures SumFreeInodes(t', n) == SumFreeInodes(t, n)
    decreases n
  {
    if n > 0 {
      SumInodesSame(t, t', n - 1);
    }
  }

  lemma {:induction false} SumBlocksSame(t: Block, t': Block, n: nat)
    requires n <= 32 && forall h :: 0 <= h < 32 ==> BgFreeBlocks(t', h) == BgFreeBlocks(t, h)
    ensures SumFreeBlocks(t', n) == SumFreeBlocks(t, n)
    decreases n
  {
    if n > 0 {
      SumBlocksSame(t, t', n - 1);
    }
  }

  lemma {:induction false} GrantUndisturbed(fs: Fs, g: nat, bits: seq<nat>, live: set<nat>)
    requires Grantable(fs, g, bits) && Laid(Grant(fs, g, bits))
    ensures Undisturbed(fs, Grant(fs, g, bits), live)
  {
    var fs' := Grant(fs, g, bits);
    forall n | n in live && InodeExists(|fs.disk|, n) && InodeAllocated(fs, n)
      ensures InodeAllocated(fs', n) && InodeSlot(fs', n) == InodeSlot(fs, n)
    {
      GrantElsewhere(fs, g, bits, n, 219, 0);
    }
    forall b: nat | IsData(|fs.disk|, b)
      ensures fs'.disk[b] == fs.disk[b] && (!BlockFree(fs, b) ==> !BlockFree(fs', b))
    {
      GrantElsewhere(fs, g, bits, 1, b, 0);
      GrantTakes(fs, g, bits, b);
    }
  }

  lemma {:induction false} AllocBlocksKeeps(w: World, count: Count)
    requires Inv(w)
    ensures Inv(Next(w, AllocBlocks(count)))
  {
    var o := Search(w.fs, count, 0);
    AllocateKeepsCounts(w.fs, count);
    SearchGrantable(w.fs, count);
    if o.Granted? {
      GrantKeepsInodes(w.fs, o.group, o.bits);
      GrantUndisturbed(w.fs, o.group, o.bits, w.live);
      LinksUndisturbed(w, Allocated(w.fs, count));
    }
  }

  // ----- allocate_inode -----

  lemma {:induction false} TakeKeepsBlocks(fs: Fs, n: nat, isDir: bool)
    requires BlocksCounted(fs) && InodeExists(|fs.disk|, n)
    ensures BlocksCounted(InodeTaken(fs, n, isDir))
    ensures forall g :: 0 <= g < Groups(|fs.disk|) ==> BlockMap(InodeTaken(fs, n, isDir), g) == BlockMap(fs, g)
  {
    if !InodeAllocated(fs, n) {
      var fs' := InodeTaken(fs, n, isDir);
      TakeDisk(fs, n, isDir);
      TakeLaid(fs, n, isDir);
      TakenDescFields(Desc(fs), InodeGroup(n), isDir);
      SumBlocksSame(Desc(fs), Desc(fs'), Groups(|fs.disk|));
      forall g | 0 <= g < Groups(|fs.disk|) ensures BlockMap(fs', g) == BlockMap(fs, g) {
        MetaOnDisk(|fs.disk|, g);
      }
      forall g | 0 <= g < Groups(|fs.disk|) ensures GroupCounted(fs', g) && FreeIsData(fs', g) {
        assert GroupCounted(fs, g) && FreeIsData(fs, g);
      }
    }
  }

  lemma {:induction false} TakeUndisturbed(fs: Fs, n: nat, isDir: bool, live: set<nat>)
    requires BlocksCounted(fs) && InodeExists(|fs.disk|, n) && Laid(InodeTaken(fs, n, isDir))
    ensures Undisturbed(fs, InodeTaken(fs, n, isDir), live)
  {
    var fs' := InodeTaken(fs, n, isDir);
    TakeKeepsBlocks(fs, n, isDir);
    forall m | m in live && InodeExists(|fs.disk|, m) && InodeAllocated(fs, m)
      ensures InodeAllocated(fs', m) && InodeSlot(fs', m) == InodeSlot(fs, m)
    {
      TakeAllocates(fs, n, isDir, m);
    }
    forall b: nat | IsData(|fs.disk|, b)
      ensures fs'.disk[b] == fs.disk[b] && (!BlockFree(fs, b) ==> !BlockFree(fs', b))
    {
      DataApart(|fs.disk|, b, InodeGroup(n), n);
      if !InodeAllocated(fs, n) {
        TakeDisk(fs, n, isDir);
      }
    }
  }

  lemma {:induction false} AllocInodeKeeps(w: World, n: nat, isDir: bool)
    requires Inv(w) && InodeExists(|w.fs.disk|, n)
    ensures Inv(Next(w, AllocInode(n, isDir)))
  {
    TakeKeepsAccounting(w.fs, n, isDir);
    TakeKeepsBlocks(w.fs, n, isDir);
    TakeUndisturbed(w.fs, n, isDir, w.live);
    LinksUndisturbed(w, InodeTaken(w.fs, n, isDir));
  }

  // ----- first write of an inode -----

  lemma {:induction false} WriteKeepsBlocks(fs: Fs, n: nat, inode: Inode)
    requires BlocksCounted(fs) && InodeExists(|fs.disk|, n)
    ensures BlocksCounted(InodeWritten(fs, n, inode))
  {
    var fs' := InodeWritten(fs, n, inode);
    WriteKeepsLayout(fs, n, inode);
    forall g | 0 <= g < Groups(|fs.disk|) ensures GroupCounted(fs', g) && FreeIsData(fs', g) {
      assert GroupCounted(fs, g) && FreeIsData(fs, g);
    }
  }

  lemma {:induction false} WriteUndisturbed(fs: Fs, n: nat, inode: Inode, live: set<nat>)
    requires Laid(fs) && InodeExists(|fs.disk|, n) && n !in live
    ensures Laid(InodeWritten(fs, n, inode)) && Undisturbed(fs, InodeWritten(fs, n, inode), live)
  {
    var fs' := InodeWritten(fs, n, inode);
    WriteKeepsLayout(fs, n, inode);
    forall m | m in live && InodeExists(|fs.disk|, m) && InodeAllocated(fs, m)
      ensures InodeAllocated(fs', m) && InodeSlot(fs', m) == InodeSlot(fs, m)
    {
      WriteThenSlot(fs, n, inode, m);
      WriteThenAllocated(fs, n, inode, m);
    }
    forall b: nat | IsData(|fs.disk|, b)
      ensures fs'.disk[b] == fs.disk[b] && (!BlockFree(fs, b) ==> !BlockFree(fs', b))
    {
      InodeWrittenDisk(fs, n, inode);
      DataApart(|fs.disk|, b, InodeGroup(n), n);
    }
  }

  /** A freshly written inode with no links, named by nobody, may join the live ones. */
  lemma {:induction false} JoinLive(w: World, n: nat)
    requires Laid(w.fs) && DirsGood(w) && LinksCounted(w) && LinkCounted(w.fs, Listings(w), n)
    ensures var w' := World(w.fs, w.dirs, w.live + {n});
      DirsGood(w') && Listings(w') == Listings(w) && LinksCounted(w')
  {
    var w' := World(w.fs, w.dirs, w.live + {n});
    assert Listings(w') == Listings(w);
    forall m | m in w'.live ensures LinkCounted(w.fs, Listings(w), m) {
    }
  }

  lemma {:induction false} StoredCounted(w: World, n: nat, inode: Inode)
    requires Inv(w) && CanStore(w, n, inode)
    ensures Laid(InodeWritten(w.fs, n, inode)) && LinkCounted(InodeWritten(w.fs, n, inode), Listings(w), n)
  {
    WriteKeepsLayout(w.fs, n, inode);
    WriteThenSlot(w.fs, n, inode, n);
    WriteThenAllocated(w.fs, n, inode, n);
    NamedAbsent(Listings(w), n);
  }

  lemma {:induction false} StoreInodeKeeps(w: World, n: nat, inode: Inode)
    requires Inv(w) && CanStore(w, n, inode)
    ensures var w' := Next(w, StoreInode(n, inode));
      Inv(w') && Listings(w') == Listings(w) &&
      forall i :: 0 <= i < |w.dirs| ==> DirBlock(w'.fs, w.dirs[i]) == DirBlock(w.fs, w.dirs[i])
  {
    WriteKeepsBlocks(w.fs, n, inode);
    WriteKeepsAccounting(w.fs, n, inode);
    WriteUndisturbed(w.fs, n, inode, w.live);
    LinksUndisturbed(w, InodeWritten(w.fs, n, inode));
    StoredCounted(w, n, inode);
    JoinLive(World(InodeWritten(w.fs, n, inode), w.dirs, w.live), n);
  }

  /** An empty directory may join the directories. */
  lemma {:induction false} JoinDirs(w: World, n: nat)
    requires Laid(w.fs) && DirsGood(w) && n in w.live
    requires GoodDir(w.fs, n) && Entries(w.fs, n) == [] && !BlockFree(w.fs, DirBlock(w.fs, n))
    requires forall i :: 0 <= i < |w.dirs| ==> DirBlock(w.fs, w.dirs[i]) != DirBlock(w.fs, n)
    ensures var w' := World(w.fs, w.dirs + [n], w.live); DirsGood(w') && Listings(w') == Listings(w) + [[]]
  {
    var w' := World(w.fs, w.dirs + [n], w.live);
    forall i | 0 <= i < |w'.dirs|
      ensures GoodDir(w.fs, w'.dirs[i]) && w'.dirs[i] in w.live && !BlockFree(w.fs, DirBlock(w.fs, w'.dirs[i]))
    {
      assert i < |w.dirs| ==> w'.dirs[i] == w.dirs[i];
    }
  }

  /** It changes no count. */
  lemma {:induction false} JoinDirsCounted(w: World, n: nat)
    requires Laid(w.fs) && DirsGood(w) && LinksCounted(w)
    requires var w' := World(w.fs, w.dirs + [n], w.live); DirsGood(w') && Listings(w') == Listings(w) + [[]]
    ensures LinksCounted(World(w.fs, w.dirs + [n], w.live))
  {
    var ls := Listings(w);
    forall m | m in w.live ensures LinkCounted(w.fs, ls + [[]], m) {
      assert LinkCounted(w.fs, ls, m);
      assert (ls + [[]])[..|ls|] == ls;
    }
  }

  lemma {:induction false} StoreDirKeeps(w: World, n: nat, inode: Inode)
    requires Inv(w) && Enabled(w, StoreDir(n, inode))
    ensures Inv(Next(w, StoreDir(n, inode))) && Listings(Next(w, StoreDir(n, inode))) == Listings(w) + [[]]
  {
    var w1 := Next(w, StoreInode(n, inode));
    StoreInodeKeeps(w, n, inode);
    NewDirGood(w, n, inode);
    JoinDirs(w1, n);
    JoinDirsCounted(w1, n);
  }

  lemma {:induction false} NewDirGood(w: World, n: nat, inode: Inode)
    requires Inv(w) && Enabled(w, StoreDir(n, inode))
    ensures var fs' := InodeWritten(w.fs, n, inode);
      Laid(fs') && GoodDir(fs', n) && Entries(fs', n) == [] && DirBlock(fs', n) == FirstBlock(inode) &&
      !BlockFree(fs', DirBlock(fs', n))
  {
    WriteUndisturbed(w.fs, n, inode, w.live);
    WriteThenSlot(w.fs, n, inode, n);
    WriteThenAllocated(w.fs, n, inode, n);
  }

  // ----- ext2_add_link -----

  /** The directory linked into lists the new entry last. */
  lemma {:induction false} LinkDirNew(fs: Fs, d: nat, e: Entry)
    requires Linkable(fs, d, e) && HasRoom(fs, d, e)
    ensures var fs' := LinkAdded(fs, d, e);
      Laid(fs') && GoodDir(fs', d) && Entries(fs', d) == Entries(fs, d) + [e] &&
      EndOf(fs', d) == EndOf(fs, d) + RecLen(|e.name|) && SealedIfUsed(fs', d)
  {
    LinkKeepsLayout(fs, d, e);
    LinkSlots(fs, d, e, d);
    LinkData(fs, d, e, DirBlock(fs, d));
    AppendRoundTrip(fs.disk[DirBlock(fs, d)], e);
  }

  /** A directory in another block is unchanged. */
  lemma {:induction false} LinkDirOther(fs: Fs, dir: nat, e: Entry, d: nat)
    requires Linkable(fs, dir, e) && GoodDir(fs, d) && DirBlock(fs, d) != DirBlock(fs, dir)
    ensures var fs' := LinkAdded(fs, dir, e);
      Laid(fs') && GoodDir(fs', d) && Entries(fs', d) == Entries(fs, d) && EndOf(fs', d) == EndOf(fs, d) &&
      (SealedIfUsed(fs, d) ==> SealedIfUsed(fs', d))
  {
    LinkKeepsLayout(fs, dir, e);
    LinkSlots(fs, dir, e, d);
    LinkData(fs, dir, e, DirBlock(fs, d));
  }

  lemma {:induction false} LinkEnabled(w: World, dir: nat, e: Entry)
    requires Inv(w) && Enabled(w, Link(dir, e))
    ensures Linkable(w.fs, dir, e) && InodeAllocated(w.fs, e.inode)
  {
    assert LinkCounted(w.fs, Listings(w), e.inode);
  }

  lemma {:induction false} LinkKeepsFree(fs: Fs, dir: nat, e: Entry, b: nat)
    requires Linkable(fs, dir, e) && IsData(|fs.disk|, b)
    ensures BlockFree(LinkAdded(fs, dir, e), b) == BlockFree(fs, b)
  {
    LinkKeepsLayout(fs, dir, e);
  }

  lemma {:induction false} LinkKeepsBlock(fs: Fs, dir: nat, e: Entry, d: nat)
    requires Linkable(fs, dir, e) && GoodDir(fs, d)
    ensures DirBlock(LinkAdded(fs, dir, e), d) == DirBlock(fs, d)
  {
    LinkSlots(fs, dir, e, d);
  }

  /** Directories after a link: the one linked into lists the new entry last, the others are unchanged. */
  lemma {:induction false} LinkDir(w: World, k: nat, e: Entry, i: nat)
    requires Laid(w.fs) && DirsGood(w) && k < |w.dirs| && i < |w.dirs|
    requires Linkable(w.fs, w.dirs[k], e) && HasRoom(w.fs, w.dirs[k], e)
    ensures var fs', d := LinkAdded(w.fs, w.dirs[k], e), w.dirs[i];
      Laid(fs') && GoodDir(fs', d) && DirBlock(fs', d) == DirBlock(w.fs, d) &&
      !BlockFree(fs', DirBlock(fs', d)) && SealedIfUsed(fs', d) &&
      (Entries(fs', d) == if i == k then Entries(w.fs, d) + [e] else Entries(w.fs, d)) &&
      (EndOf(fs', d) == if i == k then EndOf(w.fs, d) + RecLen(|e.name|) else EndOf(w.fs, d))
  {
    var dir, d := w.dirs[k], w.dirs[i];
    LinkKeepsFree(w.fs, dir, e, DirBlock(w.fs, d));
    LinkKeepsBlock(w.fs, dir, e, d);
    assert GoodDir(w.fs, d) && !BlockFree(w.fs, DirBlock(w.fs, d)) && SealedIfUsed(w.fs, d);
    if i == k {
      LinkDirNew(w.fs, dir, e);
    } else {
      assert DirBlock(w.fs, w.dirs[if i < k then i else k]) != DirBlock(w.fs, w.dirs[if i < k then k else i]);
      LinkDirOther(w.fs, dir, e, d);
    }
  }

  lemma BumpedCounts(i: Inode, v: nat)
    requires LinksCount(i) == v % 0x1_0000
    ensures LinksCount(Bumped(i)) == (v + 1) % 0x1_0000
  {
  }

  /** One link more, both in the inode and in the directories. */
  lemma {:induction false} OneMore(i: Inode, i': Inode, ls: seq<seq<Entry>>, k: nat, e: Entry, n: nat)
    requires k < |ls| && LinksCount(i) == Named(ls, n) % 0x1_0000 && i' == if n == e.inode then Bumped(i) else i
    ensures LinksCount(i') == Named(ls[k := ls[k] + [e]], n) % 0x1_0000
  {
    NamedAppend(ls, k, e, n);
    if n == e.inode {
      BumpedCounts(i, Named(ls, n));
    }
  }

  lemma {:induction false} LinkCount(fs: Fs, dir: nat, e: Entry, ls: seq<seq<Entry>>, k: nat, n: nat, fs': Fs)
    requires Linkable(fs, dir, e) && fs' == LinkAdded(fs, dir, e) && Laid(fs') && k < |ls| && LinkCounted(fs, ls, n)
    ensures LinkCounted(fs', ls[k := ls[k] + [e]], n)
  {
    LinkSlots(fs, dir, e, n);
    OneMore(InodeSlot(fs, n), InodeSlot(fs', n), ls, k, e, n);
  }

  /** The directories after a link, all together. */
  lemma {:induction false} LinkDirs(w: World, k: nat, e: Entry)
    requires Inv(w) && k < |w.dirs| && Enabled(w, Link(w.dirs[k], e))
    ensures Linkable(w.fs, w.dirs[k], e)
    ensures var w' := World(LinkAdded(w.fs, w.dirs[k], e), w.dirs, w.live);
      Laid(w'.fs) && DirsGood(w') && Listings(w') == Listings(w)[k := Listings(w)[k] + [e]]
  {
    LinkEnabled(w, w.dirs[k], e);
    LinkDir(w, k, e, k);
    var fs', ls := LinkAdded(w.fs, w.dirs[k], e), Listings(w);
    forall i | 0 <= i < |w.dirs|
      ensures GoodDir(fs', w.dirs[i]) && DirBlock(fs', w.dirs[i]) == DirBlock(w.fs, w.dirs[i])
      ensures !BlockFree(fs', DirBlock(fs', w.dirs[i])) && SealedIfUsed(fs', w.dirs[i])
      ensures Entries(fs', w.dirs[i]) == ls[k := ls[k] + [e]][i]
    {
      LinkDir(w, k, e, i);
    }
    DirsMoved(w, fs', ls[k := ls[k] + [e]]);
  }

  /** Directories that keep their blocks are still good directories, with the listings found there. */
  lemma DirsMoved(w: World, fs': Fs, ls: seq<seq<Entry>>)
    requires Laid(w.fs) && DirsGood(w) && Laid(fs') && |fs'.disk| == |w.fs.disk| && |ls| == |w.dirs|
    requires forall i :: 0 <= i < |w.dirs| ==>
      GoodDir(fs', w.dirs[i]) && DirBlock(fs', w.dirs[i]) == DirBlock(w.fs, w.dirs[i]) &&
      !BlockFree(fs', DirBlock(fs', w.dirs[i])) && SealedIfUsed(fs', w.dirs[i]) && Entries(fs', w.dirs[i]) == ls[i]
    ensures var w' := World(fs', w.dirs, w.live); DirsGood(w') && Listings(w') == ls
  {
  }

  lemma LinkKeepsNames(ls: seq<seq<Entry>>, k: nat, e: Entry, live: set<nat>)
    requires NamesLive(ls, live) && k < |ls| && e.inode in live
    ensures NamesLive(ls[k := ls[k] + [e]], live)
  {
  }

  lemma {:induction false} LinkKeepsAt(w: World, k: nat, e: Entry)
    requires Inv(w) && k < |w.dirs| && Enabled(w, Link(w.dirs[k], e))
    ensures Linkable(w.fs, w.dirs[k], e)
    ensures var w', ls := World(LinkAdded(w.fs, w.dirs[k], e), w.dirs, w.live), Listings(w);
      Inv(w') && Listings(w') == ls[k := ls[k] + [e]]
  {
    LinkDirs(w, k, e);
    var w', ls := World(LinkAdded(w.fs, w.dirs[k], e), w.dirs, w.live), Listings(w);
    LinkKeepsBlocks(w.fs, w.dirs[k], e);
    LinkKeepsAccounting(w.fs, w.dirs[k], e);
    LinkKeepsNames(ls, k, e, w.live);
    forall n | n in w.live ensures LinkCounted(w'.fs, Listings(w'), n) {
      LinkCount(w.fs, w.dirs[k], e, ls, k, n, w'.fs);
    }
  }

  // ----- runs -----

  lemma SameMapsTakeNothing(fs: Fs, fs': Fs)
    requires Admissible(|fs.disk|) && |fs'.disk| == |fs.disk|
    requires forall g :: 0 <= g < Groups(|fs.disk|) ==> BlockMap(fs', g) == BlockMap(fs, g)
    ensures FreshData(fs, []) && Taken(fs, fs', [])
  {
  }

  /** Operations other than `allocate_blocks` hand out nothing. */
  lemma {:induction false} OthersTakeNothing(w: World, op: Op)
    requires Inv(w) && Enabled(w, op) && !op.AllocBlocks?
    ensures var fs' := Next(w, op).fs;
      |fs'.disk| == |w.fs.disk| && FreshData(w.fs, []) && Taken(w.fs, fs', []) &&
      SbFreeBlocks(fs'.sb) == SbFreeBlocks(w.fs.sb)
  {
    match op
    case AllocInode(n, isDir) =>
      TakeKeepsBlocks(w.fs, n, isDir);
      if !InodeAllocated(w.fs, n) {
        TakeLaid(w.fs, n, isDir);
      }
      SameMapsTakeNothing(w.fs, InodeTaken(w.fs, n, isDir));
    case StoreInode(n, inode) =>
      WriteKeepsLayout(w.fs, n, inode);
      SameMapsTakeNothing(w.fs, InodeWritten(w.fs, n, inode));
    case StoreDir(n, inode) =>
      WriteKeepsLayout(w.fs, n, inode);
      SameMapsTakeNothing(w.fs, InodeWritten(w.fs, n, inode));
    case Link(dir, e) =>
      assert LinkCounted(w.fs, Listings(w), e.inode);
      LinkKeepsLayout(w.fs, dir, e);
      SameMapsTakeNothing(w.fs, LinkAdded(w.fs, dir, e));
  }

  lemma {:induction false} StepKeepsInv(w: World, op: Op)
    requires Inv(w) && Enabled(w, op)
    ensures Inv(Next(w, op))
  {
    match op
    case AllocBlocks(count) => AllocBlocksKeeps(w, count);
    case AllocInode(n, isDir) => AllocInodeKeeps(w, n, isDir);
    case StoreInode(n, inode) => StoreInodeKeeps(w, n, inode);
    case StoreDir(n, inode) => StoreDirKeeps(w, n, inode);
    case Link(dir, e) =>
      var k :| 0 <= k < |w.dirs| && w.dirs[k] == dir;
      LinkKeepsAt(w, k, e);
  }

  /** One operation: it keeps the invariant, and the blocks it hands out were free data blocks; they and no
      others stop being free. */
  lemma {:induction false} StepKeeps(w: World, op: Op)
    requires Inv(w) && Enabled(w, op)
    ensures Inv(Next(w, op)) && |Next(w, op).fs.disk| == |w.fs.disk|
    ensures FreshData(w.fs, Grants(w, op)) && Taken(w.fs, Next(w, op).fs, Grants(w, op))
    ensures SbFreeBlocks(Next(w, op).fs.sb) == SbFreeBlocks(w.fs.sb) - |Grants(w, op)|
  {
    StepKeepsInv(w, op);
    if op.AllocBlocks? {
      AllocateHandsOutFreeData(w.fs, op.count);
    } else {
      OthersTakeNothing(w, op);
    }
  }

  /** `ops` can run from `w`, each operation enabled where it starts. */
  ghost predicate Runs(w: World, ops: seq<Op>)
    requires Inv(w)
    decreases |ops|
  {
    ops == [] || (Enabled(w, ops[0]) && (StepKeeps(w, ops[0]); Runs(Next(w, ops[0]), ops[1..])))
  }

  ghost function After(w: World, ops: seq<Op>): (w': World)
    requires Inv(w) && Runs(w, ops)
    ensures Inv(w') && |w'.fs.disk| == |w.fs.disk|
    decreases |ops|
  {
    if ops == [] then w else StepKeeps(w, ops[0]); After(Next(w, ops[0]), ops[1..])
  }

  /** Every block handed out by a run, in order. */
  ghost function HandedOut(w: World, ops: seq<Op>): (blocks: seq<nat>)
    requires Inv(w) && Runs(w, ops)
    decreases |ops|
  {
    if ops == [] then [] else StepKeeps(w, ops[0]); Grants(w, ops[0]) + HandedOut(Next(w, ops[0]), ops[1..])
  }

  /** Over any run of all the operations: no block is handed out twice, none is metadata or off the disk, each
      was free at the start, exactly these are no longer free at the end, and the superblock's count of free
      blocks falls by their number. */
  lemma {:induction false} RunIsSafe(w: World, ops: seq<Op>)
    requires Inv(w) && Runs(w, ops)
    ensures var h, w' := HandedOut(w, ops), After(w, ops);
      FreshData(w.fs, h) && Taken(w.fs, w'.fs, h) && SbFreeBlocks(w'.fs.sb) == SbFreeBlocks(w.fs.sb) - |h|
    decreases |ops|
  {
    if ops != [] {
      StepKeeps(w, ops[0]);
      var w1 := Next(w, ops[0]);
      RunIsSafe(w1, ops[1..]);
      FreshThenFresh(w.fs, w1.fs, Grants(w, ops[0]), HandedOut(w1, ops[1..]));
    }
  }

  lemma {:induction false} FreshThenFresh(fs: Fs, fs1: Fs, first: seq<nat>, rest: seq<nat>)
    requires Admissible(|fs.disk|) && |fs1.disk| == |fs.disk|
    requires FreshData(fs, first) && Taken(fs, fs1, first) && FreshData(fs1, rest)
    ensures FreshData(fs, first + rest)
  {
    forall k | 0 <= k < |rest| ensures rest[k] !in first && IsData(|fs.disk|, rest[k]) && BlockFree(fs, rest[k]) {
      assert IsData(|fs.disk|, rest[k]) && BlockFree(fs1, rest[k]);
    }
  }

  /** Over any run of all the operations, every live inode's link count is the number of directory entries that
      name it (in 16 bits), the bitmaps, descriptors and superblock agree about blocks and inodes, and every directory
      with entries has a well-formed chain whose end record reaches the end of the block. */
  lemma {:induction false} RunKeepsCounts(w: World, ops: seq<Op>, n: nat)
    requires Inv(w) && Runs(w, ops) && n in After(w, ops).live
    ensures var w' := After(w, ops);
      BlocksCounted(w'.fs) && InodesCounted(w'.fs) && DirsGood(w') &&
      InodeRead(w'.fs, n).0.NoError? &&
      LinksCount(InodeRead(w'.fs, n).1) == Named(Listings(w'), n) % 0x1_0000
  {
    var w' := After(w, ops);
    assert LinkCounted(w'.fs, Listings(w'), n);
  }
}
