/** `ext2_add_link`: one directory record and one link count, through one shared buffer. */
module Ext2Links {
  import opened Bytes
  import opened Device
  import opened Ext2Layout
  import opened Ext2Mount
  import opened Ext2Inodes
  import opened Ext2Dirs

  /** The block that holds the records of directory inode `d`. */
  function DirBlock(fs: Fs, d: nat): (b: nat)
    requires Admissible(|fs.disk|) && InodeExists(|fs.disk|, d)
  {
    FirstBlock(InodeSlot(fs, d))
  }

  /** An allocated directory inode whose block is a data block with a well-formed chain. */
  ghost predicate GoodDir(fs: Fs, d: nat)
    requires Laid(fs)
  {
    InodeExists(|fs.disk|, d) && InodeAllocated(fs, d) && IsData(|fs.disk|, DirBlock(fs, d)) &&
    Walk(fs.disk[DirBlock(fs, d)], 0).Listing?
  }

  ghost function Entries(fs: Fs, d: nat): (es: seq<Entry>)
    requires Laid(fs) && GoodDir(fs, d)
  {
    Walk(fs.disk[DirBlock(fs, d)], 0).entries
  }

  /** Where the chain of directory `d` ends. */
  ghost function EndOf(fs: Fs, d: nat): (e: nat)
    requires Laid(fs) && GoodDir(fs, d)
  {
    Walk(fs.disk[DirBlock(fs, d)], 0).end
  }

  /** Calls for a well-formed directory and an inode that the disk has room for, whether it is allocated or not. */
  ghost predicate Linkable(fs: Fs, dir: nat, e: Entry) {
    Laid(fs) && GoodDir(fs, dir) && e.Storable() && InodeExists(|fs.disk|, e.inode)
  }

  /** The directory block has room for the record and the end record. */
  ghost predicate HasRoom(fs: Fs, dir: nat, e: Entry)
    requires Laid(fs) && GoodDir(fs, dir)
  {
    EndOf(fs, dir) + RecLen(|e.name|) + 8 <= 1024
  }

  function Bumped(i: Inode): (r: Inode)
    ensures LinksCount(r) == Inc16(LinksCount(i)) && FirstBlock(r) == FirstBlock(i) && OnlyAt(i, r, 26, 2)
  {
    Put16(i, 26, Inc16(LinksCount(i)))
  }

  function DataWritten(fs: Fs, b: nat, x: Block): (fs': Fs)
    requires b < |fs.disk|
  {
    Fs(fs.disk[b := x], fs.sb)
  }

  /** The state after `ext2_add_link`. */
  ghost function LinkAdded(fs: Fs, dir: nat, e: Entry): (fs': Fs)
    requires Linkable(fs, dir, e)
    ensures |fs'.disk| == |fs.disk|
  {
    var b := DirBlock(fs, dir);
    var fs1 := DataWritten(fs, b, Append(fs.disk[b], Walk(fs.disk[b], 0).end, e));
    InodeWritten(fs1, e.inode, Bumped(InodeRead(fs, e.inode).1))
  }

  // ----- data blocks are apart from everything the file system keeps about itself -----

  lemma {:induction false} DataApart(blocks: nat, b: nat, g: nat, n: nat)
    requires Admissible(blocks) && IsData(blocks, b) && InodeExists(blocks, n)
    ensures b != 2 && b != 8192 * g + 3 && b != 8192 * g + 4 && b != TableBlock(n)
  {
    TableOnDisk(blocks, n);
  }

  lemma {:induction false} DataWriteKeeps(fs: Fs, b: nat, x: Block)
    requires Laid(fs) && IsData(|fs.disk|, b)
    ensures var fs' := DataWritten(fs, b, x);
      Laid(fs') && Desc(fs') == Desc(fs) && forall g :: 0 <= g < Groups(|fs.disk|) ==>
        BlockMap(fs', g) == BlockMap(fs, g) && InodeMap(fs', g) == InodeMap(fs, g)
  {
    forall g: nat ensures b != 2 && b != 8192 * g + 3 && b != 8192 * g + 4 {
      DataApart(|fs.disk|, b, g, 1);
    }
  }

  lemma {:induction false} DataWriteKeepsInode(fs: Fs, b: nat, x: Block, n: nat)
    requires Laid(fs) && IsData(|fs.disk|, b) && InodeExists(|fs.disk|, n)
    ensures var fs' := DataWritten(fs, b, x);
      InodeSlot(fs', n) == InodeSlot(fs, n) && InodeAllocated(fs', n) == InodeAllocated(fs, n)
  {
    DataWriteKeeps(fs, b, x);
    DataApart(|fs.disk|, b, 0, n);
    TableOnDisk(|fs.disk|, n);
  }

  // ----- what one call does -----

  /** Layout and block maps are untouched. */
  lemma {:induction false} LinkKeepsLayout(fs: Fs, dir: nat, e: Entry)
    requires Linkable(fs, dir, e)
    ensures var fs' := LinkAdded(fs, dir, e);
      Laid(fs') && Desc(fs') == Desc(fs) && fs'.sb == fs.sb &&
      forall g :: 0 <= g < Groups(|fs.disk|) ==> BlockMap(fs', g) == BlockMap(fs, g)
  {
    var b := DirBlock(fs, dir);
    var x := Append(fs.disk[b], Walk(fs.disk[b], 0).end, e);
    DataWriteKeeps(fs, b, x);
    WriteKeepsLayout(DataWritten(fs, b, x), e.inode, Bumped(InodeRead(fs, e.inode).1));
  }

  /** Which inodes are allocated and what their slots hold, in terms of the new record. */
  lemma {:induction false} LinkSlots(fs: Fs, dir: nat, e: Entry, m: nat)
    requires Linkable(fs, dir, e) && InodeExists(|fs.disk|, m)
    ensures var fs' := LinkAdded(fs, dir, e);
      InodeAllocated(fs', m) == (InodeAllocated(fs, m) || m == e.inode) &&
      (InodeSlot(fs', m) == if m == e.inode then Bumped(InodeRead(fs, m).1) else InodeSlot(fs, m)) &&
      (InodeAllocated(fs, m) ==> DirBlock(fs', m) == DirBlock(fs, m))
  {
    var b := DirBlock(fs, dir);
    var x := Append(fs.disk[b], Walk(fs.disk[b], 0).end, e);
    DataWriteKeepsInode(fs, b, x, m);
    DataWriteKeepsInode(fs, b, x, e.inode);
    WriteThenSlot(DataWritten(fs, b, x), e.inode, Bumped(InodeRead(fs, e.inode).1), m);
    WriteThenAllocated(DataWritten(fs, b, x), e.inode, Bumped(InodeRead(fs, e.inode).1), m);
  }

  /** Exactly the added inode changes. If it was allocated, only the two bytes of its link count do, which goes up by
      one in 16 bits; otherwise it becomes an allocated inode with a link count of one and zeros everywhere else. */
  lemma {:induction false} LinkInodes(fs: Fs, dir: nat, e: Entry, m: nat)
    requires Linkable(fs, dir, e) && InodeExists(|fs.disk|, m)
    ensures var fs' := LinkAdded(fs, dir, e);
      InodeAllocated(fs', m) == (InodeAllocated(fs, m) || m == e.inode) &&
      (m != e.inode ==> InodeSlot(fs', m) == InodeSlot(fs, m)) &&
      (m == e.inode && InodeAllocated(fs, m) ==>
        OnlyAt(InodeSlot(fs, m), InodeSlot(fs', m), 26, 2) &&
        U16(InodeSlot(fs', m), 26) == (U16(InodeSlot(fs, m), 26) + 1) % 0x1_0000) &&
      (m == e.inode && !InodeAllocated(fs, m) ==>
        U16(InodeSlot(fs', m), 26) == 1 &&
        forall k :: 0 <= k < 128 && k != 26 && k != 27 ==> InodeSlot(fs', m)[k] == 0)
  {
    LinkSlots(fs, dir, e, m);
    BumpedBytes(InodeSlot(fs, m));
    FirstLinkBytes();
  }

  lemma BumpedBytes(i: Inode)
    ensures OnlyAt(i, Bumped(i), 26, 2) && U16(Bumped(i), 26) == (U16(i, 26) + 1) % 0x1_0000
  {
  }

  lemma {:induction false} FirstLinkBytes()
    ensures U16(Bumped(NoInode()), 26) == 1
    ensures forall k :: 0 <= k < 128 && k != 26 && k != 27 ==> Bumped(NoInode())[k] == 0
  {
    BumpedBytes(NoInode());
  }

  /** Exactly the directory's block changes among the data blocks: it gets the record appended. */
  lemma {:induction false} LinkData(fs: Fs, dir: nat, e: Entry, c: nat)
    requires Linkable(fs, dir, e) && IsData(|fs.disk|, c)
    ensures LinkAdded(fs, dir, e).disk[c] ==
      if c == DirBlock(fs, dir) then Append(fs.disk[c], Walk(fs.disk[c], 0).end, e) else fs.disk[c]
  {
    var b := DirBlock(fs, dir);
    var fs1 := DataWritten(fs, b, Append(fs.disk[b], Walk(fs.disk[b], 0).end, e));
    InodeWrittenDisk(fs1, e.inode, Bumped(InodeRead(fs, e.inode).1));
    DataApart(|fs.disk|, c, InodeGroup(e.inode), e.inode);
  }

  /** The inode accounting is kept exactly when the inode was allocated before the call. */
  lemma {:induction false} LinkKeepsAccounting(fs: Fs, dir: nat, e: Entry)
    requires Linkable(fs, dir, e) && InodesCounted(fs)
    ensures InodesCounted(LinkAdded(fs, dir, e)) <==> InodeAllocated(fs, e.inode)
  {
    var b := DirBlock(fs, dir);
    var x := Append(fs.disk[b], Walk(fs.disk[b], 0).end, e);
    var fs1 := DataWritten(fs, b, x);
    DataWriteKeeps(fs, b, x);
    forall g | 0 <= g < Groups(|fs.disk|) ensures InodeGroupCounted(fs1, g) {
      assert InodeGroupCounted(fs, g);
    }
    DataWriteKeepsInode(fs, b, x, e.inode);
    WriteKeepsAccounting(fs1, e.inode, Bumped(InodeRead(fs, e.inode).1));
  }

  lemma {:induction false} LinkKeepsBlocks(fs: Fs, dir: nat, e: Entry)
    requires Linkable(fs, dir, e) && BlocksCounted(fs)
    ensures BlocksCounted(LinkAdded(fs, dir, e))
  {
    var fs' := LinkAdded(fs, dir, e);
    LinkKeepsLayout(fs, dir, e);
    forall g | 0 <= g < Groups(|fs.disk|) ensures GroupCounted(fs', g) && FreeIsData(fs', g) {
      assert GroupCounted(fs, g) && FreeIsData(fs, g);
    }
  }

  // ----- the routine -----

  /** `ext2_add_link`. Both inodes are read before the shared buffer is filled with the directory block. */
  method AddLink(mnt: Mount, dir: nat, e: Entry)
    requires mnt.Valid() && Linkable(mnt.State(), dir, e)
    modifies mnt.device`sectors, mnt.device.rwBuffer
    ensures mnt.State() == LinkAdded(old(mnt.State()), dir, e)
    ensures mnt.Valid()
  {
    ghost var fs := mnt.State();
    var _, dirInode := ReadInode(mnt, dir);
    var _, added := ReadInode(mnt, e.inode);
    AppendToBlock(mnt.device, FirstBlock(dirInode), e);
    ghost var b := DirBlock(fs, dir);
    DataWriteKeeps(fs, b, Append(fs.disk[b], Walk(fs.disk[b], 0).end, e));
    WriteInode(mnt, Put16(added, 26, Inc16(LinksCount(added))), e.inode);
    LinkKeepsLayout(fs, dir, e);
  }

  /** The part of `ext2_add_link` between reading and writing the directory block. */
  method AppendToBlock(dev: BlockDevice, b: nat, e: Entry)
    requires dev.Valid() && b < |dev.Blocks()| && Walk(dev.Blocks()[b], 0).Listing? && e.Storable()
    modifies dev`sectors, dev.rwBuffer
    ensures var x := old(dev.Blocks())[b]; dev.Blocks() == old(dev.Blocks())[b := Append(x, Walk(x, 0).end, e)]
  {
    var rw := dev.rwBuffer;
    dev.ReadBlocks(b, rw, 1);
    var el := WalkToEnd(rw);
    StoreRecord(rw, el.pos, e);
    dev.WriteBlocks(b, rw, 1);
  }
}
