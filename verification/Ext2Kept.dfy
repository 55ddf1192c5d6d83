/** What the operations leave alone: the superblock but for its free counts and state, the count of directories, and
    which inodes are allocated. */
module Ext2Kept {
  import opened Bytes
  import opened Device
  import opened Ext2Layout
  import opened Ext2Blocks
  import opened Ext2Inodes
  import opened Ext2Dirs
  import opened Ext2Links
  import opened Ext2World

  /** Superblocks that differ at most in the two free counts and the state. */
  ghost predicate SameRest(sb: Block, sb': Block) {
    forall i :: 0 <= i < 1024 && !(12 <= i < 20 || 58 <= i < 60) ==> sb'[i] == sb[i]
  }

  /** The fields outside read the same. */
  lemma {:induction false} RestFields(sb: Block, sb': Block, o: nat)
    requires SameRest(sb, sb') && (o <= 8 || 20 <= o <= 54 || 60 <= o <= 1020)
    ensures U32(sb', o) == U32(sb, o) && U16(sb', o) == U16(sb, o) && U16(sb', o + 2) == U16(sb, o + 2)
  {
    assert forall k :: o <= k < o + 4 ==> sb'[k] == sb[k];
  }

  lemma StateOnly(sb: Block, v: nat)
    requires v < 0x1_0000
    ensures SameRest(sb, Put16(sb, 58, v)) && SbFreeInodes(Put16(sb, 58, v)) == SbFreeInodes(sb)
    ensures SbFreeBlocks(Put16(sb, 58, v)) == SbFreeBlocks(sb) && SbState(Put16(sb, 58, v)) == v
  {
  }

  /** `fs'` has the superblock rest, the free inodes, the directory count and the inode bits of `fs`. */
  ghost predicate Kept(fs: Fs, fs': Fs)
    requires Admissible(|fs.disk|)
  {
    |fs'.disk| == |fs.disk| && SameRest(fs.sb, fs'.sb) && SbFreeInodes(fs'.sb) == SbFreeInodes(fs.sb) &&
    BgUsedDirs(Desc(fs'), 0) == BgUsedDirs(Desc(fs), 0) &&
    forall m: nat :: InodeExists(|fs.disk|, m) && InodeAllocated(fs, m) ==> InodeAllocated(fs', m)
  }

  lemma KeptTwice(a: Fs, b: Fs, c: Fs)
    requires Admissible(|a.disk|) && Kept(a, b) && Kept(b, c)
    ensures Kept(a, c)
  {
  }

  lemma {:induction false} GrantKept(fs: Fs, g: nat, bits: seq<nat>)
    requires Grantable(fs, g, bits)
    ensures Kept(fs, Grant(fs, g, bits))
    ensures SbFreeBlocks(Grant(fs, g, bits).sb) == Sub32(SbFreeBlocks(fs.sb), |bits|)
  {
    var fs' := Grant(fs, g, bits);
    GrantLaid(fs, g, bits);
    GrantDesc(fs, g, bits);
    forall m: nat | InodeExists(|fs.disk|, m) ensures InodeAllocated(fs', m) == InodeAllocated(fs, m) {
      FirstData(|fs.disk|);
      GrantElsewhere(fs, g, bits, m, 219, 0);
    }
  }

  lemma FirstData(n: nat)
    requires Admissible(n)
    ensures IsData(n, 219) && IsData(n, 220)
  {
  }

  lemma {:induction false} GrantDesc(fs: Fs, g: nat, bits: seq<nat>)
    requires Grantable(fs, g, bits)
    ensures var fs' := Grant(fs, g, bits);
      SameRest(fs.sb, fs'.sb) && |fs'.disk| == |fs.disk| && BgUsedDirs(Desc(fs'), 0) == BgUsedDirs(Desc(fs), 0)
  {
    var fs', t := Grant(fs, g, bits), Desc(fs);
    var v, f := BgFreeBlocks(t, g) - |bits|, Sub32(SbFreeBlocks(fs.sb), |bits|);
    assert Desc(fs') == Put16(t, 32 * g + 12, v) && fs'.sb == Put32(fs.sb, 12, f);
    OtherField(t, Put16(t, 32 * g + 12, v), 32 * g + 12);
  }

  lemma OtherField(t: Block, t': Block, o: nat)
    requires OnlyAt(t, t', o, 2) && o % 32 == 12
    ensures BgUsedDirs(t', 0) == BgUsedDirs(t, 0)
  {
  }

  lemma {:induction false} WriteKept(fs: Fs, n: nat, i: Inode)
    requires Laid(fs) && InodeExists(|fs.disk|, n)
    ensures Kept(fs, InodeWritten(fs, n, i))
  {
    WriteKeepsLayout(fs, n, i);
    forall m: nat | InodeExists(|fs.disk|, m) && InodeAllocated(fs, m)
      ensures InodeAllocated(InodeWritten(fs, n, i), m)
    {
      WriteThenAllocated(fs, n, i, m);
    }
  }

  lemma {:induction false} LinkKept(fs: Fs, dir: nat, e: Entry)
    requires Linkable(fs, dir, e)
    ensures Kept(fs, LinkAdded(fs, dir, e)) && LinkAdded(fs, dir, e).sb == fs.sb
  {
    LinkKeepsLayout(fs, dir, e);
    forall m: nat | InodeExists(|fs.disk|, m) && InodeAllocated(fs, m)
      ensures InodeAllocated(LinkAdded(fs, dir, e), m)
    {
      LinkSlots(fs, dir, e, m);
    }
  }

  /** Allocating an inode of group 0 that is not allocated: one free inode less, and perhaps one directory more. */
  lemma {:induction false} TakeCounts(fs: Fs, n: nat, isDir: bool, fs': Fs)
    requires Laid(fs) && 0 < n <= 1712 && InodeExists(|fs.disk|, n) && !InodeAllocated(fs, n)
    requires fs' == InodeTaken(fs, n, isDir)
    ensures |fs'.disk| == |fs.disk| && SameRest(fs.sb, fs'.sb) && SbFreeInodes(fs'.sb) == Sub32(SbFreeInodes(fs.sb), 1)
    ensures SbFreeBlocks(fs'.sb) == SbFreeBlocks(fs.sb)
    ensures BgUsedDirs(Desc(fs'), 0) == if isDir then Inc16(BgUsedDirs(Desc(fs), 0)) else BgUsedDirs(Desc(fs), 0)
    ensures forall m: nat :: InodeExists(|fs.disk|, m) ==> InodeAllocated(fs', m) == (m == n || InodeAllocated(fs, m))
  {
    TakeDisk(fs, n, isDir);
    TakenDescFields(Desc(fs), 0, isDir);
    assert InodeGroup(n) == 0;
    assert fs'.sb == Put32(fs.sb, 16, Sub32(SbFreeInodes(fs.sb), 1));
    forall m: nat | InodeExists(|fs.disk|, m) ensures InodeAllocated(fs', m) == (m == n || InodeAllocated(fs, m)) {
      TakeAllocates(fs, n, isDir, m);
    }
  }
}
