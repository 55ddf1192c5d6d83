/** The block device: 512-byte sectors, read and written two at a time as 1024-byte file-system blocks. */
module Device {
  import opened Bytes

  type Sector = s: seq<byte> | |s| == 512 witness seq(512, _ => 0)
  type Block = b: seq<byte> | |b| == 1024 witness seq(1024, _ => 0)

  /** The bytes of `n` sectors in a row. */
  ghost function Span(s: seq<Sector>, from: nat, n: nat): (r: seq<byte>)
    requires from + n <= |s|
    ensures |r| == 512 * n
    decreases n
  {
    if n == 0 then [] else Span(s, from, n - 1) + s[from + n - 1]
  }

  lemma {:induction false} SpanSame(s: seq<Sector>, t: seq<Sector>, from: nat, n: nat)
    requires from + n <= |s| && from + n <= |t|
    requires forall i :: from <= i < from + n ==> s[i] == t[i]
    ensures Span(s, from, n) == Span(t, from, n)
    decreases n
  {
    if n > 0 {
      SpanSame(s, t, from, n - 1);
    }
  }

  /** Byte `k` of the span is byte `k % 512` of sector `k / 512`. */
  lemma {:induction false} SpanAt(s: seq<Sector>, from: nat, n: nat, k: nat)
    requires from + n <= |s| && k < 512 * n
    ensures Span(s, from, n)[k] == s[from + k / 512][k % 512]
    decreases n
  {
    if k < 512 * (n - 1) {
      SpanAt(s, from, n - 1, k);
    }
  }

  function BlockOf(s: seq<Sector>, b: nat): (r: Block)
    requires 2 * b + 1 < |s|
  {
    var low: seq<byte>, high: seq<byte> := s[2 * b], s[2 * b + 1];
    low + high
  }

  /** The disk as the file system sees it. */
  ghost function BlocksOf(s: seq<Sector>): (d: seq<Block>)
    ensures |d| == |s| / 2
    decreases |s|
  {
    if |s| < 2 then [] else BlocksOf(s[..|s| - 2]) + [BlockOf(s, |s| / 2 - 1)]
  }

  lemma {:induction false} BlocksOfAt(s: seq<Sector>, b: nat)
    requires 2 * b + 1 < |s|
    ensures BlocksOf(s)[b] == BlockOf(s, b)
    decreases |s|
  {
    if b < |s| / 2 - 1 {
      BlocksOfAt(s[..|s| - 2], b);
    }
  }

  lemma {:induction false} SpanIsBlock(s: seq<Sector>, b: nat)
    requires 2 * b + 1 < |s|
    ensures Span(s, 2 * b, 2) == BlockOf(s, b)
  {
    assert Span(s, 2 * b, 1) == s[2 * b];
  }

  /** Byte `k` of block `b` is in sector `2 * b` or in the next one. */
  lemma {:induction false} BlockBytes(s: seq<Sector>, b: nat, k: nat)
    requires 2 * b + 1 < |s| && k < 1024
    ensures BlocksOf(s)[b][k] == s[2 * b + k / 512][k % 512]
  {
    BlocksOfAt(s, b);
    SpanIsBlock(s, b);
    SpanAt(s, 2 * b, 2, k);
  }

  class BlockDevice {
    var sectors: seq<Sector>
    const rwBuffer: array<byte>

    ghost predicate Valid()
      reads this
    {
      rwBuffer.Length == 4096
    }

    ghost function Blocks(): (d: seq<Block>)
      reads this
    {
      BlocksOf(sectors)
    }

    constructor (contents: seq<Sector>)
      ensures Valid() && sectors == contents && fresh(rwBuffer)
    {
      sectors := contents;
      rwBuffer := new byte[4096](_ => 0);
    }

    method ReadSector(sector: nat, buffer: array<byte>, at: nat)
      requires sector < |sectors| && at + 512 <= buffer.Length
      modifies buffer
      ensures buffer[..at] == old(buffer[..at]) && buffer[..at + 512] == old(buffer[..at]) + sectors[sector]
      ensures forall k :: at + 512 <= k < buffer.Length ==> buffer[k] == old(buffer[k])
    {
      CopyIn(buffer, at, sectors[sector]);
      assert buffer[..at + 512] == buffer[..][..at + 512];
    }

    method ReadBlocks(id: nat, buffer: array<byte>, count: nat)
      requires id + count <= |Blocks()| && 1024 * count <= buffer.Length
      modifies buffer
      ensures buffer[..1024 * count] == Span(sectors, 2 * id, 2 * count)
      ensures forall k :: 0 <= k < 1024 * count ==> buffer[k] == sectors[2 * id + k / 512][k % 512]
      ensures forall k :: 1024 * count <= k < buffer.Length ==> buffer[k] == old(buffer[k])
      ensures count == 1 ==> buffer[..1024] == Blocks()[id]
    {
      if count == 1 {
        SpanIsBlock(sectors, id);
        BlocksOfAt(sectors, id);
      }
      for i := 0 to 2 * count
        invariant buffer[..512 * i] == Span(sectors, 2 * id, i)
        invariant forall k :: 512 * i <= k < buffer.Length ==> buffer[k] == old(buffer[k])
      {
        ReadSector(2 * id + i, buffer, 512 * i);
      }
      forall k | 0 <= k < 1024 * count ensures buffer[k] == sectors[2 * id + k / 512][k % 512] {
        SpanAt(sectors, 2 * id, 2 * count, k);
        assert buffer[..1024 * count][k] == buffer[k];
      }
    }

    method WriteBlocks(id: nat, buffer: array<byte>, count: nat)
      requires id + count <= |Blocks()| && 1024 * count <= buffer.Length
      modifies this`sectors
      ensures |sectors| == old(|sectors|)
      ensures Span(sectors, 2 * id, 2 * count) == buffer[..1024 * count]
      ensures forall k :: 0 <= k < 1024 * count ==> sectors[2 * id + k / 512][k % 512] == buffer[k]
      ensures forall i :: 0 <= i < |sectors| && !(2 * id <= i < 2 * (id + count)) ==> sectors[i] == old(sectors[i])
      ensures count == 1 ==> Blocks() == old(Blocks())[id := buffer[..1024]]
    {
      for i := 0 to 2 * count
        invariant |sectors| == old(|sectors|)
        invariant Span(sectors, 2 * id, i) == buffer[..512 * i]
        invariant forall k :: 0 <= k < |sectors| && !(2 * id <= k < 2 * id + i) ==> sectors[k] == old(sectors[k])
      {
        ghost var before := sectors;
        sectors := sectors[2 * id + i := buffer[512 * i..512 * i + 512]];
        SpanSame(before, sectors, 2 * id, i);
        assert buffer[..512 * (i + 1)] == buffer[..512 * i] + buffer[512 * i..512 * i + 512];
      }
      forall k | 0 <= k < 1024 * count ensures sectors[2 * id + k / 512][k % 512] == buffer[k] {
        SpanAt(sectors, 2 * id, 2 * count, k);
        assert buffer[..1024 * count][k] == buffer[k];
      }
      if count == 1 {
        SpanIsBlock(sectors, id);
        forall b | 0 <= b < |Blocks()| ensures Blocks()[b] == old(Blocks())[id := buffer[..1024]][b] {
          BlocksOfAt(sectors, b);
          BlocksOfAt(old(sectors), b);
        }
      }
    }

    /** `ext2_read_blocks` of one block into a local buffer. */
    method ReadBlock(id: nat) returns (b: Block)
      requires id < |Blocks()|
      ensures b == Blocks()[id]
    {
      var local := new byte[1024](_ => 0);
      ReadBlocks(id, local, 1);
      b := local[..1024];
    }

    /** `ext2_write_blocks` of one block from a local buffer. */
    method WriteBlock(id: nat, b: Block)
      requires id < |Blocks()|
      modifies this`sectors
      ensures Blocks() == old(Blocks())[id := b]
    {
      var local := new byte[1024](i requires 0 <= i < 1024 => b[i]);
      assert local[..1024] == b;
      WriteBlocks(id, local, 1);
    }
  }
}
