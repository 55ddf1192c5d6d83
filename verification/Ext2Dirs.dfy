/** Directory blocks: a chain of variable-length records that ends in a record with inode number 0. */
module Ext2Dirs {
  import opened Bytes
  import opened Device

  datatype Entry = Entry(inode: nat, ftype: byte, name: seq<byte>) {
    /** What `ext2_add_link` can be asked to record. */
    predicate Storable() { 0 < inode < 0x1_0000_0000 && |name| < 256 }
  }

  /** `8 + name_len` rounded up to a multiple of four. */
  function RecLen(nameLen: nat): (r: nat)
    ensures r % 4 == 0 && 8 + nameLen <= r < 12 + nameLen
  {
    8 + (nameLen + (4 - nameLen % 4) % 4)
  }

  // ----- the reader: what the init/next walk sees -----

  datatype Listing =
    | Broken                                    // the walk leaves the block or meets a bad record
    | Listing(entries: seq<Entry>, end: nat)    // entries up to the inode-0 record at `end`

  predicate GoodHeader(b: Block, pos: nat)
    requires pos + 8 <= 1024
  {
    var rec := U16(b, pos + 4);
    rec % 4 == 0 && 8 + b[pos + 6] as int <= rec && pos + rec <= 1024
  }

  function EntryAt(b: Block, pos: nat): (e: Entry)
    requires pos + 8 <= 1024 && GoodHeader(b, pos)
  {
    Entry(U32(b, pos), b[pos + 7], b[pos + 8..pos + 8 + b[pos + 6] as int])
  }

  /** Only the inode word of the end record is looked at, so it may be all that is left of the block. */
  function Walk(b: Block, pos: nat): (l: Listing)
    ensures l.Listing? ==> pos <= l.end && l.end + 4 <= 1024 && U32(b, l.end) == 0
    decreases 1024 - pos
  {
    if pos + 4 > 1024 then Broken
    else if U32(b, pos) == 0 then Listing([], pos)
    else if pos + 8 > 1024 || !GoodHeader(b, pos) then Broken
    else Prepend([EntryAt(b, pos)], Walk(b, pos + U16(b, pos + 4)))
  }

  function Prepend(es: seq<Entry>, l: Listing): (r: Listing) {
    match l
    case Broken => Broken
    case Listing(fs, end) => Listing(es + fs, end)
  }

  /** Every record, and the end, is at a multiple of four. */
  lemma {:induction false} WalkAligned(b: Block, pos: nat)
    requires pos % 4 == 0 && Walk(b, pos).Listing?
    ensures Walk(b, pos).end % 4 == 0
    decreases 1024 - pos
  {
    if U32(b, pos) != 0 {
      var rec := U16(b, pos + 4);
      SumOfFours(pos, rec);
      WalkAligned(b, pos + rec);
    }
  }

  lemma SumOfFours(a: nat, b: nat)
    requires a % 4 == 0 && b % 4 == 0
    ensures (a + b) % 4 == 0
  {
  }

  /** The end record reaches the end of the block. */
  predicate Sealed(b: Block) {
    var l := Walk(b, 0);
    l.Listing? && l.end + 8 <= 1024 && U16(b, l.end + 4) == 1024 - l.end && b[l.end + 6] == 0 && b[l.end + 7] == 0
  }

  // ----- the writer -----

  function Le16(v: nat): (r: seq<byte>) requires v < 0x1_0000 { [v % 256, v / 256] }

  function Le32(v: nat): (r: seq<byte>)
    requires v < 0x1_0000_0000
  {
    var v1 := v / 256;
    var v2 := v1 / 256;
    [v % 256, v1 % 256, v2 % 256, v2 / 256]
  }

  function Fill(n: nat): (r: seq<byte>) ensures |r| == n && forall i :: 0 <= i < n ==> r[i] == 0 { seq(n, _ => 0) }

  function RecordHead(e: Entry): (r: seq<byte>)
    requires e.Storable()
    ensures |r| == 8
  {
    Le32(e.inode) + Le16(RecLen(|e.name|)) + [|e.name|, e.ftype]
  }

  function Record(e: Entry): (r: seq<byte>)
    requires e.Storable()
    ensures |r| == RecLen(|e.name|)
  {
    RecordHead(e) + e.name + Fill(RecLen(|e.name|) - 8 - |e.name|)
  }

  /** The inode-0 record at `p`; its length is a 16-bit subtraction. */
  function Trailer(p: nat): (r: seq<byte>)
    requires p < 2048
    ensures |r| == 8
  {
    Fill(4) + Le16(if p <= 1024 then 1024 - p else 0x1_0000 + 1024 - p) + [0, 0]
  }

  /** The block after the record of `e` has been put at `at`; what does not fit in the block is lost. */
  function Append(b: Block, at: nat, e: Entry): (r: Block)
    requires at + 4 <= 1024 && e.Storable()
  {
    var p := at + RecLen(|e.name|);
    (b[..at] + Record(e) + Trailer(p) + (if p + 8 <= 1024 then b[p + 8..] else []))[..1024]
  }

  lemma LeValues(b: seq<byte>, o: nat, v: nat, w: nat)
    requires o + 6 <= |b| && v < 0x1_0000_0000 && w < 0x1_0000
    requires b[o] == Le32(v)[0] && b[o + 1] == Le32(v)[1] && b[o + 2] == Le32(v)[2] && b[o + 3] == Le32(v)[3]
    requires b[o + 4] == Le16(w)[0] && b[o + 5] == Le16(w)[1]
    ensures U32(b, o) == v && U16(b, o + 4) == w
  {
  }

  /** Where the bytes of the new block come from. */
  lemma AppendBytes(b: Block, at: nat, e: Entry)
    requires at + 4 <= 1024 && e.Storable()
    ensures var r, rec := Append(b, at, e), Record(e);
      r[..at] == b[..at] && forall i :: 0 <= i < |rec| && at + i < 1024 ==> r[at + i] == rec[i]
  {
  }

  /** The appended record reads back as the entry. */
  lemma {:induction false} RecordReadsBack(b: Block, at: nat, e: Entry)
    requires at + 8 <= 1024 && e.Storable()
    ensures var r := Append(b, at, e);
      U32(r, at) == e.inode && U16(r, at + 4) == RecLen(|e.name|) && r[at + 6] == |e.name| && r[at + 7] == e.ftype
  {
    var r, h := Append(b, at, e), RecordHead(e);
    AppendBytes(b, at, e);
    assert forall i :: 0 <= i < 8 ==> Record(e)[i] == h[i];
    assert forall i :: 0 <= i < 8 ==> r[at + i] == h[i];
    LeValues(r, at, e.inode, RecLen(|e.name|));
  }

  /** Its inode number does also where the rest of the record is cut off. */
  lemma {:induction false} InodeReadsBack(b: Block, at: nat, e: Entry)
    requires at + 4 <= 1024 && e.Storable()
    ensures U32(Append(b, at, e), at) == e.inode
  {
    var r, w := Append(b, at, e), Le32(e.inode);
    AppendBytes(b, at, e);
    assert forall i :: 0 <= i < 4 ==> Record(e)[i] == w[i];
    assert forall i :: 0 <= i < 4 ==> r[at + i] == w[i];
    assert r[at + 0] == w[0];
  }

  lemma {:induction false} NameReadsBack(b: Block, at: nat, e: Entry)
    requires e.Storable() && at + 8 + |e.name| <= 1024
    ensures Append(b, at, e)[at + 8..at + 8 + |e.name|] == e.name
  {
    var r, n := Append(b, at, e), |e.name|;
    AppendBytes(b, at, e);
    forall i | 0 <= i < n ensures r[at + 8..at + 8 + n][i] == e.name[i] {
      assert Record(e)[8 + i] == e.name[i];
      assert r[at + (8 + i)] == e.name[i];
    }
  }

  lemma {:induction false} TrailerReadsBack(b: Block, at: nat, e: Entry)
    requires e.Storable() && at + RecLen(|e.name|) + 8 <= 1024
    ensures var r, p := Append(b, at, e), at + RecLen(|e.name|);
      U32(r, p) == 0 && U16(r, p + 4) == 1024 - p && r[p + 6] == 0 && r[p + 7] == 0 && r[p + 8..] == b[p + 8..]
  {
    var r, p := Append(b, at, e), at + RecLen(|e.name|);
    var t := Trailer(p);
    forall i | 0 <= i < 8 ensures r[p + i] == t[i] {
    }
    LeValues(r, p, 0, 1024 - p);
  }

  /** The inode word of the end record needs only four bytes. */
  lemma {:induction false} EndReadsBack(b: Block, at: nat, e: Entry)
    requires e.Storable() && at + RecLen(|e.name|) + 4 <= 1024
    ensures U32(Append(b, at, e), at + RecLen(|e.name|)) == 0
  {
    var r, p := Append(b, at, e), at + RecLen(|e.name|);
    var t := Trailer(p);
    forall i | 0 <= i < 4 ensures r[p + i] == t[i] {
    }
    assert r[p + 0] == t[0];
  }

  /** Every byte of the block after an append whose record and end record fit: the four header fields, the name, zeros
      up to a multiple of four, the end record, and the old bytes before and behind. */
  lemma {:induction false} AppendLays(b: Block, at: nat, e: Entry, p: nat)
    requires e.Storable() && at % 4 == 0 && p % 4 == 0 && at + 8 + |e.name| <= p < at + 12 + |e.name| && p + 8 <= 1024
    ensures var r := Append(b, at, e);
      U32(r, at) == e.inode && U16(r, at + 4) == p - at && r[at + 6] == |e.name| && r[at + 7] == e.ftype &&
      r[at + 8..at + 8 + |e.name|] == e.name && (forall i :: at + 8 + |e.name| <= i < p ==> r[i] == 0) &&
      U32(r, p) == 0 && U16(r, p + 4) == 1024 - p && r[p + 6] == 0 && r[p + 7] == 0 &&
      r[..at] == b[..at] && r[p + 8..] == b[p + 8..]
  {
    assert at + RecLen(|e.name|) == p;
    RecordReadsBack(b, at, e);
    NameReadsBack(b, at, e);
    TrailerReadsBack(b, at, e);
    PaddingIsZero(b, at, e);
  }

  lemma {:induction false} PaddingIsZero(b: Block, at: nat, e: Entry)
    requires at + 4 <= 1024 && e.Storable()
    ensures var r := Append(b, at, e);
      r[..at] == b[..at] && forall i :: at + 8 + |e.name| <= i < at + RecLen(|e.name|) && i < 1024 ==> r[i] == 0
  {
    var r, rec, n := Append(b, at, e), Record(e), 8 + |e.name|;
    AppendBytes(b, at, e);
    assert forall i :: n <= i < |rec| ==> rec[i] == 0;
    assert forall i :: 0 <= i < |rec| && at + i < 1024 ==> r[at + i] == rec[i];
    forall i | at + n <= i < at + |rec| && i < 1024 ensures r[i] == 0 {
      assert r[at + (i - at)] == rec[i - at];
    }
  }

  // ----- append then read -----

  lemma {:induction false} PrependTwice(a: seq<Entry>, b: seq<Entry>, l: Listing)
    ensures Prepend(a, Prepend(b, l)) == Prepend(a + b, l)
    ensures Prepend([], l) == l
  {
    if l.Listing? {
      assert a + (b + l.entries) == (a + b) + l.entries;
      assert [] + l.entries == l.entries;
    }
  }

  /** A walk that reaches `at` depends only on the bytes before `at`. */
  lemma {:induction false} WalkPrefix(b: Block, b': Block, pos: nat)
    requires Walk(b, pos).Listing?
    requires var at := Walk(b, pos).end; b[..at] == b'[..at]
    ensures var l := Walk(b, pos); Walk(b', pos) == Prepend(l.entries, Walk(b', l.end))
    decreases 1024 - pos
  {
    var l := Walk(b, pos);
    if U32(b, pos) == 0 {
      PrependTwice([], [], Walk(b', pos));
    } else {
      var next, e := pos + U16(b, pos + 4), EntryAt(b, pos);
      var rest := Walk(b, next);
      WalkPrefix(b, b', next);
      SameRecord(b, b', pos, l.end);
      assert Walk(b', pos) == Prepend([e], Walk(b', next));
      PrependTwice([e], rest.entries, Walk(b', l.end));
    }
  }

  lemma {:induction false} SameRecord(b: Block, b': Block, pos: nat, at: nat)
    requires pos + 8 <= 1024 && GoodHeader(b, pos) && pos + U16(b, pos + 4) <= at <= 1024 && b[..at] == b'[..at]
    ensures GoodHeader(b', pos) && EntryAt(b', pos) == EntryAt(b, pos)
    ensures U32(b', pos) == U32(b, pos) && U16(b', pos + 4) == U16(b, pos + 4)
  {
    forall i | 0 <= i < at ensures b[i] == b'[i] {
      assert b[..at][i] == b'[..at][i];
    }
    var n := b[pos + 6] as int;
    assert b[pos + 8..pos + 8 + n] == b'[pos + 8..pos + 8 + n];
  }

  /** What the walk sees from the place of the new record on. */
  lemma {:induction false} WalkNew(b: Block, at: nat, e: Entry)
    requires at % 4 == 0 && at + 4 <= 1024 && e.Storable()
    ensures var r, p := Append(b, at, e), at + RecLen(|e.name|);
      Walk(r, at) == if p + 4 <= 1024 then Listing([e], p) else Broken
  {
    var r, p := Append(b, at, e), at + RecLen(|e.name|);
    InodeReadsBack(b, at, e);
    if at + 8 <= 1024 {
      RecordReadsBack(b, at, e);
      if p + 4 <= 1024 {
        EndReadsBack(b, at, e);
        NameReadsBack(b, at, e);
        assert Walk(r, p) == Listing([], p);
        assert EntryAt(r, at) == e;
      } else if p <= 1024 {
        assert Walk(r, p) == Broken;
      }
    }
  }

  lemma {:induction false} AppendWalk(b: Block, e: Entry)
    requires Walk(b, 0).Listing? && e.Storable()
    ensures var l := Walk(b, 0);
      var r, p := Append(b, l.end, e), l.end + RecLen(|e.name|);
      Walk(r, 0) == if p + 4 <= 1024 then Listing(l.entries + [e], p) else Broken
  {
    var l := Walk(b, 0);
    var r := Append(b, l.end, e);
    WalkAligned(b, 0);
    AppendBytes(b, l.end, e);
    WalkPrefix(b, r, 0);
    WalkNew(b, l.end, e);
  }

  /** Round trip: after an append the walk sees the old entries and the new one exactly when there is room for the
      record and the inode word of the end record; the end record reaches the end of the block exactly when there is
      room for all of it. */
  lemma {:induction false} AppendRoundTrip(b: Block, e: Entry)
    requires Walk(b, 0).Listing? && e.Storable()
    ensures var l := Walk(b, 0);
      var r, p := Append(b, l.end, e), l.end + RecLen(|e.name|);
      (Walk(r, 0) == if p + 4 <= 1024 then Listing(l.entries + [e], p) else Broken) &&
      (Sealed(r) <==> p + 8 <= 1024)
  {
    AppendWalk(b, e);
    var l := Walk(b, 0);
    if l.end + RecLen(|e.name|) + 8 <= 1024 {
      TrailerSeals(b, l.end, e, l.entries);
    }
  }

  lemma {:induction false} TrailerSeals(b: Block, at: nat, e: Entry, es: seq<Entry>)
    requires e.Storable() && at + RecLen(|e.name|) + 8 <= 1024
    requires Walk(Append(b, at, e), 0) == Listing(es + [e], at + RecLen(|e.name|))
    ensures Sealed(Append(b, at, e))
  {
    TrailerReadsBack(b, at, e);
  }

  // ----- the routines -----

  /** A walk position: the header fields of the record at `pos`. */
  datatype Element = Element(inode: nat, recLen: nat, nameLen: nat, fileType: byte, pos: nat)

  /** `ext2_init_dir_walk` at position 0, and the header read of `ext2_dir_walk_next` elsewhere. */
  method ReadElement(buffer: array<byte>, pos: nat) returns (el: Element)
    requires pos + 8 <= buffer.Length
    ensures el == Element(U32(buffer[..], pos), U16(buffer[..], pos + 4), buffer[pos + 6], buffer[pos + 7], pos)
  {
    var b := buffer[..];
    el := Element(U32(b, pos), U16(b, pos + 4), b[pos + 6], b[pos + 7], pos);
  }

  /** The loop of `ext2_add_link` that looks for the inode-0 record; it ends on every well-formed block. */
  method WalkToEnd(buffer: array<byte>) returns (el: Element)
    requires buffer.Length == 4096 && Walk(buffer[..1024], 0).Listing?
    ensures el.pos == Walk(buffer[..1024], 0).end
  {
    ghost var b: Block := buffer[..1024];
    el := ReadElement(buffer, 0);
    while el.inode != 0
      invariant el.pos + 4 <= 1024 && el.inode == U32(b, el.pos)
      invariant el.pos + 8 <= 1024 ==> el.recLen == U16(b, el.pos + 4)
      invariant Walk(b, el.pos).Listing? && Walk(b, el.pos).end == Walk(b, 0).end
      decreases 1024 - el.pos
    {
      el := ReadElement(buffer, el.pos + el.recLen);
    }
  }

  /** The stores of `ext2_add_link` into the shared buffer. */
  method StoreRecord(buffer: array<byte>, at: nat, e: Entry)
    requires buffer.Length == 4096 && at + 4 <= 1024 && e.Storable()
    modifies buffer
    ensures buffer[..1024] == Append(old(buffer[..1024]), at, e)
  {
    ghost var before := buffer[..];
    var nameLen := |e.name|;
    var recLen := RecLen(nameLen);
    var padding := Padding(nameLen);
    StoreHead(buffer, at, e, recLen);
    CopyIn(buffer, at + 8, e.name);
    CopyIn(buffer, at + 8 + nameLen, Fill(padding));
    StoreTrailer(buffer, at + recLen);
    StoresMakeRecord(before, at, e, padding);
    assert buffer[..1024] == buffer[..][..1024] && before[..1024] == old(buffer[..1024]);
  }

  /** `4 - name_len % 4`: a full four bytes when the name needs none; the rest falls on the end record. */
  method Padding(nameLen: nat) returns (p: nat)
    ensures RecLen(nameLen) <= 8 + nameLen + p <= RecLen(nameLen) + 4
  {
    p := 4 - nameLen % 4;
  }

  /** The four stores amount to one contiguous record and end record. */
  lemma {:induction false} StoresMakeRecord(s: seq<byte>, at: nat, e: Entry, padding: nat)
    requires |s| == 4096 && at + 4 <= 1024 && e.Storable()
    requires RecLen(|e.name|) <= 8 + |e.name| + padding <= RecLen(|e.name|) + 4
    ensures var p := at + RecLen(|e.name|);
      var named := PutBytes(PutBytes(s, at, RecordHead(e)), at + 8, e.name);
      PutBytes(PutBytes(named, at + 8 + |e.name|, Fill(padding)), p, Trailer(p))[..1024] == Append(s[..1024], at, e)
  {
    var h, rec := RecordHead(e), RecLen(|e.name|);
    var n := h + e.name;
    PutNext(s, at, h, e.name);
    PutNext(s, at, n, Fill(padding));
    FillCut(n, rec, padding);
    PutOver(s, at, n + Fill(padding), rec, Trailer(at + rec));
    PutIsAppend(s, at, e);
  }

  lemma {:induction false} PutNext(s: seq<byte>, at: nat, first: seq<byte>, second: seq<byte>)
    requires at + |first| + |second| <= |s|
    ensures PutBytes(PutBytes(s, at, first), at + |first|, second) == PutBytes(s, at, first + second)
  {
    PutOver(s, at, first, |first|, second);
    assert first[..|first|] == first;
  }

  lemma FillCut(n: seq<byte>, rec: nat, padding: nat)
    requires |n| <= rec <= |n| + padding
    ensures (n + Fill(padding))[..rec] == n + Fill(rec - |n|)
  {
  }

  lemma {:induction false} PutIsAppend(s: seq<byte>, at: nat, e: Entry)
    requires |s| == 4096 && at + 4 <= 1024 && e.Storable()
    ensures PutBytes(s, at, Record(e) + Trailer(at + RecLen(|e.name|)))[..1024] == Append(s[..1024], at, e)
  {
    var p, r := at + RecLen(|e.name|), Record(e);
    var t := Trailer(p);
    var x, b := s[..at] + (r + t), s[..1024];
    assert x == b[..at] + r + t;
    if p + 8 <= 1024 {
      assert (x + s[p + 8..])[..1024] == x + b[p + 8..] == (x + b[p + 8..])[..1024];
    } else {
      assert (x + s[p + 8..])[..1024] == x[..1024] == (x + [])[..1024];
    }
  }

  method StoreHead(buffer: array<byte>, at: nat, e: Entry, recLen: nat)
    requires at + 8 <= buffer.Length && e.Storable() && recLen == RecLen(|e.name|)
    modifies buffer
    ensures buffer[..] == PutBytes(old(buffer[..]), at, RecordHead(e))
  {
    Store32(buffer, at, e.inode);
    Store16(buffer, at + 4, recLen);
    buffer[at + 6] := |e.name|;
    buffer[at + 7] := e.ftype;
  }

  method StoreTrailer(buffer: array<byte>, p: nat)
    requires p + 8 <= buffer.Length && p < 2048
    modifies buffer
    ensures buffer[..] == PutBytes(old(buffer[..]), p, Trailer(p))
  {
    Store32(buffer, p, 0);
    Store16(buffer, p + 4, if p <= 1024 then 1024 - p else 0x1_0000 + 1024 - p);
    buffer[p + 6] := 0;
    buffer[p + 7] := 0;
  }
}
