/** ELF headers as `elf.c` reads them. */
module Elf {
  import opened Bytes
  import opened Status

  /** Bytes in a file header, and in an entry of the program header table. */
  const EHDR := 52
  const PHDR := 32

  // ----- the file header -----

  type Ehdr = b: seq<byte> | |b| == EHDR witness seq(EHDR, _ => 0 as byte)

  function Entry(h: Ehdr): (v: nat) { U32(h, 24) }
  function PhOff(h: Ehdr): (v: nat) { U32(h, 28) }
  function PhEntSize(h: Ehdr): (v: nat) { U16(h, 42) }
  function PhNum(h: Ehdr): (v: nat) { U16(h, 44) }

  /** What the header check says of a file: the magic number first, then class and byte order. */
  function Verdict(file: seq<byte>): (ret: Ret)
    requires |file| >= EHDR
  {
    if file[..4] != [0x7F, 0x45, 0x4C, 0x46] then Malformed
    else if file[4] == 2 || file[4] == 0 || file[5] == 2 || file[5] == 0 then Unsupported
    else NoError
  }

  /** `elf__parse_header`; a file that is refused leaves the header as it was. */
  method ParseHeader(file: seq<byte>, was: Ehdr) returns (ret: Ret, h: Ehdr)
    requires |file| >= EHDR
    ensures ret == Verdict(file)
    ensures ret == Malformed <==> !(file[0] == 0x7F && file[1] == 0x45 && file[2] == 0x4C && file[3] == 0x46)
    ensures ret == NoError ==> file[4] != 0 && file[4] != 2 && file[5] != 0 && file[5] != 2
    ensures ret == Unsupported ==> file[4] == 0 || file[4] == 2 || file[5] == 0 || file[5] == 2
    ensures ret == Malformed || ret == Unsupported || ret == NoError
    ensures h == if ret == NoError then file[..EHDR] else was
  {
    h := was;
    if !(file[0] == 0x7F && file[1] == 0x45 && file[2] == 0x4C && file[3] == 0x46) {
      return Malformed, h;
    }
    var cls := file[4];
    if cls == 2 || cls == 0 {
      return Unsupported, h;
    }
    var data := file[5];
    if data == 2 || data == 0 {
      return Unsupported, h;
    }
    return NoError, file[..EHDR];
  }

  // ----- the program header table -----

  datatype Phdr = Phdr(kind: nat, offset: nat, vaddr: nat, filesz: nat, memsz: nat)

  function PhdrAt(b: seq<byte>, o: nat): (p: Phdr)
    requires o + PHDR <= |b|
    ensures p.vaddr < 0x1_0000_0000 && p.memsz < 0x1_0000_0000
  {
    Phdr(U32(b, o), U32(b, o + 4), U32(b, o + 8), U32(b, o + 16), U32(b, o + 20))
  }

  /** Where entry `i` is in the file. */
  function Pos(h: Ehdr, i: nat): (o: nat)
    ensures o >= PhOff(h)
    decreases i, h
  {
    if i == 0 then PhOff(h) else Pos(h, i - 1) + PhEntSize(h)
  }

  lemma {:induction false} PosIs(off: nat, len: nat, h: Ehdr, i: nat)
    requires off == PhOff(h) && len == PhEntSize(h)
    ensures Pos(h, i) == off + i * len
    decreases i
  {
    if i > 0 {
      PosIs(off, len, h, i - 1);
      assert i * len == (i - 1) * len + len;
    }
  }

  lemma {:induction false} PosBefore(h: Ehdr, i: nat, n: nat)
    requires i < n
    ensures Pos(h, i) + PhEntSize(h) <= Pos(h, n)
    decreases n
  {
    if i < n - 1 {
      PosBefore(h, i, n - 1);
    }
  }

  /** The table is in the file, and the array of 100 entries has room for it, the overhang of the last one included. */
  ghost predicate TableFits(h: Ehdr, file: seq<byte>) {
    PhNum(h) <= 100 && Pos(h, PhNum(h)) <= |file| &&
    (PhNum(h) > 0 ==> PHDR * (PhNum(h) - 1) + PhEntSize(h) <= 100 * PHDR)
  }

  /** The bytes copied for entry `i`. */
  function EntryBytes(h: Ehdr, file: seq<byte>, i: nat): (s: seq<byte>)
    requires TableFits(h, file) && i < PhNum(h)
    ensures |s| == PhEntSize(h) && PHDR * i + |s| <= 100 * PHDR && Pos(h, i) + |s| <= |file|
  {
    PosBefore(h, i, PhNum(h));
    file[Pos(h, i)..Pos(h, i) + PhEntSize(h)]
  }

  /** The table after `n` entries were copied, each to its place among entries of 32 bytes. */
  ghost function Copied(table: seq<byte>, h: Ehdr, file: seq<byte>, n: nat): (r: seq<byte>)
    requires |table| == 100 * PHDR && TableFits(h, file) && n <= PhNum(h)
    ensures |r| == |table|
    decreases n, h
  {
    if n == 0 then table else PutBytes(Copied(table, h, file, n - 1), PHDR * (n - 1), EntryBytes(h, file, n - 1))
  }

  /** One round of the copying loop. */
  method CopyEntry(table: array<byte>, h: Ehdr, file: seq<byte>, i: nat)
    requires table.Length == 100 * PHDR && TableFits(h, file) && i < PhNum(h)
    modifies table
    ensures table[..] == PutBytes(old(table[..]), PHDR * i, EntryBytes(h, file, i))
  {
    PosBefore(h, i, PhNum(h));
    PosIs(PhOff(h), PhEntSize(h), h, i);
    var o := PhOff(h) + i * PhEntSize(h);
    CopyIn(table, PHDR * i, file[o..o + PhEntSize(h)]);
  }

  /** `elf__parse_program_headers`. */
  method ParseProgramHeaders(table: array<byte>, h: Ehdr, file: seq<byte>) returns (ret: Ret)
    requires table.Length == 100 * PHDR && TableFits(h, file)
    modifies table
    ensures ret == NoError && table[..] == Copied(old(table[..]), h, file, PhNum(h))
  {
    ghost var now := table[..];
    var i := 0;
    while i < PhNum(h)
      invariant i <= PhNum(h) && now == table[..] && now == Copied(old(table[..]), h, file, i)
    {
      CopyEntry(table, h, file, i);
      now := PutBytes(now, PHDR * i, EntryBytes(h, file, i));
      i := i + 1;
    }
    return NoError;
  }

  /** If entries of the file have at least 32 bytes, every entry of the table is the file's, though each copy may run
      into the next entry. */
  lemma {:induction false} TableIsFile(table: seq<byte>, h: Ehdr, file: seq<byte>, n: nat, i: nat)
    requires |table| == 100 * PHDR && TableFits(h, file) && i < n <= PhNum(h) && PhEntSize(h) >= PHDR
    ensures Copied(table, h, file, n)[PHDR * i..PHDR * i + PHDR] == EntryBytes(h, file, i)[..PHDR]
    decreases n
  {
    var before := Copied(table, h, file, n - 1);
    if i < n - 1 {
      TableIsFile(table, h, file, n - 1, i);
      PutKeeps(before, PHDR * (n - 1), EntryBytes(h, file, n - 1), PHDR * i);
    } else {
      PutStarts(before, PHDR * i, EntryBytes(h, file, i));
    }
  }

  lemma PutKeeps(b: seq<byte>, o: nat, src: seq<byte>, f: nat)
    requires o + |src| <= |b| && f + PHDR <= o
    ensures PutBytes(b, o, src)[f..f + PHDR] == b[f..f + PHDR]
  {
  }

  lemma PutStarts(b: seq<byte>, o: nat, src: seq<byte>)
    requires o + |src| <= |b| && PHDR <= |src|
    ensures PutBytes(b, o, src)[o..o + PHDR] == src[..PHDR]
  {
  }

  lemma FieldOfSlice(b: seq<byte>, o: nat, k: nat, t: seq<byte>)
    requires o + PHDR <= |b| && t == b[o..o + PHDR] && k + 4 <= PHDR
    ensures U32(t, k) == U32(b, o + k)
  {
  }

  lemma {:induction false} PhdrOfSlice(b: seq<byte>, o: nat, t: seq<byte>)
    requires o + PHDR <= |b| && t == b[o..o + PHDR]
    ensures PhdrAt(b, o) == PhdrAt(t, 0)
  {
    FieldOfSlice(b, o, 0, t);
    FieldOfSlice(b, o, 4, t);
    FieldOfSlice(b, o, 8, t);
    FieldOfSlice(b, o, 16, t);
    FieldOfSlice(b, o, 20, t);
  }

  lemma EntryStarts(h: Ehdr, file: seq<byte>, i: nat)
    requires TableFits(h, file) && i < PhNum(h) && PhEntSize(h) >= PHDR
    ensures EntryBytes(h, file, i)[..PHDR] == file[Pos(h, i)..Pos(h, i) + PHDR]
  {
  }

  /** The first `n` entries of a table. */
  function Phdrs(table: seq<byte>, n: nat): (s: seq<Phdr>)
    requires PHDR * n <= |table|
    ensures |s| == n && forall i :: 0 <= i < n ==> s[i] == PhdrAt(table, PHDR * i)
  {
    seq(n, i requires 0 <= i < n => PhdrAt(table, PHDR * i))
  }

  /** Type, file offset, virtual address, file size and memory size are words 0, 1, 2, 4 and 5 of an entry. */
  lemma PhdrWords(b: seq<byte>, o: nat)
    requires o + PHDR <= |b|
    ensures var p := PhdrAt(b, o);
      p.kind == U32(b, o) && p.offset == U32(b, o + 4) && p.vaddr == U32(b, o + 8) && p.filesz == U32(b, o + 16) &&
      p.memsz == U32(b, o + 20)
  {
  }

  /** Entries are as far apart as the half word at byte 42 of the header says, from the word at byte 28 on. */
  lemma {:induction false} EntryPlace(h: Ehdr, i: nat)
    ensures Pos(h, i) == U32(h, 28) + i * U16(h, 42)
  {
    PosIs(PhOff(h), PhEntSize(h), h, i);
  }

  /** The entries that the loader works on are those of the file: as many as the half word at byte 44 of the header
      says, each read from its place. */
  lemma {:induction false} PhdrsAreFiles(table: seq<byte>, h: Ehdr, file: seq<byte>, i: nat, o: nat)
    requires |table| == 100 * PHDR && TableFits(h, file) && i < PhNum(h) && PhEntSize(h) >= PHDR && o == Pos(h, i)
    ensures o + 32 <= |file| && PhNum(h) == U16(h, 44)
    ensures Phdrs(Copied(table, h, file, PhNum(h)), PhNum(h))[i] == PhdrAt(file, o)
  {
    TableIsFile(table, h, file, PhNum(h), i);
    var t := EntryBytes(h, file, i)[..PHDR];
    EntryStarts(h, file, i);
    PhdrOfSlice(Copied(table, h, file, PhNum(h)), PHDR * i, t);
    PhdrOfSlice(file, o, t);
  }
}
