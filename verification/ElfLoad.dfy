/** `elf__load_elf_file`: a block for the whole image, and the segments of the file copied into it. */
module ElfLoad {
  import opened Bytes
  import opened Status
  import opened Elf
  import opened BuddyTree
  import opened Allocator
  import Arena

  /** Segments of this type are loaded. */
  const PT_LOAD := 1

  // ----- how much memory the image takes -----

  /** The largest end of an entry in memory, in 32-bit arithmetic. */
  function MemHigh(ps: seq<Phdr>): (v: nat)
    ensures v < 0x1_0000_0000
  {
    if ps == [] then 0
    else
      var v, p := MemHigh(ps[..|ps| - 1]), ps[|ps| - 1];
      var e := (p.vaddr + p.memsz) % 0x1_0000_0000;
      if e > v then e else v
  }

  /** It is at least the end of every entry, and it is the end of one or zero. */
  lemma {:induction false} MemHighIsMax(ps: seq<Phdr>)
    ensures forall i :: 0 <= i < |ps| ==> (ps[i].vaddr + ps[i].memsz) % 0x1_0000_0000 <= MemHigh(ps)
    ensures MemHigh(ps) == 0 ||
      exists i :: 0 <= i < |ps| && (ps[i].vaddr + ps[i].memsz) % 0x1_0000_0000 == MemHigh(ps)
    decreases |ps|
  {
    if ps != [] {
      var n := |ps| - 1;
      MemHighIsMax(ps[..n]);
      assert forall i :: 0 <= i < n ==> ps[..n][i] == ps[i];
      if MemHigh(ps) == MemHigh(ps[..n]) && MemHigh(ps) != 0 {
        var i :| 0 <= i < n && (ps[..n][i].vaddr + ps[..n][i].memsz) % 0x1_0000_0000 == MemHigh(ps);
        assert ps[i] == ps[..n][i];
      }
    }
  }

  // ----- the image -----

  /** The segment is in the file, its file part is no longer than its memory, and its end does not wrap around. */
  ghost predicate Sound(p: Phdr, file: seq<byte>) {
    p.kind == PT_LOAD ==>
      p.offset + p.filesz <= |file| && p.filesz <= p.memsz && p.vaddr + p.memsz < 0x1_0000_0000
  }

  ghost predicate AllSound(ps: seq<Phdr>, file: seq<byte>) { forall i :: 0 <= i < |ps| ==> Sound(ps[i], file) }

  /** All the memory of a sound segment is inside the image. */
  lemma {:induction false} SegmentInside(ps: seq<Phdr>, file: seq<byte>, i: nat)
    requires AllSound(ps, file) && i < |ps|
    ensures ps[i].kind == PT_LOAD ==>
      ps[i].vaddr + ps[i].filesz <= ps[i].vaddr + ps[i].memsz <= MemHigh(ps) && ps[i].offset + ps[i].filesz <= |file|
  {
    MemHighIsMax(ps);
    assert Sound(ps[i], file);
  }

  /** The segments are sound and the image at offset `at` ends inside memory of `size` bytes. */
  ghost predicate Loadable(ps: seq<Phdr>, file: seq<byte>, at: nat, size: nat) {
    AllSound(ps, file) && at + MemHigh(ps) <= size
  }

  /** User memory after one segment was copied. */
  function Placed(mem: seq<byte>, file: seq<byte>, p: Phdr, at: nat): (r: seq<byte>)
    requires p.kind == PT_LOAD ==> p.offset + p.filesz <= |file| && at + p.vaddr + p.filesz <= |mem|
    ensures |r| == |mem|
  {
    if p.kind == PT_LOAD then PutBytes(mem, at + p.vaddr, file[p.offset..p.offset + p.filesz]) else mem
  }

  /** User memory after the first `n` segments were copied. */
  function Image(mem: seq<byte>, file: seq<byte>, ps: seq<Phdr>, at: nat, n: nat): (r: seq<byte>)
    requires Loadable(ps, file, at, |mem|) && n <= |ps|
    ensures |r| == |mem|
    decreases n, ps
  {
    if n == 0 then mem
    else
      SegmentInside(ps, file, n - 1);
      Placed(Image(mem, file, ps, at, n - 1), file, ps[n - 1], at)
  }

  /** No byte of the file part of one segment has a place in that of the other. */
  ghost predicate Apart(p: Phdr, q: Phdr) {
    p.kind != PT_LOAD || q.kind != PT_LOAD || p.vaddr + p.filesz <= q.vaddr || q.vaddr + q.filesz <= p.vaddr
  }

  /** Byte `k` of a segment that no later segment overlaps is the file's. */
  lemma {:induction false} SegmentLoaded(mem: seq<byte>, file: seq<byte>, ps: seq<Phdr>, at: nat, n: nat, i: nat,
                                         k: nat)
    requires Loadable(ps, file, at, |mem|) && i < n <= |ps| && ps[i].kind == PT_LOAD && k < ps[i].filesz
    requires forall j :: i < j < n ==> Apart(ps[i], ps[j])
    ensures at + ps[i].vaddr + k < |mem| && ps[i].offset + k < |file|
    ensures Image(mem, file, ps, at, n)[at + ps[i].vaddr + k] == file[ps[i].offset + k]
    decreases n
  {
    SegmentInside(ps, file, i);
    SegmentInside(ps, file, n - 1);
    if i < n - 1 {
      SegmentLoaded(mem, file, ps, at, n - 1, i, k);
      assert Apart(ps[i], ps[n - 1]);
    }
  }

  /** Memory outside the file parts of all segments stays as it was; so does everything outside the image. */
  lemma {:induction false} RestKept(mem: seq<byte>, file: seq<byte>, ps: seq<Phdr>, at: nat, n: nat, x: nat)
    requires Loadable(ps, file, at, |mem|) && n <= |ps| && x < |mem|
    requires forall i :: 0 <= i < n && ps[i].kind == PT_LOAD ==>
      !(at + ps[i].vaddr <= x < at + ps[i].vaddr + ps[i].filesz)
    ensures Image(mem, file, ps, at, n)[x] == mem[x]
    decreases n
  {
    if n > 0 {
      SegmentInside(ps, file, n - 1);
      RestKept(mem, file, ps, at, n - 1, x);
    }
  }

  // ----- the block -----

  /** Lengths for which the block granted is large enough. */
  ghost predicate GoodLength(len: nat) { len <= 4096 || (len < 0x4000_0000 && !IsPow2(len)) }

  /** The image lies in the block granted for it, and so in user memory, exactly when its length is a good one. */
  lemma {:induction false} ImageInBlock(t: Tree, len: nat)
    requires Root(t) && len < 0x1_0000_0000 && Find(t, len, 31).Found?
    ensures var r := Find(t, len, 31);
      BASE <= r.start && r.start + r.len <= 0x9000_0000 && (len <= r.len <==> GoodLength(len))
  {
    GrantTakesBlock(t, len, BASE);
    FitIsExact(len);
  }

  /** `r` is the block granted for the image of these segments, whose length is a good one. */
  ghost predicate GoodBlock(ps: seq<Phdr>, file: seq<byte>, t: Tree, r: Search) {
    Root(t) && r == Find(t, MemHigh(ps), 31) && r.Found? && GoodLength(MemHigh(ps)) && AllSound(ps, file)
  }

  /** The image lies inside the block, and so inside user memory. */
  lemma {:induction false} GoodIsLoadable(ps: seq<Phdr>, file: seq<byte>, t: Tree, r: Search)
    requires GoodBlock(ps, file, t, r)
    ensures r.start >= BASE && Loadable(ps, file, r.start - BASE, 0x8000_0000) && MemHigh(ps) <= r.len
  {
    ImageInBlock(t, MemHigh(ps));
  }

  /** All the memory of each segment, `p_memsz` bytes from the granted address plus `p_vaddr` on, is in the block. */
  lemma {:induction false} MemoryInBlock(file: seq<byte>, ps: seq<Phdr>, t: Tree, r: Search, i: nat, k: nat)
    requires GoodBlock(ps, file, t, r) && i < |ps| && ps[i].kind == 1 && k < ps[i].memsz
    ensures 0x1000_0000 <= r.start <= r.start + ps[i].vaddr + k < r.start + r.len <= 0x9000_0000
  {
    GoodIsLoadable(ps, file, t, r);
    SegmentInside(ps, file, i);
    ImageInBlock(t, MemHigh(ps));
  }

  /** Each segment's file bytes, unless a later segment overlaps it, are at the granted address plus `p_vaddr`, inside
      the block. User memory starts at `BASE`. */
  lemma {:induction false} SegmentsInBlock(mem: seq<byte>, file: seq<byte>, ps: seq<Phdr>, t: Tree, r: Search,
                                           i: nat, k: nat)
    requires GoodBlock(ps, file, t, r) && |mem| == 0x8000_0000
    requires i < |ps| && ps[i].kind == 1 && k < ps[i].filesz && forall j :: i < j < |ps| ==> Apart(ps[i], ps[j])
    ensures var x := r.start + ps[i].vaddr + k;
      BASE <= r.start <= x < r.start + r.len && x < 0x9000_0000 && Loadable(ps, file, r.start - BASE, |mem|) &&
      ps[i].offset + k < |file| && Image(mem, file, ps, r.start - BASE, |ps|)[x - BASE] == file[ps[i].offset + k]
  {
    GoodIsLoadable(ps, file, t, r);
    SegmentLoaded(mem, file, ps, r.start - BASE, |ps|, i, k);
    SegmentInside(ps, file, i);
  }

  /** Loading changes nothing outside the block. */
  lemma {:induction false} OthersKept(mem: seq<byte>, file: seq<byte>, ps: seq<Phdr>, t: Tree, r: Search, x: nat)
    requires GoodBlock(ps, file, t, r) && |mem| == 0x8000_0000
    requires BASE <= x < 0x9000_0000 && !(r.start <= x < r.start + r.len)
    ensures r.start >= BASE && Loadable(ps, file, r.start - BASE, |mem|) &&
      Image(mem, file, ps, r.start - BASE, |ps|)[x - BASE] == mem[x - BASE]
  {
    GoodIsLoadable(ps, file, t, r);
    var at := r.start - BASE;
    forall j | 0 <= j < |ps| && ps[j].kind == PT_LOAD
      ensures !(at + ps[j].vaddr <= x - BASE < at + ps[j].vaddr + ps[j].filesz) {
      SegmentInside(ps, file, j);
    }
    RestKept(mem, file, ps, at, |ps|, x - BASE);
  }

  // ----- the routine -----

  /** The loop over the segments that finds the end of the image. */
  method FindMemHigh(ps: seq<Phdr>) returns (memHigh: nat)
    ensures memHigh == MemHigh(ps)
  {
    memHigh := 0;
    for i := 0 to |ps|
      invariant memHigh == MemHigh(ps[..i])
    {
      var p := ps[i];
      var high := (p.vaddr + p.memsz) % 0x1_0000_0000;
      assert ps[..i + 1][..i] == ps[..i];
      if high > memHigh {
        memHigh := high;
      }
    }
    assert ps[..|ps|] == ps;
  }

  /** One segment. */
  method CopySegment(user: array<byte>, file: seq<byte>, p: Phdr, at: nat)
    requires p.kind == PT_LOAD ==> p.offset + p.filesz <= |file| && at + p.vaddr + p.filesz <= user.Length
    modifies user
    ensures user[..] == Placed(old(user[..]), file, p, at)
  {
    if p.kind == PT_LOAD {
      CopyIn(user, at + p.vaddr, file[p.offset..p.offset + p.filesz]);
    }
  }

  /** The loop that copies the segments. */
  method CopySegments(user: array<byte>, ps: seq<Phdr>, file: seq<byte>, at: nat)
    requires Loadable(ps, file, at, user.Length)
    modifies user
    ensures user[..] == Image(old(user[..]), file, ps, at, |ps|)
  {
    for i := 0 to |ps|
      invariant user[..] == Image(old(user[..]), file, ps, at, i)
    {
      SegmentInside(ps, file, i);
      CopySegment(user, file, ps[i], at);
    }
  }

  /** The header that the loader works with: the file's, or whatever the variable held if the file is refused. */
  function HeaderOf(file: seq<byte>, was: Ehdr): (h: Ehdr)
    requires |file| >= EHDR
  {
    if Verdict(file) == NoError then file[..EHDR] else was
  }

  /** The entries that the loader works with. */
  ghost function PhdrsOf(file: seq<byte>, was: Ehdr, stack: seq<byte>): (ps: seq<Phdr>)
    requires |file| >= EHDR && |stack| == 100 * PHDR && TableFits(HeaderOf(file, was), file)
  {
    var h := HeaderOf(file, was);
    Phdrs(Copied(PutBytes(stack, 0, seq(100, _ => 0 as byte)), h, file, PhNum(h)), PhNum(h))
  }

  /** Header and table: the first 100 bytes of the table are cleared, then the entries are copied. */
  method ReadTable(file: seq<byte>, was: Ehdr, stack: seq<byte>) returns (h: Ehdr, ps: seq<Phdr>)
    requires |file| >= EHDR && |stack| == 100 * PHDR && TableFits(HeaderOf(file, was), file)
    ensures h == HeaderOf(file, was) && ps == PhdrsOf(file, was, stack)
  {
    var _, hdr := ParseHeader(file, was);
    h := hdr;
    var table := new byte[100 * PHDR](i requires 0 <= i < 100 * PHDR => stack[i]);
    assert table[..] == stack;
    CopyIn(table, 0, seq(100, _ => 0 as byte));
    var _ := ParseProgramHeaders(table, h, file);
    ps := Phdrs(table[..], PhNum(h));
  }

  /** The demands on allocator and user memory for an image of these segments. */
  ghost predicate CanLoad(ps: seq<Phdr>, file: seq<byte>, s: System, nodes: nat, size: nat)
    requires Ok(s)
  {
    AllSound(ps, file) && HasFrames(s, MemHigh(ps)) &&
    nodes + 2 * Splits(s.tree, MemHigh(ps), 31) <= Arena.CAPACITY &&
    (Served(s, MemHigh(ps)) ==>
      Find(s.tree, MemHigh(ps), 31).start >= BASE &&
      Loadable(ps, file, Find(s.tree, MemHigh(ps), 31).start - BASE, size))
  }

  /** The image of these segments is in the block granted for it from tree `t`. */
  ghost predicate Loaded(mem: seq<byte>, mem': seq<byte>, file: seq<byte>, ps: seq<Phdr>, t: Tree, loc: nat)
    requires Root(t)
  {
    Find(t, MemHigh(ps), 31).Found? && loc == Find(t, MemHigh(ps), 31).start && loc >= BASE &&
    Loadable(ps, file, loc - BASE, |mem|) && mem' == Image(mem, file, ps, loc - BASE, |ps|)
  }

  /** The first part of `elf__load_elf_file`: header, table and length of the image. */
  method Prepare(file: seq<byte>, was: Ehdr, stack: seq<byte>) returns (h: Ehdr, ps: seq<Phdr>, memHigh: nat)
    requires |file| >= EHDR && |stack| == 100 * PHDR && TableFits(HeaderOf(file, was), file)
    ensures h == HeaderOf(file, was) && ps == PhdrsOf(file, was, stack) && memHigh == MemHigh(ps)
  {
    h, ps := ReadTable(file, was, stack);
    memHigh := FindMemHigh(ps);
  }

  /** The second part of `elf__load_elf_file`: the block, and the segments in it. */
  method LoadSegments(file: seq<byte>, ps: seq<Phdr>, memHigh: nat, user: array<byte>, allocator: BuddyAllocator,
                      ghost owner: map<nat, nat>)
    returns (ret: Ret, loc: nat, ghost after: map<nat, nat>)
    requires allocator.Valid(owner) && user != allocator.mm.page && user != allocator.mm.vm && memHigh == MemHigh(ps)
    requires CanLoad(ps, file, allocator.Sys(owner), allocator.arena.nodes, user.Length)
    modifies user, allocator.arena, allocator.arena.mem, allocator.root.Repr,
      allocator.mm.page, allocator.mm.vm, allocator.mm.table, allocator.mm.dir
    ensures allocator.Valid(after)
    ensures ret != NoError ==> user[..] == old(user[..])
    ensures ret == NoError ==> Loaded(old(user[..]), user[..], file, ps, old(allocator.root.Model()), loc)
  {
    ret, loc, after := AllocImage(memHigh, allocator, owner);
    if ret != NoError {
      return;
    }
    CopyBeside(user, ps, file, loc - BASE, allocator, after);
  }

  /** What the loader needs to know of an allocation. */
  method AllocImage(len: nat, allocator: BuddyAllocator, ghost owner: map<nat, nat>)
    returns (ret: Ret, loc: nat, ghost after: map<nat, nat>)
    requires allocator.Valid(owner) && len < 0x1_0000_0000 && HasFrames(allocator.Sys(owner), len)
    requires allocator.arena.nodes + 2 * Splits(allocator.root.Model(), len, 31) <= Arena.CAPACITY
    modifies allocator.arena, allocator.arena.mem, allocator.root.Repr,
      allocator.mm.page, allocator.mm.vm, allocator.mm.table, allocator.mm.dir
    ensures allocator.Valid(after)
    ensures ret == NoError ==>
      Served(old(allocator.Sys(owner)), len) && loc == Find(old(allocator.root.Model()), len, 31).start
  {
    ret, loc, after := allocator.Alloc(len, owner);
  }

  /** The copies leave the allocator alone. */
  method CopyBeside(user: array<byte>, ps: seq<Phdr>, file: seq<byte>, at: nat, ghost allocator: BuddyAllocator,
                    ghost owner: map<nat, nat>)
    requires allocator.Valid(owner) && user != allocator.mm.page && user != allocator.mm.vm
    requires Loadable(ps, file, at, user.Length)
    modifies user
    ensures allocator.Valid(owner) && user[..] == Image(old(user[..]), file, ps, at, |ps|)
  {
    CopySegments(user, ps, file, at);
  }

  /** `elf__load_elf_file`. User memory is the array `user`, which stands for the addresses from `BASE` on; `was` and
      `stack` are what the header and table variables held. A header that is refused is only reported: loading goes on
      with what the variable held. */
  method Load(file: seq<byte>, was: Ehdr, stack: seq<byte>, user: array<byte>, allocator: BuddyAllocator,
              ghost owner: map<nat, nat>)
    returns (ret: Ret, loc: nat, entry: nat, ghost after: map<nat, nat>)
    requires |file| >= EHDR && |stack| == 100 * PHDR && TableFits(HeaderOf(file, was), file)
    requires allocator.Valid(owner) && user != allocator.mm.page && user != allocator.mm.vm
    requires CanLoad(PhdrsOf(file, was, stack), file, allocator.Sys(owner), allocator.arena.nodes, user.Length)
    modifies user, allocator.arena, allocator.arena.mem, allocator.root.Repr,
      allocator.mm.page, allocator.mm.vm, allocator.mm.table, allocator.mm.dir
    ensures allocator.Valid(after)
    ensures ret != NoError ==> user[..] == old(user[..])
    ensures ret == NoError ==>
      Loaded(old(user[..]), user[..], file, PhdrsOf(file, was, stack), old(allocator.root.Model()), loc) &&
      entry == (loc + U32(HeaderOf(file, was), 24)) % 0x1_0000_0000
  {
    var h, ps, memHigh := Prepare(file, was, stack);
    ret, loc, after := LoadSegments(file, ps, memHigh, user, allocator, owner);
    entry := if ret == NoError then (loc + Entry(h)) % 0x1_0000_0000 else 0;
  }
}
