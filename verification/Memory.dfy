/** Physical frames, virtual pages and the page table: `mm.c` over `paging.c`. */
module Memory {
  import opened Bytes
  import opened Bits
  import opened Status

  /** Frames below 64 MiB are reserved. */
  const LOW_FRAMES := 16384

  /** The two bitmaps, the flat page table and the page directory. */
  datatype Mem = Mem(page: seq<byte>, vm: seq<byte>, table: seq<nat>, dir: seq<nat>) {
    predicate Sized() { |page| == 131072 && |vm| == 131072 && |table| == 1048576 && |dir| == 1024 }
  }

  // ----- the operations on values -----

  /** The byte scan of `mm_find_empty_block_physical` from byte `j` on: the lowest one that is not 0xFF, or the end of
      the bitmap, where the original reads on. */
  function OpenByte(page: seq<byte>, j: nat): (i: nat)
    requires j <= |page|
    ensures j <= i <= |page| && (i < |page| ==> page[i] != 255) && forall k :: j <= k < i ==> page[k] == 255
    decreases |page| - j
  {
    if j == |page| || page[j] != 255 then j else OpenByte(page, j + 1)
  }

  /** The scan stays inside the bitmap exactly when a frame is free. */
  lemma {:induction false} FrameScanIsExact(page: seq<byte>)
    ensures OpenByte(page, 0) < |page| <==> Free(page) > 0
  {
    var i := OpenByte(page, 0);
    if i < |page| {
      FullByte(page[i]);
      var k :| 0 <= k < 8 && !Bit(page[i], k);
      assert !BitAt(page, 8 * i + k);
      ZerosPositive(page, 8 * i + k, 8 * |page|);
    } else if Free(page) > 0 {
      var x := SomeZero(page, 8 * |page|);
      FullByte(page[x / 8]);
    }
  }

  /** `mm_find_empty_block_physical`: the lowest free frame. */
  function FirstFrame(page: seq<byte>): (f: nat)
    requires Free(page) > 0
    ensures f < 8 * |page| && !BitAt(page, f)
  {
    FrameScanIsExact(page);
    var j := OpenByte(page, 0);
    8 * j + FirstZero(page[j])
  }

  lemma {:induction false} FirstFrameIsLowest(page: seq<byte>, x: nat)
    requires Free(page) > 0 && x < FirstFrame(page)
    ensures x < 8 * |page| && BitAt(page, x)
  {
    FrameScanIsExact(page);
    var j := OpenByte(page, 0);
    if x / 8 < j {
      FullByte(page[x / 8]);
    }
  }

  /** A page-table entry as `arch_paging_map` writes it: the frame address with all low bits set. */
  function EntryOf(frame: nat): (e: nat)
    ensures e % 4096 == 0xFFF && e / 4096 == frame
  {
    4096 * frame + 0xFFF
  }

  /** `arch_paging_virt_to_phys`, which clears the low twelve bits, then division by the page size. */
  function FrameOf(entry: nat): (f: nat) { entry / 4096 }

  /** `entry |= (1 << 0) | (1 << 1)`. */
  function Enable(entry: nat): (e: nat)
    ensures e % 4 == 3 && e / 4 == entry / 4
  {
    entry - entry % 4 + 3
  }

  /** Page `v` is present and translates to frame `f`: bit 0 of a table entry and of a directory entry says that it is
      present, bit 1 that it is writable, and a table entry has the frame from bit 12 on. */
  predicate MapsTo(m: Mem, v: nat, f: nat)
    requires m.Sized() && v < 1048576
  {
    m.table[v] % 4096 == 0xFFF && m.table[v] / 4096 == f && m.dir[v / 1024] % 4 == 3
  }

  /** `arch_paging_map` of page `v`. */
  function Mapped(m: Mem, v: nat, frame: nat): (m': Mem)
    requires m.Sized() && v < 1048576
    ensures m'.Sized()
  {
    m.(table := m.table[v := EntryOf(frame)], dir := m.dir[v / 1024 := Enable(m.dir[v / 1024])])
  }

  /** The pages `v`, `v + 1`, ... mapped to frames `f`, `f + 1`, .... */
  function MappedRun(m: Mem, v: nat, f: nat, count: nat): (m': Mem)
    requires m.Sized() && v + count <= 1048576
    ensures m'.Sized() && m'.page == m.page && m'.vm == m.vm
    decreases count
  {
    if count == 0 then m else Mapped(MappedRun(m, v, f, count - 1), v + count - 1, f + count - 1)
  }

  /** The state after `mm_alloc` of `count` pages at page `v` when `v` is not marked: all are mapped, one page and
      one frame are marked. */
  function Allocated(m: Mem, v: nat, count: nat): (m': Mem)
    requires m.Sized() && v + count <= 1048576 && count >= 1 && Free(m.page) > 0
    ensures m'.Sized()
  {
    var f := FirstFrame(m.page);
    var n := MappedRun(m, v, f, count);
    n.(page := SetAt(n.page, f), vm := SetAt(n.vm, v))
  }

  /** The state after `mm_free` of page `v`. */
  function Released(m: Mem, v: nat): (m': Mem)
    requires m.Sized() && v < 1048576 && FrameOf(m.table[v]) < 1048576
    ensures m'.Sized()
  {
    m.(table := m.table[v := 0], page := ClearAt(m.page, FrameOf(m.table[v])), vm := ClearAt(m.vm, v))
  }

  // ----- who owns what -----

  /** The frame that page `v` translates to. */
  function Frame(m: Mem, v: nat): (f: nat) requires m.Sized() && v < 1048576 { FrameOf(m.table[v]) }

  /** Frame `f`, not a low one, is marked and serves page `v`, which is marked, mapped to `f` and present. */
  ghost predicate Serves(m: Mem, f: nat, v: nat)
    requires m.Sized()
  {
    LOW_FRAMES <= f < 1048576 && BitAt(m.page, f) && v < 1048576 && BitAt(m.vm, v) && MapsTo(m, v, f)
  }

  /** `owner` says which page each frame in use serves. As a map from frames it gives no frame two pages, and as
      the page table has one entry a page it gives no page two frames. The low frames are marked. */
  ghost predicate Owns(m: Mem, owner: map<nat, nat>) {
    m.Sized() && (forall f :: f in owner ==> Serves(m, f, owner[f])) &&
    (forall x :: 0 <= x < LOW_FRAMES ==> BitAt(m.page, x))
  }

  /** Page `v` is served by the frame it translates to. */
  ghost predicate Owned(m: Mem, owner: map<nat, nat>, v: nat)
    requires m.Sized()
  {
    v < 1048576 && Frame(m, v) in owner && owner[Frame(m, v)] == v
  }

  /** One page mapped to the lowest free frame. */
  lemma {:induction false} AllocateOne(m: Mem, v: nat)
    requires m.Sized() && v < 1048576 && Free(m.page) > 0
    ensures var f, m' := FirstFrame(m.page), Allocated(m, v, 1);
      m'.page == SetAt(m.page, f) && m'.vm == SetAt(m.vm, v) && m'.table == m.table[v := EntryOf(f)] &&
      m'.dir == m.dir[v / 1024 := Enable(m.dir[v / 1024])]
  {
    assert MappedRun(m, v, FirstFrame(m.page), 0) == m;
  }

  /** What mapping a page writes: its entry, present, with the frame's address; the two low bits of its directory entry;
      and nothing else. */
  lemma {:induction false} MapWrites(m: Mem, v: nat, f: nat, w: nat, x: nat)
    requires m.Sized() && v < 1048576 && w < 1048576 && x < 1024
    ensures var m' := Mapped(m, v, f);
      m'.page == m.page && m'.vm == m.vm &&
      (if w == v then m'.table[w] % 4096 == 0xFFF && m'.table[w] / 4096 == f else m'.table[w] == m.table[w]) &&
      (if x == v / 1024 then m'.dir[x] % 4 == 3 && m'.dir[x] / 4 == m.dir[x] / 4 else m'.dir[x] == m.dir[x])
  {
  }

  /** What `mm_alloc` of `count` pages writes: frames in a row from the lowest free one on, all present; the two low
      bits of the directory entries above them; no other entry; and the mark of one frame and of one page. */
  lemma {:induction false} AllocateWrites(m: Mem, v: nat, count: nat, w: nat, x: nat)
    requires m.Sized() && v + count <= 1048576 && count >= 1 && Free(m.page) > 0 && w < 1048576 && x < 1024
    ensures var f, m' := FirstFrame(m.page), Allocated(m, v, count);
      (if v <= w < v + count then m'.table[w] % 4096 == 0xFFF && m'.table[w] / 4096 == f + (w - v)
       else m'.table[w] == m.table[w]) &&
      (if v / 1024 <= x <= (v + count - 1) / 1024 then m'.dir[x] % 4 == 3 && m'.dir[x] / 4 == m.dir[x] / 4
       else m'.dir[x] == m.dir[x]) &&
      BitAt(m'.page, w) == (BitAt(m.page, w) || w == f) && BitAt(m'.vm, w) == (BitAt(m.vm, w) || w == v)
  {
    MappedRunAt(m, v, FirstFrame(m.page), count, w);
    MappedRunDir(m, v, FirstFrame(m.page), count, x);
  }

  lemma {:induction false} MappedRunDir(m: Mem, v: nat, f: nat, count: nat, x: nat)
    requires m.Sized() && v + count <= 1048576 && x < 1024
    ensures var m' := MappedRun(m, v, f, count);
      if count > 0 && v / 1024 <= x <= (v + count - 1) / 1024 then m'.dir[x] % 4 == 3 && m'.dir[x] / 4 == m.dir[x] / 4
      else m'.dir[x] == m.dir[x]
    decreases count
  {
    if count > 0 {
      MappedRunDir(m, v, f, count - 1, x);
    }
  }

  /** Freeing a page makes its entry zero, so not present, clears its bit and its frame's, and touches nothing else. */
  lemma {:induction false} ReleaseWrites(m: Mem, v: nat, w: nat)
    requires m.Sized() && v < 1048576 && m.table[v] / 4096 < 1048576 && w < 1048576
    ensures var m', f := Released(m, v), m.table[v] / 4096;
      m'.dir == m.dir && (if w == v then m'.table[w] == 0 else m'.table[w] == m.table[w]) &&
      BitAt(m'.page, w) == (BitAt(m.page, w) && w != f) && BitAt(m'.vm, w) == (BitAt(m.vm, w) && w != v)
  {
  }

  /** Allocation serves one page more, with a frame that served none; the others keep theirs. */
  lemma {:induction false} AllocateOwns(m: Mem, owner: map<nat, nat>, v: nat)
    requires Owns(m, owner) && v < 1048576 && !BitAt(m.vm, v) && Free(m.page) > 0
    ensures var f, m' := FirstFrame(m.page), Allocated(m, v, 1);
      f !in owner && Owns(m', owner[f := v]) && Owned(m', owner[f := v], v) && Free(m'.page) == Free(m.page) - 1 &&
      m'.table[v] % 4096 == 0xFFF && m'.table[v] / 4096 == f && m'.dir[v / 1024] % 4 == 3 &&
      forall w :: Owned(m, owner, w) ==> Owned(m', owner[f := v], w)
  {
    var f, m' := FirstFrame(m.page), Allocated(m, v, 1);
    AllocateOne(m, v);
    FreeSet(m.page, f);
    assert LOW_FRAMES <= f;
    forall g | g in owner ensures Serves(m', g, owner[g]) && g != f && owner[g] != v {
      assert Serves(m, g, owner[g]);
    }
    forall w | Owned(m, owner, w) ensures Owned(m', owner[f := v], w) {
      assert Serves(m, Frame(m, w), w);
    }
  }

  /** Release of an owned page takes exactly its frame out of use; the others keep theirs. */
  lemma {:induction false} ReleaseOwns(m: Mem, owner: map<nat, nat>, v: nat)
    requires Owns(m, owner) && Owned(m, owner, v)
    ensures Frame(m, v) < 1048576
    ensures var m', o := Released(m, v), owner - {Frame(m, v)};
      Owns(m', o) && Free(m'.page) == Free(m.page) + 1 && forall w :: Owned(m, owner, w) && w != v ==> Owned(m', o, w)
  {
    var f := Frame(m, v);
    assert Serves(m, f, v);
    var m' := Released(m, v);
    FreeClear(m.page, f);
    forall g | g in owner && g != f ensures Serves(m', g, owner[g]) {
      assert Serves(m, g, owner[g]);
    }
  }

  /** Allocating a page and freeing it restores both bitmaps exactly. */
  lemma {:induction false} AllocateThenRelease(m: Mem, v: nat)
    requires m.Sized() && v < 1048576 && !BitAt(m.vm, v) && Free(m.page) > 0
    ensures var m' := Allocated(m, v, 1);
      FrameOf(m'.table[v]) < 1048576 && Released(m', v).page == m.page && Released(m', v).vm == m.vm
  {
    var f, m' := FirstFrame(m.page), Allocated(m, v, 1);
    AllocateOne(m, v);
    SameBitmap(Released(m', v).page, m.page);
    SameBitmap(Released(m', v).vm, m.vm);
  }

  // ----- runs -----

  datatype PageOp = Alloc(v: nat) | Release(v: nat)

  datatype Owner = Owner(m: Mem, owner: map<nat, nat>)

  /** Allocation needs a free frame unless the page is marked already; only owned pages are released. */
  ghost predicate Enabled(o: Owner, op: PageOp)
    requires Owns(o.m, o.owner)
  {
    match op
    case Alloc(v) => v < 1048576 && (!BitAt(o.m.vm, v) ==> Free(o.m.page) > 0)
    case Release(v) => Owned(o.m, o.owner, v)
  }

  ghost function Next(o: Owner, op: PageOp): (o': Owner)
    requires Owns(o.m, o.owner) && Enabled(o, op)
    ensures Owns(o'.m, o'.owner) && Free(o'.m.page) + |o'.owner| == Free(o.m.page) + |o.owner|
  {
    match op
    case Alloc(v) =>
      if BitAt(o.m.vm, v) then o
      else AllocateOwns(o.m, o.owner, v); Owner(Allocated(o.m, v, 1), o.owner[FirstFrame(o.m.page) := v])
    case Release(v) =>
      ReleaseOwns(o.m, o.owner, v);
      var f := Frame(o.m, v);
      assert |o.owner| == |o.owner - {f}| + 1 by { assert (o.owner - {f}).Keys == o.owner.Keys - {f}; }
      Owner(Released(o.m, v), o.owner - {f})
  }

  ghost predicate Runs(o: Owner, ops: seq<PageOp>)
    requires Owns(o.m, o.owner)
    decreases |ops|
  {
    ops == [] || (Enabled(o, ops[0]) && Runs(Next(o, ops[0]), ops[1..]))
  }

  ghost function After(o: Owner, ops: seq<PageOp>): (o': Owner)
    requires Owns(o.m, o.owner) && Runs(o, ops)
    decreases |ops|
  {
    if ops == [] then o else After(Next(o, ops[0]), ops[1..])
  }

  /** Over any interleaving of single-page allocations and releases: free frames and frames in use together stay
      constant, an owned page is marked and translates to a marked frame at or above 64 MiB, and two owned pages
      never translate to the same frame. */
  lemma {:induction false} RunsKeepFramesApart(o: Owner, ops: seq<PageOp>, v: nat, w: nat)
    requires Owns(o.m, o.owner) && Runs(o, ops)
    ensures var o' := After(o, ops);
      Owns(o'.m, o'.owner) && Free(o'.m.page) + |o'.owner| == Free(o.m.page) + |o.owner| &&
      (Owned(o'.m, o'.owner, v) ==>
        BitAt(o'.m.vm, v) && o'.m.table[v] % 4096 == 0xFFF && o'.m.dir[v / 1024] % 4 == 3 &&
        16384 <= o'.m.table[v] / 4096 < 1048576 && BitAt(o'.m.page, o'.m.table[v] / 4096)) &&
      (Owned(o'.m, o'.owner, v) && Owned(o'.m, o'.owner, w) && v != w ==>
        o'.m.table[v] / 4096 != o'.m.table[w] / 4096)
    decreases |ops|
  {
    if ops != [] {
      RunsKeepFramesApart(Next(o, ops[0]), ops[1..], v, w);
    } else if Owned(o.m, o.owner, v) {
      assert Serves(o.m, Frame(o.m, v), v);
    }
  }

  // ----- requests of more than one page -----

  lemma {:induction false} MappedRunAt(m: Mem, v: nat, f: nat, count: nat, w: nat)
    requires m.Sized() && v + count <= 1048576 && w < 1048576
    ensures MappedRun(m, v, f, count).table[w] == if v <= w < v + count then EntryOf(f + (w - v)) else m.table[w]
    decreases count
  {
    if count > 0 {
      MappedRunAt(m, v, f, count - 1, w);
    }
  }

  /** The lowest free frame after the lowest one is taken. */
  lemma {:induction false} NextFrame(page: seq<byte>)
    requires Free(page) > 1 && FirstFrame(page) + 1 < 8 * |page|
    ensures var f, next := FirstFrame(page), SetAt(page, FirstFrame(page));
      |next| == |page| && Free(next) > 0 && (FirstFrame(next) == f + 1 <==> !BitAt(page, f + 1))
  {
    var f, next := FirstFrame(page), SetAt(page, FirstFrame(page));
    FreeSet(page, f);
    var g := FirstFrame(next);
    if g < f { FirstFrameIsLowest(page, g); }
    if f + 1 < g { FirstFrameIsLowest(next, f + 1); }
  }

  /** A request of several pages maps them to frames in a row but reserves only the first frame: the next page
      allocated shares a frame with the request's second page exactly when that second frame was free. */
  lemma {:induction false} SecondFrameShared(m: Mem, v: nat, count: nat, w: nat)
    requires m.Sized() && v + count <= 1048576 && count >= 2 && Free(m.page) > 1 && w < 1048576
    requires !(v <= w < v + count) && FirstFrame(m.page) + 1 < 1048576
    ensures var m1 := Allocated(m, v, count);
      Free(m1.page) > 0 &&
      (Allocated(m1, w, 1).table[w] == Allocated(m1, w, 1).table[v + 1] <==> !BitAt(m.page, FirstFrame(m.page) + 1))
  {
    var f, m1 := FirstFrame(m.page), Allocated(m, v, count);
    NextFrame(m.page);
    MappedRunAt(m, v, f, count, v + 1);
    assert m1.page == SetAt(m.page, f) && m1.table[v + 1] == EntryOf(f + 1);
    AllocateOne(m1, w);
  }

  // ----- the routines -----

  /** `ALLOC_PAGE` and `VM_ALLOC_PAGE`. */
  method Mark(bm: array<byte>, x: nat)
    requires x < 8 * bm.Length
    modifies bm
    ensures bm[..] == SetAt(old(bm[..]), x)
  {
    bm[x / 8] := SetInByte(bm[x / 8], x % 8);
  }

  class Manager {
    const page: array<byte>
    const vm: array<byte>
    const table: array<nat>
    const dir: array<nat>
    var available: nat

    /** Cleared tables, as the kernel image has them. */
    constructor ()
      ensures Valid() && fresh(page) && fresh(vm) && fresh(table) && fresh(dir)
    {
      page := new byte[131072](_ => 0);
      vm := new byte[131072](_ => 0);
      table := new nat[1048576](_ => 0);
      dir := new nat[1024](_ => 0);
    }

    ghost predicate Valid()
      reads this, page, vm, table, dir
    {
      page != vm && table != dir && State().Sized()
    }

    ghost function State(): (m: Mem)
      reads this, page, vm, table, dir
    {
      Mem(page[..], vm[..], table[..], dir[..])
    }

    /** `mm_find_empty_block_physical`; the byte scan has no bound, so a free frame must exist. */
    method FindEmptyBlock() returns (frame: nat)
      requires Valid() && Free(page[..]) > 0
      ensures frame == FirstFrame(page[..])
    {
      FrameScanIsExact(page[..]);
      var block := 0;
      while page[block] == 255
        invariant 0 <= block <= OpenByte(page[..], 0) < page.Length
        invariant OpenByte(page[..], 0) == OpenByte(page[..], block)
        decreases page.Length - block
      {
        block := block + 1;
      }
      var i := ScanByte(page[block]);
      frame := block * 8 + i;
    }

    /** `arch_paging_map` for page `v`. */
    method Map(v: nat, frame: nat)
      requires Valid() && v < 1048576
      modifies table, dir
      ensures Valid() && State() == Mapped(old(State()), v, frame)
      ensures table[v] % 4096 == 0xFFF && table[v] / 4096 == frame
      ensures dir[v / 1024] % 4 == 3 && dir[v / 1024] / 4 == old(dir[v / 1024]) / 4
    {
      dir[v / 1024] := Enable(dir[v / 1024]);
      table[v] := EntryOf(frame);
    }

    /** `mm_alloc` with an address in page `v` and a size of `size` bytes. */
    method Alloc(v: nat, size: nat) returns (ret: Ret)
      requires Valid() && v < 1048576 && v + size / 4096 <= 1048576
      requires !BitAt(vm[..], v) ==> Free(page[..]) > 0
      modifies page, vm, table, dir
      ensures Valid()
      ensures BitAt(old(vm[..]), v) ==> ret == MemAllocError && State() == old(State())
      ensures !BitAt(old(vm[..]), v) ==>
        ret == NoError && State() == Allocated(old(State()), v, if size / 4096 == 0 then 1 else size / 4096)
    {
      ghost var m := State();
      var blocks := if size / 4096 == 0 then 1 else size / 4096;
      if Bit(vm[v / 8], v % 8) {
        return MemAllocError;
      }
      var j := FindEmptyBlock();
      MapRun(v, j, blocks);
      Mark(page, j);
      Mark(vm, v);
      ret := NoError;
    }

    /** The mapping loop of `mm_alloc`. */
    method MapRun(v: nat, frame: nat, count: nat)
      requires Valid() && v + count <= 1048576
      modifies table, dir
      ensures Valid() && State() == MappedRun(old(State()), v, frame, count)
    {
      for k := 0 to count
        invariant Valid() && State() == MappedRun(old(State()), v, frame, k)
      {
        Map(v + k, frame + k);
      }
    }

    /** `mm_free` of an address in page `v`. */
    method Release(v: nat)
      requires Valid() && v < 1048576 && FrameOf(table[v]) < 1048576
      modifies page, vm, table
      ensures Valid() && State() == Released(old(State()), v)
    {
      var frame := FrameOf(table[v]);
      table[v] := 0;
      page[frame / 8] := ClearInByte(page[frame / 8], frame % 8);
      vm[v / 8] := ClearInByte(vm[v / 8], v % 8);
    }

    /** The tail of `mm_init`: low frames and kernel pages are reserved, and the free frames counted. */
    method Reserve()
      requires Valid()
      modifies this`available, page, vm
      ensures Valid() && available == Free(page[..]) && Owns(State(), map[])
      ensures forall x :: 0 <= x < 1048576 ==> BitAt(page[..], x) == (x < 16384 || BitAt(old(page[..]), x))
      ensures forall v :: 0 <= v < 1048576 ==> BitAt(vm[..], v) == (786432 <= v < 819200 || BitAt(old(vm[..]), v))
    {
      FillBytes(page, 0, 4 * 4096 / 8);
      FillBytes(vm, 98304, 102400);
      FilledBits(old(page[..]), page[..], 0, 2048);
      FilledBits(old(vm[..]), vm[..], 98304, 102400);
      available := CountFree(page);
    }
  }

  /** Sets bytes `[lo, hi)` to 0xFF. */
  method FillBytes(a: array<byte>, lo: nat, hi: nat)
    requires lo <= hi <= a.Length
    modifies a
    ensures forall i :: 0 <= i < a.Length ==> a[i] == if lo <= i < hi then 255 else old(a[i])
  {
    for i := lo to hi
      invariant forall k :: 0 <= k < a.Length ==> a[k] == if lo <= k < i then 255 else old(a[k])
    {
      a[i] := 255;
    }
  }

  lemma {:induction false} FilledBits(a: seq<byte>, b: seq<byte>, lo: nat, hi: nat)
    requires |a| == |b| && lo <= hi <= |a| && forall i :: 0 <= i < |a| ==> b[i] == if lo <= i < hi then 255 else a[i]
    ensures forall x {:trigger BitAt(b, x)} :: 0 <= x < 8 * |b| ==> BitAt(b, x) == (8 * lo <= x < 8 * hi || BitAt(a, x))
  {
    forall x | 0 <= x < 8 * |b| ensures BitAt(b, x) == (8 * lo <= x < 8 * hi || BitAt(a, x)) {
      FullByte(b[x / 8]);
    }
  }

  /** The counting loop of `mm_init`: whole bytes where it can, bit by bit where it must. */
  method CountFree(a: array<byte>) returns (free: nat)
    ensures free == Free(a[..])
  {
    free := 0;
    for i := 0 to a.Length
      invariant free == Zeros(a[..], 8 * i)
    {
      var n := CountByte(a[i]);
      ByteZeros(a[..], i, n);
      free := free + n;
    }
  }

  /** Zero bits of a byte below `n`. */
  function ByteFree(b: byte, n: nat): (c: nat)
    requires n <= 8
    decreases n
  {
    if n == 0 then 0 else ByteFree(b, n - 1) + (if Bit(b, n - 1) then 0 else 1)
  }

  method CountByte(b: byte) returns (n: nat)
    ensures n == ByteFree(b, 8)
  {
    FullByte(b);
    if b == 0 {
      n := 8;
    } else if b == 255 {
      n := 0;
    } else {
      n := 0;
      for j := 0 to 8
        invariant n == ByteFree(b, j)
      {
        if !Bit(b, j) {
          n := n + 1;
        }
      }
    }
  }

  lemma {:induction false} ByteZeros(bm: seq<byte>, i: nat, n: nat)
    requires i < |bm| && n == ByteFree(bm[i], 8)
    ensures Zeros(bm, 8 * (i + 1)) == Zeros(bm, 8 * i) + n
  {
    ByteZerosUpTo(bm, i, 8);
  }

  lemma {:induction false} ByteZerosUpTo(bm: seq<byte>, i: nat, k: nat)
    requires i < |bm| && k <= 8
    ensures Zeros(bm, 8 * i + k) == Zeros(bm, 8 * i) + ByteFree(bm[i], k)
    decreases k
  {
    if k > 0 {
      ByteZerosUpTo(bm, i, k - 1);
      assert (8 * i + (k - 1)) / 8 == i && (8 * i + (k - 1)) % 8 == k - 1;
    }
  }
}
