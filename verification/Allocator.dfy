/** `buddy_allocator__alloc`: the buddy tree, its node arena, and the pages behind every granted block. */
module Allocator {
  import opened Bits
  import opened BuddyTree
  import opened Buddy
  import opened Memory
  import opened Status

  // ----- mapping a block page by page -----

  /** Pages `[v, v + n)` are unmarked and there are frames for them. */
  ghost predicate Mappable(m: Mem, v: nat, n: nat) {
    m.Sized() && v + n <= 1048576 && n <= Free(m.page) && forall w :: v <= w < v + n ==> !BitAt(m.vm, w)
  }

  /** One page, if `mm_alloc` can serve it. */
  ghost function OnePage(m: Mem, v: nat): (m': Mem) {
    if m.Sized() && v < 1048576 && !BitAt(m.vm, v) && Free(m.page) > 0 then Memory.Allocated(m, v, 1) else m
  }

  /** The memory after `i` rounds of the mapping loop of `buddy_allocator__alloc` from page `v`. */
  ghost function Rounds(m: Mem, v: nat, i: nat): (m': Mem)
    decreases i, m
  {
    if i == 0 then m else OnePage(Rounds(m, v, i - 1), v + i - 1)
  }

  /** What `i` rounds from page `v` have done to the marks and the free frames. */
  ghost predicate RoundsDone(m: Mem, m': Mem, v: nat, i: nat)
    requires m.Sized()
  {
    m'.Sized() && Free(m'.page) == Free(m.page) - i &&
    forall w :: 0 <= w < 1048576 ==> BitAt(m'.vm, w) == (BitAt(m.vm, w) || v <= w < v + i)
  }

  /** Before round `i` its page is unmarked and a frame is left; after it one page more is marked. */
  lemma {:induction false} OneRound(m: Mem, m1: Mem, v: nat, n: nat, i: nat)
    requires Mappable(m, v, n) && i < n && RoundsDone(m, m1, v, i)
    ensures !BitAt(m1.vm, v + i) && Free(m1.page) > 0 && RoundsDone(m, Memory.Allocated(m1, v + i, 1), v, i + 1)
  {
    assert !BitAt(m.vm, v + i);
    AllocateOne(m1, v + i);
    FreeSet(m1.page, FirstFrame(m1.page));
  }

  /** Every page that was owned, and every page mapped so far, has a frame of its own. */
  ghost predicate OwnedAfter(m: Mem, owner: map<nat, nat>, m': Mem, o: map<nat, nat>, v: nat, i: nat)
    requires m.Sized()
  {
    Owns(m', o) && (forall w :: Owned(m, owner, w) ==> Owned(m', o, w)) &&
    (forall w :: v <= w < v + i ==> Owned(m', o, w))
  }

  lemma {:induction false} RoundOwns(m: Mem, owner: map<nat, nat>, v: nat, i: nat, m1: Mem, o1: map<nat, nat>)
    requires m.Sized() && OwnedAfter(m, owner, m1, o1, v, i) && v + i < 1048576 && !BitAt(m1.vm, v + i) &&
      Free(m1.page) > 0
    ensures OwnedAfter(m, owner, Memory.Allocated(m1, v + i, 1), o1[FirstFrame(m1.page) := v + i], v, i + 1)
  {
    var m', o := Memory.Allocated(m1, v + i, 1), o1[FirstFrame(m1.page) := v + i];
    AllocateOwns(m1, o1, v + i);
    forall w: nat | Owned(m, owner, w) ensures Owned(m', o, w) {
      assert Owned(m1, o1, w);
    }
    forall w: nat | v <= w < v + (i + 1) ensures Owned(m', o, w) {
      assert w < v + i ==> Owned(m1, o1, w);
    }
  }

  /** The same rounds with the frames they take: each page mapped has a frame of its own, and pages owned before
      keep theirs. */
  ghost function RoundsOwned(m: Mem, owner: map<nat, nat>, v: nat, n: nat, i: nat): (r: Owner)
    requires Mappable(m, v, n) && Owns(m, owner) && i <= n
    ensures r.m == Rounds(m, v, i) && RoundsDone(m, r.m, v, i) && OwnedAfter(m, owner, r.m, r.owner, v, i)
    decreases i, owner
  {
    if i == 0 then Owner(m, owner)
    else
      var r := RoundsOwned(m, owner, v, n, i - 1);
      OneRound(m, r.m, v, n, i - 1);
      RoundOwns(m, owner, v, i - 1, r.m, r.owner);
      Owner(Memory.Allocated(r.m, v + i - 1, 1), r.owner[FirstFrame(r.m.page) := v + i - 1])
  }

  // ----- tree and pages together -----

  /** User pages are those of `[0x10000000, 0x90000000)`. */
  predicate UserPage(v: nat) { 0x1_0000 <= v < 0x9_0000 }

  /** The tree, the memory, and which frame serves which page. */
  datatype System = System(tree: Tree, m: Mem, owner: map<nat, nat>)

  /** Page `v` is marked exactly when its leaf is taken, and then it is owned. */
  ghost predicate PageAgrees(s: System, v: nat)
    requires s.m.Sized() && v < 1048576
  {
    (BitAt(s.m.vm, v) <==> LeafAt(s.tree, 4096 * v).taken) && (BitAt(s.m.vm, v) ==> Owned(s.m, s.owner, v))
  }

  ghost predicate Ok(s: System) {
    Root(s.tree) && Owns(s.m, s.owner) && forall v :: UserPage(v) ==> PageAgrees(s, v)
  }

  /** The block that a request gets, in pages. */
  ghost predicate Served(s: System, len: nat) { Root(s.tree) && Find(s.tree, len, 31).Found? }

  ghost function FirstPage(s: System, len: nat): (v: nat) requires Served(s, len) { Find(s.tree, len, 31).start / 4096 }
  ghost function PageCount(s: System, len: nat): (n: nat) requires Served(s, len) { Find(s.tree, len, 31).len / 4096 }

  /** Multiples of larger powers of two are multiples of the page size. */
  lemma {:induction false} AlignedPages(d: nat, k: nat)
    requires k >= 12 && Aligned(d, k)
    ensures Aligned(d, 12)
    decreases k
  {
    if k > 12 {
      HalfAligned(d, k);
      AlignedPages(d, k - 1);
    }
  }

  lemma {:induction false} PowAligned(k: nat)
    ensures Aligned(Pow2(k), k)
  {
    assert Times(1, k) == Pow2(k);
  }

  lemma {:induction false} AlignedSum(a: nat, b: nat)
    requires Aligned(a, 12) && Aligned(b, 12)
    ensures Aligned(a + b, 12)
  {
    var p: nat :| a == Times(p, 12);
    var q: nat :| b == Times(q, 12);
    assert Times(p + q, 12) == a + b;
  }

  /** Leaves start and end at page boundaries. */
  lemma {:induction false} LeafPages(t: Tree, k: nat, a: nat)
    requires Wf(t, k) && Aligned(t.start, 12)
    ensures Aligned(LeafAt(t, a).start, 12) && Aligned(LeafAt(t, a).len, 12)
    decreases t
  {
    if t.Leaf? {
      PowAligned(k);
      AlignedPages(t.len, k);
    } else {
      PowAligned(k - 1);
      AlignedPages(Pow2(k - 1), k - 1);
      AlignedSum(t.start, Pow2(k - 1));
      LeafPages(if a < t.right.start then t.left else t.right, k - 1, a);
    }
  }

  lemma {:induction false} WholePages(d: nat)
    requires Aligned(d, 12)
    ensures d == 4096 * (d / 4096)
  {
    var q: nat :| d == Times(q, 12);
    assert Pow2(12) == 4096;
  }

  /** The granted block is whole pages of the user range. */
  lemma {:induction false} BlockPages(s: System, len: nat)
    requires Served(s, len)
    ensures var r, v, n := Find(s.tree, len, 31), FirstPage(s, len), PageCount(s, len);
      r.start == 4096 * v && r.len == 4096 * n && 0x1_0000 <= v && v + n <= 0x9_0000
  {
    var r := Find(s.tree, len, 31);
    FindKeepsTaken(s.tree, len, 31, 0);
    assert Times(0x1_0000, 12) == BASE;
    LeafPages(r.tree, 31, r.start);
    WholePages(r.start);
    WholePages(r.len);
    PowTops();
  }

  /** Whether page `v` is in the granted block, by page or by address. */
  lemma {:induction false} BlockHolds(s: System, len: nat, v: nat)
    requires Served(s, len) && UserPage(v)
    ensures var r, p, n := Find(s.tree, len, 31), FirstPage(s, len), PageCount(s, len);
      (p <= v < p + n <==> r.start <= 4096 * v < r.start + r.len) &&
      LeafAt(Granted(s.tree, len), 4096 * v).taken == (LeafAt(s.tree, 4096 * v).taken || p <= v < p + n) &&
      (p <= v < p + n ==> !LeafAt(s.tree, 4096 * v).taken)
  {
    BlockPages(s, len);
    GrantTakesBlock(s.tree, len, 4096 * v);
  }

  /** In a consistent system the pages of the block are unmarked, so only frames can be missing. */
  lemma {:induction false} BlockMappable(s: System, len: nat)
    requires Ok(s) && Served(s, len) && PageCount(s, len) <= Free(s.m.page)
    ensures Mappable(s.m, FirstPage(s, len), PageCount(s, len))
  {
    var p, n := FirstPage(s, len), PageCount(s, len);
    BlockPages(s, len);
    forall w | p <= w < p + n ensures !BitAt(s.m.vm, w) {
      BlockHolds(s, len, w);
      assert PageAgrees(s, w);
    }
  }

  /** Requests that the frames suffice for. */
  ghost predicate HasFrames(s: System, len: nat)
    requires Ok(s)
  {
    Served(s, len) ==> PageCount(s, len) <= Free(s.m.page)
  }

  /** One allocation: nothing changes if the search fails; otherwise the leaf is taken and its pages are mapped. */
  ghost function Step(s: System, len: nat): (s': System)
    requires Ok(s) && HasFrames(s, len)
  {
    if !Served(s, len) then s
    else
      BlockMappable(s, len);
      var p, n := FirstPage(s, len), PageCount(s, len);
      var r := RoundsOwned(s.m, s.owner, p, n, n);
      System(Granted(s.tree, len), r.m, r.owner)
  }

  /** Tree, bitmaps and page table stay in agreement, and the frames used are the pages of the block. */
  lemma {:induction false} StepOk(s: System, len: nat)
    requires Ok(s) && HasFrames(s, len)
    ensures Ok(Step(s, len))
    ensures Free(Step(s, len).m.page) == Free(s.m.page) - (if Served(s, len) then PageCount(s, len) else 0)
  {
    if Served(s, len) {
      var p, n, s' := FirstPage(s, len), PageCount(s, len), Step(s, len);
      BlockMappable(s, len);
      forall v | UserPage(v) ensures PageAgrees(s', v) {
        assert PageAgrees(s, v);
        BlockHolds(s, len, v);
      }
    }
  }

  ghost predicate CanRun(s: System, lens: seq<nat>)
    requires Ok(s)
    decreases |lens|
  {
    lens == [] || (HasFrames(s, lens[0]) && (StepOk(s, lens[0]); CanRun(Step(s, lens[0]), lens[1..])))
  }

  ghost function Ran(s: System, lens: seq<nat>): (s': System)
    requires Ok(s) && CanRun(s, lens)
    decreases |lens|
  {
    if lens == [] then s else StepOk(s, lens[0]); Ran(Step(s, lens[0]), lens[1..])
  }

  /** Over any run of allocations: a user page is marked exactly when it lies in an allocated leaf; then it
      is present and writable, and translates to a marked frame at or above 64 MiB that no other such page translates
      to. */
  lemma {:induction false} RunsKeepOwnership(s: System, lens: seq<nat>, v: nat, w: nat)
    requires Ok(s) && CanRun(s, lens) && UserPage(v) && UserPage(w)
    ensures var s' := Ran(s, lens);
      Ok(s') && (BitAt(s'.m.vm, v) <==> LeafAt(s'.tree, 4096 * v).taken) &&
      (BitAt(s'.m.vm, v) ==>
        s'.m.table[v] % 4096 == 0xFFF && s'.m.dir[v / 1024] % 4 == 3 &&
        16384 <= s'.m.table[v] / 4096 < 1048576 && BitAt(s'.m.page, s'.m.table[v] / 4096)) &&
      (BitAt(s'.m.vm, v) && BitAt(s'.m.vm, w) && v != w ==> s'.m.table[v] / 4096 != s'.m.table[w] / 4096)
    decreases |lens|
  {
    if lens != [] {
      StepOk(s, lens[0]);
      RunsKeepOwnership(Step(s, lens[0]), lens[1..], v, w);
    } else {
      assert PageAgrees(s, v) && PageAgrees(s, w);
      if BitAt(s.m.vm, v) {
        assert Serves(s.m, Frame(s.m, v), v);
      }
    }
  }

  // ----- the routine -----

  /** Node `x` is as before, but for its allocation flag. */
  twostate predicate SameNode(x: Node)
    reads x
  {
    x.left == old(x.left) && x.right == old(x.right) && x.vaddr == old(x.vaddr) && x.len == old(x.len) &&
    x.isLeft == old(x.isLeft) && x.isRight == old(x.isRight) && x.Repr == old(x.Repr)
  }

  twostate lemma {:induction false} SameModel(n: Node)
    requires old(n.Valid())
    requires forall x :: x in old(n.Repr) ==> SameNode(x) && x.isAllocated == old(x.isAllocated)
    ensures n.Valid() && n.Model() == old(n.Model())
    decreases old(n.Repr)
  {
    if old(n.left) != null {
      SameModel(old(n.left));
      SameModel(old(n.right));
    }
  }

  /** Marking the leaf at address `p.1` below node `p.0` is taking it in the model. */
  twostate lemma {:induction false} MarkedModel(p: (Node, nat))
    requires old(p.0.Valid())
    requires forall x :: x in old(p.0.Repr) ==>
      SameNode(x) && x.isAllocated == (x == old(p.0.NodeAt(p.1)) || old(x.isAllocated))
    ensures p.0.Valid() && p.0.Model() == Take(old(p.0.Model()), p.1)
    decreases old(p.0.Repr)
  {
    var n, a := p.0, p.1;
    if old(n.left) != null {
      var inLeft := a < old(n.right.vaddr);
      MarkedModel((if inLeft then old(n.left) else old(n.right), a));
      SameModel(if inLeft then old(n.right) else old(n.left));
    }
  }

  /** Round `k` finds its page unmarked and a frame left. */
  ghost predicate Ready(m: Mem, v: nat, k: nat) {
    var m1 := Rounds(m, v, k);
    m1.Sized() && v + k < 1048576 && !BitAt(m1.vm, v + k) && Free(m1.page) > 0
  }

  ghost predicate AllReady(m: Mem, v: nat, n: nat) { forall k :: 0 <= k < n ==> Ready(m, v, k) }

  lemma {:induction false} RoundsReady(m: Mem, owner: map<nat, nat>, v: nat, n: nat)
    requires Mappable(m, v, n) && Owns(m, owner)
    ensures AllReady(m, v, n)
  {
    forall k | 0 <= k < n ensures Ready(m, v, k) {
      var r := RoundsOwned(m, owner, v, n, k);
      OneRound(m, r.m, v, n, k);
    }
  }

  /** What a granted request does, piece by piece. */
  lemma {:induction false} StepParts(s: System, len: nat)
    requires Ok(s) && Served(s, len) && HasFrames(s, len)
    ensures var r, p, n, s' := Find(s.tree, len, 31), FirstPage(s, len), PageCount(s, len), Step(s, len);
      r.start == 4096 * p && r.len == 4096 * n && AllReady(s.m, p, n) &&
      s'.m == Rounds(s.m, p, n) && s'.tree == Take(r.tree, r.start)
  {
    BlockPages(s, len);
    BlockMappable(s, len);
    RoundsReady(s.m, s.owner, FirstPage(s, len), PageCount(s, len));
  }

  lemma StepTree(s: System, len: nat)
    requires Ok(s) && Served(s, len) && HasFrames(s, len)
    ensures var r := Find(s.tree, len, 31); Step(s, len).tree == Take(r.tree, r.start)
  {
  }

  /** Marking the node found. */
  method MarkNode(root: Node, node: Node)
    requires root.Valid() && root.NodeAt(node.vaddr) == node && !node.isAllocated
    modifies node
    ensures root.Valid() && root.Model() == Take(old(root.Model()), old(node.vaddr)) && root.Repr == old(root.Repr)
  {
    node.isAllocated := true;
    MarkedModel((root, node.vaddr));
  }

  /** Round `k` finds its page marked already. */
  ghost predicate Stuck(m: Mem, v: nat, k: nat) {
    var m1 := Rounds(m, v, k);
    m1.Sized() && v + k < 1048576 && BitAt(m1.vm, v + k)
  }

  /** The call of `mm_alloc` in the mapping loop: a page mapped, or an error and nothing changed. */
  method TryOne(mm: Manager, i: nat, ghost m: Mem, ghost v: nat, ghost n: nat, ghost k: nat) returns (ret: Ret)
    requires mm.Valid() && i == 4096 * (v + k) && mm.State() == Rounds(m, v, k) && AllReady(m, v, n) && k <= n
    requires k == n ==> Stuck(m, v, k)
    modifies mm.page, mm.vm, mm.table, mm.dir
    ensures mm.Valid() && ret == (if k < n then NoError else MemAllocError)
    ensures mm.State() == Rounds(m, v, if k < n then k + 1 else k)
  {
    ghost var m1 := mm.State();
    assert i / 4096 == v + k;
    if k < n {
      assert Ready(m, v, k);
      RoundStep(m, v, k, m1);
    }
    ret := TryPage(mm, i / 4096);
  }

  lemma RoundStep(m: Mem, v: nat, k: nat, m1: Mem)
    requires Ready(m, v, k) && m1 == Rounds(m, v, k)
    ensures Rounds(m, v, k + 1) == Memory.Allocated(m1, v + k, 1)
  {
  }

  /** `mm_alloc` of one page. */
  method TryPage(mm: Manager, p: nat) returns (ret: Ret)
    requires mm.Valid() && p < 1048576 && (!BitAt(mm.vm[..], p) ==> Free(mm.page[..]) > 0)
    modifies mm.page, mm.vm, mm.table, mm.dir
    ensures mm.Valid() && ret == (if BitAt(old(mm.State()).vm, p) then MemAllocError else NoError)
    ensures var m := old(mm.State());
      mm.State() == if BitAt(m.vm, p) then m else Memory.Allocated(m, p, 1)
  {
    ret := mm.Alloc(p, 4096);
  }

  /** The mapping loop of `buddy_allocator__alloc`, over the `n` pages of a block. It stops at the first page that is
      marked already, page `k`, with an error; the pages before it stay mapped. */
  method MapBlock(mm: Manager, start: nat, len: nat, ghost v: nat, ghost n: nat, ghost k: nat) returns (ret: Ret)
    requires mm.Valid() && start == 4096 * v && len == 4096 * n
    requires k <= n && AllReady(mm.State(), v, k) && (k < n ==> Stuck(mm.State(), v, k))
    modifies mm.page, mm.vm, mm.table, mm.dir
    ensures mm.Valid() && ret == (if k < n then MemAllocError else NoError)
    ensures mm.State() == Rounds(old(mm.State()), v, k)
  {
    ghost var m := mm.State();
    ret := NoError;
    var i := start;
    ghost var j := 0;
    while i < start + len
      invariant mm.Valid() && 0 <= j <= k && i == 4096 * (v + j) && ret == NoError
      invariant mm.State() == Rounds(m, v, j)
      decreases n - j
    {
      ret := TryOne(mm, i, m, v, k, j);
      if ret != NoError {
        return;
      }
      i := i + 4096;
      j := j + 1;
    }
  }

  /** The mapping loop over the block a request is granted. */
  method MapGranted(mm: Manager, root: Node, node: Node, ghost s: System, ghost len: nat) returns (ret: Ret)
    requires mm.Valid() && Ok(s) && Served(s, len) && HasFrames(s, len) && mm.State() == s.m
    requires node.vaddr == Find(s.tree, len, 31).start && node.len == Find(s.tree, len, 31).len
    requires root.Valid() && root.NodeAt(node.vaddr) == node
    modifies mm.page, mm.vm, mm.table, mm.dir
    ensures mm.Valid() && ret == NoError && mm.State() == Step(s, len).m
    ensures root.Valid() && root.Model() == old(root.Model()) && root.NodeAt(node.vaddr) == node
  {
    StepParts(s, len);
    ret := MapBlock(mm, node.vaddr, node.len, FirstPage(s, len), PageCount(s, len), PageCount(s, len));
  }

  /** One free leaf, no user page marked, some kernel pages mapped. */
  lemma {:induction false} InitialOk(m: Mem, owner: map<nat, nat>, v: nat, n: nat, after: Owner)
    requires Mappable(m, v, n) && Owns(m, owner) && after == RoundsOwned(m, owner, v, n, n) && v >= 0x9_0000
    requires forall w :: UserPage(w) ==> !BitAt(m.vm, w)
    ensures Ok(System(Leaf(BASE, 0x8000_0000, false), after.m, after.owner))
  {
    PowTops();
  }

  /** The mapping of the node arena. */
  method MapArena(mm: Manager, ghost owner: map<nat, nat>)
    requires mm.Valid() && Owns(mm.State(), owner) && Mappable(mm.State(), 0xC8000, 5120)
    requires forall v :: UserPage(v) ==> !BitAt(mm.vm[..], v)
    modifies mm.page, mm.vm, mm.table, mm.dir
    ensures mm.Valid()
    ensures var after := RoundsOwned(old(mm.State()), owner, 0xC8000, 5120, 5120).owner;
      Ok(System(Leaf(BASE, 0x8000_0000, false), mm.State(), after))
  {
    ghost var after := RoundsOwned(mm.State(), owner, 0xC8000, 5120, 5120);
    InitialOk(mm.State(), owner, 0xC8000, 5120, after);
    RoundsReady(mm.State(), owner, 0xC8000, 5120);
    var _ := MapBlock(mm, 0xC800_0000, 20 * 1024 * 1024, 0xC8000, 5120, 5120);
  }

  /** Ghost arguments `owner` say which frame serves which page. */
  class BuddyAllocator {
    const arena: Arena.Arena
    const mm: Manager
    const root: Node

    ghost predicate Valid(owner: map<nat, nat>)
      reads arena, arena.mem, mm, mm.page, mm.vm, mm.table, mm.dir, root, root.Repr
    {
      arena.Valid() && mm.Valid() && root.Valid() && arena.mem != mm.table && arena.mem != mm.dir && Ok(Sys(owner))
    }

    ghost function Sys(owner: map<nat, nat>): (s: System)
      requires root.Valid()
      reads mm, mm.page, mm.vm, mm.table, mm.dir, root, root.Repr
    {
      System(root.Model(), mm.State(), owner)
    }

    /** `buddy_allocator__init`: the node arena gets its pages, and the tree is one free leaf. */
    constructor (mm: Manager, ghost owner: map<nat, nat>)
      requires mm.Valid() && Owns(mm.State(), owner) && Mappable(mm.State(), 0xC8000, 5120)
      requires forall v :: UserPage(v) ==> !BitAt(mm.vm[..], v)
      modifies mm.page, mm.vm, mm.table, mm.dir
      ensures Valid(RoundsOwned(old(mm.State()), owner, 0xC8000, 5120, 5120).owner)
      ensures this.mm == mm && fresh(arena) && fresh(arena.mem) && fresh(root.Repr)
      ensures root.Model() == Leaf(BASE, 0x8000_0000, false) && arena.nodes == 1
    {
      MapArena(mm, owner);
      var area := new Arena.Arena();
      var at := area.AllocNode();
      this.mm, this.arena := mm, area;
      this.root := new Node(at, BASE, 0x9000_0000 - 0x1000_0000, false, false);
    }

    /** `buddy_allocator__alloc`. The search needs room for its splits in the arena, and the block a frame for each
        of its pages. */
    method Alloc(len: nat, ghost owner: map<nat, nat>) returns (ret: Ret, addr: nat, ghost after: map<nat, nat>)
      requires Valid(owner) && len < 0x1_0000_0000 && HasFrames(Sys(owner), len)
      requires arena.nodes + 2 * Splits(root.Model(), len, 31) <= Arena.CAPACITY
      modifies arena, arena.mem, mm.page, mm.vm, mm.table, mm.dir, root.Repr
      ensures Valid(after)
      ensures len > old(mm.available) * 4096 % 0x1_0000_0000 ==> ret == MemAllocError && Sys(after) == old(Sys(owner))
      ensures len <= old(mm.available) * 4096 % 0x1_0000_0000 ==>
        Sys(after) == Step(old(Sys(owner)), len) && ret == (if Served(old(Sys(owner)), len) then NoError else NotFound)
      ensures ret == NoError ==> Served(old(Sys(owner)), len) && addr == Find(old(root.Model()), len, 31).start
    {
      ghost var s := Sys(owner);
      addr, after := 0, owner;
      var remaining := mm.available * 4096 % 0x1_0000_0000;
      if len > remaining {
        return MemAllocError, addr, after;
      }
      var node;
      ret, node := root.FindSpace(arena, len, 31);
      if ret != NoError {
        return;
      }
      addr := node.vaddr;
      StepOk(s, len);
      after := Step(s, len).owner;
      ret := Commit(node, s, len);
    }

    /** The part of `buddy_allocator__alloc` after the search: map every page of the block, then mark the node. */
    method Commit(node: Node, ghost s: System, ghost len: nat) returns (ret: Ret)
      requires mm.Valid() && root.Valid() && Ok(s) && Served(s, len) && HasFrames(s, len) && mm.State() == s.m
      requires var r := Find(s.tree, len, 31);
        root.Model() == r.tree && root.NodeAt(r.start) == node && node.vaddr == r.start && node.len == r.len &&
        !node.isAllocated
      modifies mm.page, mm.vm, mm.table, mm.dir, node
      ensures mm.Valid() && root.Valid() && ret == NoError && root.Repr == old(root.Repr) &&
        root.Model() == Step(s, len).tree && mm.State() == Step(s, len).m
    {
      StepTree(s, len);
      ret := MapGranted(mm, root, node, s, len);
      MarkNode(root, node);
    }
  }
}
