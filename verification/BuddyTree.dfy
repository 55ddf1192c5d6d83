/** The buddy tree as a value: search, splitting, and what the search finds. */
module BuddyTree {
  import opened Bits

  const BASE := 0x1000_0000
  const MIN_SPLIT := 4096

  datatype Tree =
    | Leaf(start: nat, len: nat, taken: bool)
    | Branch(start: nat, len: nat, left: Tree, right: Tree)

  datatype Block = Block(start: nat, len: nat, taken: bool)

  /** A node of size `2^k`: children halve it, the left one starts where it starts, nothing is below 4096. */
  ghost predicate Wf(t: Tree, k: nat)
    decreases t
  {
    12 <= k <= 31 && t.len == Pow2(k) &&
    (t.Branch? ==>
      k > 12 && t.left.start == t.start && t.right.start == t.start + Pow2(k - 1) && Wf(t.left, k - 1) &&
      Wf(t.right, k - 1))
  }

  lemma {:induction false} PowAtLeast(k: nat)
    requires k >= 12
    ensures Pow2(k) >= 4096 && (k > 12 ==> Pow2(k) > 4096) && (k > 12 ==> Pow2(k) / 2 == Pow2(k - 1))
    decreases k
  {
    assert Pow2(12) == 4096;
    if k > 12 {
      PowAtLeast(k - 1);
    }
  }

  // ----- the search -----

  /** The window test, in 32-bit arithmetic. */
  predicate InWindow(size: nat, len: nat) { 2 * len % 0x1_0000_0000 < size < 4 * len % 0x1_0000_0000 }

  /** `__buddy_allocator__split_node` of a leaf. */
  function Split(t: Tree): (r: Tree)
    requires t.Leaf?
  {
    Branch(t.start, t.len, Leaf(t.start, t.len / 2, false), Leaf(t.start + t.len / 2, t.len - t.len / 2, false))
  }

  lemma {:induction false} SplitWf(t: Tree, k: nat)
    requires t.Leaf? && Wf(t, k) && k > 12
    ensures Wf(Split(t), k)
  {
    PowAtLeast(k);
  }

  datatype Search = Missing | Found(tree: Tree, start: nat, len: nat)

  /** `__buddy_allocator__find_space`: the tree after splitting, and the leaf found. */
  ghost function Find(t: Tree, len: nat, k: nat): (r: Search)
    requires Wf(t, k)
    decreases k, t
  {
    PowAtLeast(k);
    if t.Leaf? && t.taken then Missing
    else if InWindow(t.len, len) then (if t.Leaf? then Found(t, t.start, t.len) else Missing)
    else if t.Leaf? && t.len <= MIN_SPLIT then Found(t, t.start, t.len)
    else
      SplitWf'(t, k);
      var b := if t.Leaf? then Split(t) else t;
      var l := Find(b.left, len, k - 1);
      if l.Found? then Found(b.(left := l.tree), l.start, l.len)
      else
        var r := Find(b.right, len, k - 1);
        if r.Found? then Found(b.(right := r.tree), r.start, r.len) else Missing
  }

  lemma {:induction false} SplitWf'(t: Tree, k: nat)
    requires Wf(t, k) && (t.Leaf? ==> k > 12)
    ensures var b := if t.Leaf? then Split(t) else t; b.Branch? && k > 12 && Wf(b.left, k - 1) && Wf(b.right, k - 1)
  {
    if t.Leaf? {
      SplitWf(t, k);
    }
  }

  /** The splits that the search makes. */
  ghost function Splits(t: Tree, len: nat, k: nat): (n: nat)
    requires Wf(t, k)
    decreases k, t
  {
    PowAtLeast(k);
    if (t.Leaf? && t.taken) || InWindow(t.len, len) || (t.Leaf? && t.len <= MIN_SPLIT) then 0
    else
      SplitWf'(t, k);
      var b := if t.Leaf? then Split(t) else t;
      (if t.Leaf? then 1 else 0) + Splits(b.left, len, k - 1) +
      (if Find(b.left, len, k - 1).Found? then 0 else Splits(b.right, len, k - 1))
  }

  /** Searching a large free leaf is splitting it and searching the result. */
  lemma {:induction false} FindSplits(t: Tree, len: nat, k: nat)
    requires Wf(t, k) && t.Leaf? && !t.taken && !InWindow(t.len, len) && t.len > MIN_SPLIT
    ensures Wf(Split(t), k) && Find(t, len, k) == Find(Split(t), len, k) &&
      Splits(t, len, k) == 1 + Splits(Split(t), len, k)
  {
    PowAtLeast(k);
    SplitWf(t, k);
  }

  /** Searching a branch outside the window is searching its children, the left one first. */
  lemma FindBranch(t: Tree, len: nat, k: nat)
    requires Wf(t, k) && t.Branch? && !InWindow(t.len, len)
    ensures var l, r := Find(t.left, len, k - 1), Find(t.right, len, k - 1);
      Find(t, len, k) == (if l.Found? then Found(t.(left := l.tree), l.start, l.len)
                          else if r.Found? then Found(t.(right := r.tree), r.start, r.len) else Missing) &&
      Splits(t, len, k) == Splits(t.left, len, k - 1) + (if l.Found? then 0 else Splits(t.right, len, k - 1))
  {
  }

  /** The size the search stops at, going down from `2^k`. */
  function Target(k: nat, len: nat): (j: nat)
    requires k >= 12
    ensures 12 <= j <= k
    decreases k, len
  {
    if k == 12 || InWindow(Pow2(k), len) then k else Target(k - 1, len)
  }

  // ----- leaves -----

  function Leaves(t: Tree): (s: seq<Block>)
    ensures |s| > 0
    decreases t
  {
    match t
    case Leaf(start, len, taken) => [Block(start, len, taken)]
    case Branch(_, _, l, r) => Leaves(l) + Leaves(r)
  }

  /** Blocks one after the other from `lo` to `hi`. */
  ghost predicate Tile(s: seq<Block>, lo: nat, hi: nat)
    decreases |s|
  {
    if s == [] then lo == hi else s[0].start == lo && s[0].len > 0 && Tile(s[1..], lo + s[0].len, hi)
  }

  lemma {:induction false} TileConcat(a: seq<Block>, b: seq<Block>, lo: nat, mid: nat, hi: nat)
    requires Tile(a, lo, mid) && Tile(b, mid, hi)
    ensures Tile(a + b, lo, hi)
    decreases |a|
  {
    if a == [] {
      assert a + b == b;
    } else {
      TileConcat(a[1..], b, lo + a[0].len, mid, hi);
      assert (a + b)[1..] == a[1..] + b;
    }
  }

  /** The leaves tile the node's range in address order, with sizes that are powers of two from 4096 up and
      starts aligned to their size relative to the node. */
  lemma {:induction false} LeavesTile(t: Tree, k: nat)
    requires Wf(t, k)
    ensures Tile(Leaves(t), t.start, t.start + t.len)
    decreases t
  {
    PowAtLeast(k);
    match t
    case Leaf(start, len, taken) =>
      assert Leaves(t)[1..] == [];
    case Branch(start, len, l, r) =>
      LeavesTile(l, k - 1);
      LeavesTile(r, k - 1);
      TileConcat(Leaves(l), Leaves(r), start, r.start, start + len);
  }

  function Times(q: nat, k: nat): (r: nat) { q * Pow2(k) }

  /** A multiple of `2^k`. */
  ghost predicate Aligned(d: nat, k: nat) { exists q: nat :: d == Times(q, k) }

  /** A power of two from 4096 to 2 GiB, at a multiple of itself from `base`. */
  ghost predicate Sized(b: Block, base: nat) {
    b.start >= base && exists j :: 12 <= j <= 31 && b.len == Pow2(j) && Aligned(b.start - base, j)
  }

  lemma {:induction false} LeavesSized(t: Tree, k: nat, base: nat, i: nat)
    requires Wf(t, k) && base <= t.start && Aligned(t.start - base, k) && i < |Leaves(t)|
    ensures Sized(Leaves(t)[i], base)
    decreases t
  {
    if t.Branch? {
      HalfAligned(t.start - base, k);
      if i < |Leaves(t.left)| {
        LeavesSized(t.left, k - 1, base, i);
      } else {
        LeavesSized(t.right, k - 1, base, i - |Leaves(t.left)|);
      }
    }
  }

  lemma {:induction false} HalfAligned(d: nat, k: nat)
    requires k > 0 && Aligned(d, k)
    ensures Aligned(d, k - 1) && Aligned(d + Pow2(k - 1), k - 1)
  {
    var q: nat :| d == Times(q, k);
    assert Times(2 * q, k - 1) == d && Times(2 * q + 1, k - 1) == d + Pow2(k - 1);
  }

  /** Blocks in a row do not overlap. */
  lemma {:induction false} TileDisjoint(s: seq<Block>, lo: nat, hi: nat, i: nat, j: nat)
    requires Tile(s, lo, hi) && i < j < |s|
    ensures lo <= s[i].start && s[i].start + s[i].len <= s[j].start && s[j].start + s[j].len <= hi
    decreases |s|
  {
    if i == 0 {
      TileBounds(s[1..], lo + s[0].len, hi, j - 1);
    } else {
      TileDisjoint(s[1..], lo + s[0].len, hi, i - 1, j - 1);
    }
  }

  lemma {:induction false} TileBounds(s: seq<Block>, lo: nat, hi: nat, j: nat)
    requires Tile(s, lo, hi) && j < |s|
    ensures lo <= s[j].start && s[j].start + s[j].len <= hi
    decreases |s|
  {
    if j > 0 {
      TileBounds(s[1..], lo + s[0].len, hi, j - 1);
    } else {
      TileHi(s[1..], lo + s[0].len, hi);
    }
  }

  lemma {:induction false} TileHi(s: seq<Block>, lo: nat, hi: nat)
    requires Tile(s, lo, hi)
    ensures lo <= hi
    decreases |s|
  {
    if s != [] {
      TileHi(s[1..], lo + s[0].len, hi);
    }
  }

  // ----- what the search finds -----

  /** What splitting a free leaf down its left spine to size `2^j` leaves, in address order. */
  function Spine(start: nat, k: nat, j: nat): (s: seq<Block>)
    requires j <= k
    ensures |s| > 0 && s[0] == Block(start, Pow2(j), false)
    decreases k
  {
    if k == j then [Block(start, Pow2(k), false)]
    else Spine(start, k - 1, j) + [Block(start + Pow2(k - 1), Pow2(k - 1), false)]
  }

  /** A free block large enough for the search. */
  predicate Fits(b: Block, size: nat) { !b.taken && b.len >= size }

  /** The first of the blocks that fits, or `|s|`. */
  function FirstFit(s: seq<Block>, size: nat): (i: nat)
    ensures i <= |s| && (i < |s| ==> Fits(s[i], size)) && forall n :: 0 <= n < i ==> !Fits(s[n], size)
    decreases |s|
  {
    if s == [] then 0 else if Fits(s[0], size) then 0 else 1 + FirstFit(s[1..], size)
  }

  lemma {:induction false} FirstFitConcat(a: seq<Block>, b: seq<Block>, size: nat)
    ensures FirstFit(a + b, size) == if FirstFit(a, size) < |a| then FirstFit(a, size) else |a| + FirstFit(b, size)
    decreases |a|
  {
    if a == [] {
      assert a + b == b;
    } else {
      assert (a + b)[1..] == a[1..] + b;
      FirstFitConcat(a[1..], b, size);
    }
  }

  /** The leaves below a node of size `2^k` are no larger than it; below a branch, than half of it. */
  lemma {:induction false} LeavesSmall(t: Tree, k: nat, i: nat)
    requires Wf(t, k) && i < |Leaves(t)|
    ensures Leaves(t)[i].len <= Pow2(if t.Branch? then k - 1 else k)
    decreases t
  {
    if t.Branch? {
      if i < |Leaves(t.left)| {
        LeavesSmall(t.left, k - 1, i);
      } else {
        LeavesSmall(t.right, k - 1, i - |Leaves(t.left)|);
      }
      PowMonotone(k - 2, k - 1);
    }
  }

  lemma {:induction false} PowMonotone(j: nat, k: nat)
    requires j <= k
    ensures Pow2(j) <= Pow2(k) && (j < k ==> Pow2(j) < Pow2(k))
    decreases k
  {
    if j < k {
      PowMonotone(j, k - 1);
    }
  }

  /** A free leaf is always found, after splitting its left spine down to the target. */
  lemma {:induction false} FindLeaf(t: Tree, len: nat, k: nat)
    requires Wf(t, k) && t.Leaf? && !t.taken
    ensures var j, r := Target(k, len), Find(t, len, k);
      r.Found? && r.start == t.start && r.len == Pow2(j) && Wf(r.tree, k) && r.tree.start == t.start &&
      Leaves(r.tree) == Spine(t.start, k, j)
    decreases k
  {
    PowAtLeast(k);
    if k > 12 && !InWindow(t.len, len) {
      SplitWf(t, k);
      FindLeaf(Split(t).left, len, k - 1);
    }
  }

  /** The whole search: it succeeds exactly when some free leaf is at least the target size; it takes the one at
      the lowest address, and changes nothing but that leaf, split down its left spine. */
  lemma {:induction false} FindIsExact(t: Tree, len: nat, k: nat)
    requires Wf(t, k)
    ensures Exact(t, Find(t, len, k), k, Target(k, len))
    decreases k, t
  {
    var j := Target(k, len);
    PowAtLeast(k);
    if t.Leaf? {
      PowMonotone(j, k);
      if !t.taken {
        FindLeaf(t, len, k);
        LeafFound(t, len, k);
      }
    } else if InWindow(t.len, len) {
      BranchTooSmall(t, k);
    } else {
      FindIsExact(t.left, len, k - 1);
      FindIsExact(t.right, len, k - 1);
      BranchFound(t, len, k);
    }
  }

  /** The result of a search: leaf `i` is replaced by its spine, the others stay. */
  ghost predicate FoundAt(t: Tree, r: Search, k: nat, j: nat, i: nat)
    requires r.Found?
  {
    var s := Leaves(t);
    i < |s| && r.start == s[i].start && r.len == Pow2(j) && Wf(r.tree, k) && r.tree.start == t.start &&
    exists m :: j <= m <= k && s[i].len == Pow2(m) && Leaves(r.tree) == s[..i] + Spine(s[i].start, m, j) + s[i + 1..]
  }

  lemma {:induction false} LeafFound(t: Tree, len: nat, k: nat)
    requires Wf(t, k) && t.Leaf? && !t.taken && Find(t, len, k).Found?
    requires var j, r := Target(k, len), Find(t, len, k);
      r.start == t.start && r.len == Pow2(j) && Wf(r.tree, k) && r.tree.start == t.start &&
      Leaves(r.tree) == Spine(t.start, k, j)
    ensures FoundAt(t, Find(t, len, k), k, Target(k, len), 0)
  {
    var s, j := Leaves(t), Target(k, len);
    assert s[..0] + Spine(t.start, k, j) + s[1..] == Spine(t.start, k, j);
  }

  lemma {:induction false} BranchTooSmall(t: Tree, k: nat)
    requires Wf(t, k) && t.Branch?
    ensures FirstFit(Leaves(t), Pow2(k)) == |Leaves(t)|
  {
    PowMonotone(k - 1, k);
    forall n | 0 <= n < |Leaves(t)| ensures !Fits(Leaves(t)[n], Pow2(k)) {
      LeavesSmall(t, k, n);
    }
  }

  lemma {:induction false} SpliceLeft(a: seq<Block>, b: seq<Block>, i: nat, x: seq<Block>)
    requires i < |a|
    ensures var c := a + b; (a[..i] + x + a[i + 1..]) + b == c[..i] + x + c[i + 1..] && c[i] == a[i]
  {
    var c := a + b;
    assert c[..i] == a[..i] && c[i + 1..] == a[i + 1..] + b;
  }

  lemma {:induction false} SpliceRight(a: seq<Block>, b: seq<Block>, i: nat, x: seq<Block>)
    requires i < |b|
    ensures var c, n := a + b, |a| + i; a + (b[..i] + x + b[i + 1..]) == c[..n] + x + c[n + 1..] && c[n] == b[i]
  {
    var c, n := a + b, |a| + i;
    assert c[..n] == a + b[..i] && c[n + 1..] == b[i + 1..];
  }

  /** What the search is to establish for one node. */
  ghost predicate Exact(t: Tree, r: Search, k: nat, j: nat) {
    var i := FirstFit(Leaves(t), Pow2(j));
    (r.Found? <==> i < |Leaves(t)|) && (r.Found? ==> FoundAt(t, r, k, j, i))
  }

  lemma {:induction false} FoundInLeft(t: Tree, l: Search, k: nat, j: nat, i: nat)
    requires Wf(t, k) && t.Branch? && l.Found? && FoundAt(t.left, l, k - 1, j, i)
    ensures FoundAt(t, Found(t.(left := l.tree), l.start, l.len), k, j, i)
  {
    var a := Leaves(t.left);
    var m :| j <= m <= k - 1 && a[i].len == Pow2(m) && Leaves(l.tree) == a[..i] + Spine(a[i].start, m, j) + a[i + 1..];
    SpliceLeft(a, Leaves(t.right), i, Spine(a[i].start, m, j));
  }

  lemma {:induction false} FoundInRight(t: Tree, r: Search, k: nat, j: nat, i: nat)
    requires Wf(t, k) && t.Branch? && r.Found? && FoundAt(t.right, r, k - 1, j, i)
    ensures FoundAt(t, Found(t.(right := r.tree), r.start, r.len), k, j, |Leaves(t.left)| + i)
  {
    var b := Leaves(t.right);
    var m :| j <= m <= k - 1 && b[i].len == Pow2(m) && Leaves(r.tree) == b[..i] + Spine(b[i].start, m, j) + b[i + 1..];
    SpliceRight(Leaves(t.left), b, i, Spine(b[i].start, m, j));
    var t' := t.(right := r.tree);
    assert Leaves(t') == Leaves(t.left) + Leaves(r.tree) && Leaves(t) == Leaves(t.left) + b;
  }

  lemma {:induction false} BranchFound(t: Tree, len: nat, k: nat)
    requires Wf(t, k) && t.Branch? && !InWindow(t.len, len)
    requires Exact(t.left, Find(t.left, len, k - 1), k - 1, Target(k, len))
    requires Exact(t.right, Find(t.right, len, k - 1), k - 1, Target(k, len))
    ensures Exact(t, Find(t, len, k), k, Target(k, len))
  {
    var j, l, r := Target(k, len), Find(t.left, len, k - 1), Find(t.right, len, k - 1);
    FirstFitConcat(Leaves(t.left), Leaves(t.right), Pow2(j));
    if l.Found? {
      FoundInLeft(t, l, k, j, FirstFit(Leaves(t.left), Pow2(j)));
    } else if r.Found? {
      FoundInRight(t, r, k, j, FirstFit(Leaves(t.right), Pow2(j)));
    }
  }

  // ----- the fit -----

  ghost predicate IsPow2(n: nat) { exists k: nat :: n == Pow2(k) }

  /** The target is the largest window size, or 4096 when there is none above it. */
  lemma {:induction false} TargetHits(k: nat, len: nat, i: nat)
    requires 12 <= k
    ensures var j := Target(k, len); (j == 12 || InWindow(Pow2(j), len)) && (j < i <= k ==> !InWindow(Pow2(i), len))
    decreases k
  {
    if k > 12 && !InWindow(Pow2(k), len) {
      TargetHits(k - 1, len, i);
    }
  }

  lemma {:induction false} FloorPow(n: nat) returns (m: nat)
    requires n > 0
    ensures Pow2(m) <= n < Pow2(m + 1)
    decreases n
  {
    if n == 1 {
      m := 0;
    } else {
      m := FloorPow(n / 2);
      m := m + 1;
    }
  }

  /** Exponents are ordered like their powers. */
  lemma {:induction false} PowOrder(a: nat, b: nat)
    requires Pow2(a) < Pow2(b)
    ensures a < b
  {
    if b <= a {
      PowMonotone(b, a);
    }
  }

  lemma {:induction false} PowTops()
    ensures Pow2(12) == 4096 && Pow2(30) == 0x4000_0000 && Pow2(31) == 0x8000_0000
  {
    assert Pow2(8) == 256;
    assert Pow2(16) == 0x1_0000;
    assert Pow2(24) == 0x100_0000;
    assert Pow2(30) == 0x4000_0000;
  }

  /** A length below 1 GiB that is no power of two has a window size, and the target is one. */
  lemma {:induction false} WindowMet(len: nat)
    requires 4096 < len < 0x4000_0000 && !IsPow2(len)
    ensures 2 * len < Pow2(Target(31, len)) < 4 * len
  {
    var w := WindowSize(len);
    NoWrap(len);
    TargetHits(31, len, w);
  }

  /** The power of two in the window. */
  lemma {:induction false} WindowSize(len: nat) returns (w: nat)
    requires 4096 < len < 0x4000_0000 && !IsPow2(len)
    ensures 13 <= w <= 31 && 2 * len < Pow2(w) < 4 * len
  {
    var m := FloorPow(len);
    assert len != Pow2(m);
    PowTops();
    PowOrder(m, 30);
    PowOrder(12, m + 1);
    w := m + 2;
    assert Pow2(w) == 4 * Pow2(m) && Pow2(m + 1) == 2 * Pow2(m);
  }

  lemma NoWrap(len: nat)
    requires len < 0x4000_0000
    ensures 2 * len % 0x1_0000_0000 == 2 * len && 4 * len % 0x1_0000_0000 == 4 * len
  {
  }

  /** A power of two has no window size: the search goes down to 4096. */
  lemma {:induction false} WindowEmpty(len: nat, m: nat)
    requires len == Pow2(m) && len < 0x4000_0000
    ensures Pow2(Target(31, len)) == 4096
  {
    var j := Target(31, len);
    TargetHits(31, len, 31);
    NoWrap(len);
    PowTops();
    if j != 12 {
      assert Pow2(m + 1) == 2 * len && Pow2(m + 2) == 2 * Pow2(m + 1);
      PowOrder(m + 1, j);
      PowOrder(j, m + 2);
      assert false;
    }
  }

  /** Above 1 GiB the 32-bit products wrap, and what is granted is too small. */
  lemma {:induction false} WrappedTooSmall(len: nat)
    requires 0x4000_0000 <= len < 0x1_0000_0000
    ensures Pow2(Target(31, len)) < len
  {
    var j := Target(31, len);
    TargetHits(31, len, 31);
    PowTops();
    PowMonotone(j, 31);
  }

  /** The fit, for every 32-bit request: what is granted is at least the request exactly when the request is at
      most 4096, or is below 1 GiB and no power of two; below 1 GiB the grant is 4096 or less than four times it. */
  lemma {:induction false} FitIsExact(len: nat)
    requires len < 0x1_0000_0000
    ensures var size := Pow2(Target(31, len));
      (size >= len <==> len <= 4096 || (len < 0x4000_0000 && !IsPow2(len))) &&
      (len < 0x4000_0000 ==> size == 4096 || 2 * len < size < 4 * len)
  {
    var j := Target(31, len);
    PowTops();
    PowMonotone(12, j);
    TargetHits(31, len, 31);
    if len < 0x4000_0000 {
      NoWrap(len);
      if len > 4096 {
        if IsPow2(len) {
          var m: nat :| len == Pow2(m);
          WindowEmpty(len, m);
        } else {
          WindowMet(len);
        }
      }
    } else {
      WrappedTooSmall(len);
    }
  }

  // ----- taking the leaf found -----

  /** A request of 8192 bytes is granted 4096. */
  lemma {:induction false} PowerGetsTooLittle()
    ensures Pow2(Target(31, 8192)) == 4096
  {
    assert Pow2(13) == 8192;
    WindowEmpty(8192, 13);
  }

  /** The leaf that holds address `a`. */
  function LeafAt(t: Tree, a: nat): (b: Block)
    decreases t
  {
    match t
    case Leaf(start, len, taken) => Block(start, len, taken)
    case Branch(_, _, l, r) => if a < r.start then LeafAt(l, a) else LeafAt(r, a)
  }

  /** Marks the leaf that holds address `a`. */
  function Take(t: Tree, a: nat): (r: Tree)
    decreases t
  {
    match t
    case Leaf(start, len, _) => Leaf(start, len, true)
    case Branch(_, _, l, r) => if a < r.start then t.(left := Take(l, a)) else t.(right := Take(r, a))
  }

  lemma {:induction false} TakeWf(t: Tree, k: nat, a: nat)
    requires Wf(t, k)
    ensures Wf(Take(t, a), k) && Take(t, a).start == t.start
    decreases t
  {
    if t.Branch? {
      TakeWf(if a < t.right.start then t.left else t.right, k - 1, a);
    }
  }

  /** Every address is in the leaf that `LeafAt` gives. */
  lemma {:induction false} LeafAtHolds(t: Tree, k: nat, a: nat)
    requires Wf(t, k) && t.start <= a < t.start + t.len
    ensures var b := LeafAt(t, a); t.start <= b.start <= a < b.start + b.len <= t.start + t.len
    decreases t
  {
    if t.Branch? {
      LeafAtHolds(if a < t.right.start then t.left else t.right, k - 1, a);
    }
  }

  /** Taking a leaf takes exactly its addresses. */
  lemma {:induction false} TakeTakes(t: Tree, k: nat, a: nat, x: nat)
    requires Wf(t, k) && t.start <= a < t.start + t.len && t.start <= x < t.start + t.len
    ensures var b := LeafAt(t, a);
      LeafAt(Take(t, a), x).taken == (LeafAt(t, x).taken || b.start <= x < b.start + b.len)
    decreases t
  {
    if t.Branch? {
      var r := t.right;
      if a < r.start {
        LeafAtHolds(t.left, k - 1, a);
        TakeWf(t.left, k - 1, a);
        if x < r.start { TakeTakes(t.left, k - 1, a, x); }
      } else {
        LeafAtHolds(r, k - 1, a);
        TakeWf(r, k - 1, a);
        if x >= r.start { TakeTakes(r, k - 1, a, x); }
      }
    } else {
      LeafAtHolds(t, k, a);
    }
  }

  /** The search changes no address from free to taken or back, and finds a free leaf of the size it says. */
  lemma {:induction false} FindKeepsTaken(t: Tree, len: nat, k: nat, x: nat)
    requires Wf(t, k) && Find(t, len, k).Found?
    ensures var r := Find(t, len, k);
      Wf(r.tree, k) && r.tree.start == t.start && t.start <= r.start && 0 < r.len &&
      r.start + r.len <= t.start + t.len &&
      LeafAt(r.tree, r.start) == Block(r.start, r.len, false) &&
      (t.start <= x < t.start + t.len ==> LeafAt(r.tree, x).taken == LeafAt(t, x).taken)
    decreases k
  {
    PowAtLeast(k);
    if t.Branch? {
      BranchKeepsTaken(t, len, k, x);
    } else {
      PowMonotone(12, k);
      if k > 12 && !InWindow(t.len, len) {
        SplitWf(t, k);
        FindLeaf(t, len, k);
        FindLeaf(Split(t).left, len, k - 1);
        FindKeepsTaken(Split(t).left, len, k - 1, x);
      }
    }
  }

  lemma {:induction false} BranchKeepsTaken(t: Tree, len: nat, k: nat, x: nat)
    requires Wf(t, k) && t.Branch? && Find(t, len, k).Found?
    ensures var r := Find(t, len, k);
      Wf(r.tree, k) && r.tree.start == t.start && t.start <= r.start && 0 < r.len &&
      r.start + r.len <= t.start + t.len &&
      LeafAt(r.tree, r.start) == Block(r.start, r.len, false) &&
      (t.start <= x < t.start + t.len ==> LeafAt(r.tree, x).taken == LeafAt(t, x).taken)
    decreases k, 0
  {
    PowAtLeast(k);
    if Find(t.left, len, k - 1).Found? {
      FindKeepsTaken(t.left, len, k - 1, x);
    } else {
      FindKeepsTaken(t.right, len, k - 1, x);
    }
  }

  /** What is found in the left child lies before the right child, and what is found in the right one does not. */
  lemma {:induction false} FoundSides(t: Tree, len: nat, k: nat)
    requires Wf(t, k) && t.Branch?
    ensures var l, r := Find(t.left, len, k - 1), Find(t.right, len, k - 1);
      (l.Found? ==> l.start < t.right.start) && (r.Found? ==> r.start >= t.right.start)
  {
    if Find(t.left, len, k - 1).Found? { FindKeepsTaken(t.left, len, k - 1, 0); }
    if Find(t.right, len, k - 1).Found? { FindKeepsTaken(t.right, len, k - 1, 0); }
  }

  // ----- whole allocations on the tree -----

  /** A tree over `[0x10000000, 0x90000000)`. */
  ghost predicate Root(t: Tree) { Wf(t, 31) && t.start == BASE }

  /** The tree after a successful allocation of `len` bytes. */
  ghost function Granted(t: Tree, len: nat): (t': Tree)
    requires Root(t) && Find(t, len, 31).Found?
    ensures Root(t')
  {
    FindKeepsTaken(t, len, 31, t.start);
    TakeWf(Find(t, len, 31).tree, 31, Find(t, len, 31).start);
    Take(Find(t, len, 31).tree, Find(t, len, 31).start)
  }

  /** What a successful allocation changes: exactly the addresses of the block it grants, all free before. */
  lemma {:induction false} GrantTakesBlock(t: Tree, len: nat, x: nat)
    requires Root(t) && Find(t, len, 31).Found? && BASE <= x < 0x9000_0000
    ensures var r := Find(t, len, 31);
      BASE <= r.start && r.start + r.len <= 0x9000_0000 && r.len == Pow2(Target(31, len)) &&
      LeafAt(Granted(t, len), x).taken == (LeafAt(t, x).taken || r.start <= x < r.start + r.len) &&
      (r.start <= x < r.start + r.len ==> !LeafAt(t, x).taken)
  {
    var r := Find(t, len, 31);
    PowTops();
    FindKeepsTaken(t, len, 31, x);
    FindIsExact(t, len, 31);
    TakeTakes(r.tree, 31, r.start, x);
    if r.start <= x < r.start + r.len {
      SameLeaf(r.tree, 31, r.start, x);
    }
  }

  /** Addresses of one leaf have the same leaf. */
  lemma {:induction false} SameLeaf(t: Tree, k: nat, a: nat, x: nat)
    requires Wf(t, k) && t.start <= a < t.start + t.len
    requires LeafAt(t, a).start <= x < LeafAt(t, a).start + LeafAt(t, a).len
    ensures LeafAt(t, x) == LeafAt(t, a)
    decreases t
  {
    if t.Branch? {
      var c := if a < t.right.start then t.left else t.right;
      LeafAtHolds(c, k - 1, a);
      SameLeaf(c, k - 1, a, x);
    }
  }

  /** Trees reachable from the initial one by successful allocations. */
  ghost predicate Reachable(t: Tree, lens: seq<nat>)
    decreases |lens|
  {
    if lens == [] then t == Leaf(BASE, 0x8000_0000, false)
    else exists t0 :: Reachable(t0, lens[..|lens| - 1]) && Root(t0) && Find(t0, lens[|lens| - 1], 31).Found? &&
                      t == Granted(t0, lens[|lens| - 1])
  }

  /** Over any run: the leaves tile the range in order, every leaf is a power of two from 4096 up at a multiple of
      itself, and two different leaves, so two live blocks, never overlap. */
  lemma {:induction false} ReachableTiles(t: Tree, lens: seq<nat>, i: nat, j: nat)
    requires Reachable(t, lens) && i < j < |Leaves(t)|
    ensures Root(t) && Tile(Leaves(t), BASE, 0x9000_0000) && Sized(Leaves(t)[i], BASE)
    ensures Leaves(t)[i].start + Leaves(t)[i].len <= Leaves(t)[j].start
  {
    ReachableRoot(t, lens);
    RootTiles(t, i, j);
  }

  lemma {:induction false} ReachableRoot(t: Tree, lens: seq<nat>)
    requires Reachable(t, lens)
    ensures Root(t)
  {
    PowTops();
  }

  lemma {:induction false} RootTiles(t: Tree, i: nat, j: nat)
    requires Root(t) && i < j < |Leaves(t)|
    ensures Tile(Leaves(t), BASE, 0x9000_0000) && Sized(Leaves(t)[i], BASE)
    ensures Leaves(t)[i].start + Leaves(t)[i].len <= Leaves(t)[j].start
  {
    PowTops();
    LeavesTile(t, 31);
    assert Times(0, 31) == 0;
    LeavesSized(t, 31, BASE, i);
    TileDisjoint(Leaves(t), BASE, 0x9000_0000, i, j);
  }
}
