/** The buddy allocator: a heap tree of nodes over the node arena. */
module Buddy {
  import opened BuddyTree
  import Arena
  import opened Status

  /** Records for two children. */
  method AllocPair(arena: Arena.Arena) returns (first: nat, second: nat)
    requires arena.Valid() && arena.nodes + 2 <= Arena.CAPACITY
    modifies arena, arena.mem
    ensures arena.Valid() && arena.nodes == old(arena.nodes) + 2
    ensures first == Arena.RecordAt(old(arena.nodes)) + 8 && second == Arena.RecordAt(old(arena.nodes) + 1) + 8
  {
    first := arena.AllocNode();
    second := arena.AllocNode();
  }

  class Node {
    var left: Node?
    var right: Node?
    var vaddr: nat
    var len: nat
    var isAllocated: bool
    var isLeft: bool
    var isRight: bool
    /** Offset of the record in the arena. */
    const at: nat
    ghost var Repr: set<Node>

    /** A fresh record for a free range. */
    constructor (at: nat, vaddr: nat, len: nat, isLeft: bool, isRight: bool)
      ensures Valid() && Repr == {this} && left == null && Model() == Leaf(vaddr, len, false)
      ensures this.at == at && this.isLeft == isLeft && this.isRight == isRight
    {
      left, right := null, null;
      this.vaddr, this.len, this.isAllocated := vaddr, len, false;
      this.isLeft, this.isRight := isLeft, isRight;
      this.at := at;
      Repr := {this};
    }

    /** The subtrees are apart, side flags are right, and a node with children is not allocated. */
    ghost predicate Valid()
      reads this, Repr
      decreases Repr
    {
      this in Repr && (left == null <==> right == null) &&
      (left != null ==>
        left in Repr && right in Repr && left.Repr <= Repr && right.Repr <= Repr &&
        this !in left.Repr && this !in right.Repr && left.Repr !! right.Repr &&
        !isAllocated && left.isLeft && right.isRight && left.Valid() && right.Valid())
    }

    ghost function Model(): (t: Tree)
      requires Valid()
      reads this, Repr
      decreases Repr
    {
      if left == null then Leaf(vaddr, len, isAllocated) else Branch(vaddr, len, left.Model(), right.Model())
    }

    /** `__buddy_allocator__split_node`. */
    method SplitNode(arena: Arena.Arena) returns (ret: Ret)
      requires Valid() && left == null && !isAllocated
      requires arena.Valid() && (len > 4096 ==> arena.nodes + 2 <= Arena.CAPACITY)
      modifies this, arena, arena.mem
      ensures Valid() && arena.Valid() && fresh(Repr - old(Repr))
      ensures isLeft == old(isLeft) && isRight == old(isRight)
      ensures len <= 4096 ==> ret == OutOfRange && Model() == old(Model()) && arena.nodes == old(arena.nodes)
      ensures old(len) > 4096 ==>
        ret == NoError && Model() == Split(old(Model())) && arena.nodes == old(arena.nodes) + 2 && left != null
      ensures old(len) > 4096 ==>
        left.at == Arena.RecordAt(old(arena.nodes)) + 8 && right.at == Arena.RecordAt(old(arena.nodes) + 1) + 8
    {
      if len <= 4096 {
        return OutOfRange;
      }
      var atLeft, atRight := AllocPair(arena);
      var half := vaddr + len / 2;
      var l := new Node(atLeft, vaddr, half - vaddr, true, false);
      var r := new Node(atRight, half, vaddr + len - half, false, true);
      left, right := l, r;
      Repr := Repr + {l, r};
      ret := NoError;
    }
  
    /** The node whose range holds address `a`, below this one. */
    ghost function NodeAt(a: nat): (n: Node)
      requires Valid()
      reads this, Repr
      ensures n in Repr && n.left == null
      decreases Repr
    {
      if left == null then this else if a < right.vaddr then left.NodeAt(a) else right.NodeAt(a)
    }

    /** What a search of `before` for `size` bytes promises about this node and the node found. */
    twostate predicate Searched(before: Tree, size: nat, k: nat, ret: Ret, new found: Node?)
      requires Wf(before, k)
      reads this, Repr, found
    {
      Valid() && isLeft == old(isLeft) && isRight == old(isRight) && vaddr == old(vaddr) &&
      match Find(before, size, k)
      case Missing => ret == NotFound && found == null && Model() == before
      case Found(t, start, len) =>
        ret == NoError && found != null && Model() == t && NodeAt(start) == found &&
        found.vaddr == start && found.len == len && !found.isAllocated
    }

    /** `__buddy_allocator__find_space`. */
    method FindSpace(arena: Arena.Arena, size: nat, ghost k: nat) returns (ret: Ret, found: Node?)
      requires Valid() && Wf(Model(), k)
      requires arena.Valid() && arena.nodes + 2 * Splits(Model(), size, k) <= Arena.CAPACITY
      modifies Repr, arena, arena.mem
      ensures fresh(Repr - old(Repr)) && Searched(old(Model()), size, k, ret, found)
      ensures arena.Valid() && arena.nodes == old(arena.nodes) + 2 * Splits(old(Model()), size, k)
      decreases k, 1
    {
      PowAtLeast(k);
      if isAllocated {
        return NotFound, null;
      }
      if 2 * size % 0x1_0000_0000 < len < 4 * size % 0x1_0000_0000 {
        if left == null && right == null {
          return NoError, this;
        } else {
          return NotFound, null;
        }
      }
      if left == null && right == null {
        if len <= 4096 {
          return NoError, this;
        }
        FindSplits(Model(), size, k);
        FindLeaf(Model(), size, k);
        ret := SplitNode(arena);
      }
      ret, found := SearchChildren(arena, size, k);
    }

    /** The part of `__buddy_allocator__find_space` that visits the children, the left one first. */
    method SearchChildren(arena: Arena.Arena, size: nat, ghost k: nat) returns (ret: Ret, found: Node?)
      requires Valid() && Wf(Model(), k) && left != null && !InWindow(len, size)
      requires arena.Valid() && arena.nodes + 2 * Splits(Model(), size, k) <= Arena.CAPACITY
      modifies Repr, arena, arena.mem
      ensures fresh(Repr - old(Repr)) && Searched(old(Model()), size, k, ret, found)
      ensures arena.Valid() && arena.nodes == old(arena.nodes) + 2 * Splits(old(Model()), size, k)
      decreases k, 0
    {
      FindBranch(Model(), size, k);
      FoundSides(Model(), size, k);
      ret, found := SearchChild(true, arena, size, k);
      if found != null && ret == NoError && !found.isAllocated {
        return;
      }
      ret, found := SearchChild(false, arena, size, k);
    }

    /** The search of one child, with what it means for this node. */
    method SearchChild(goLeft: bool, arena: Arena.Arena, size: nat, ghost k: nat) returns (ret: Ret, found: Node?)
      requires Valid() && Wf(Model(), k) && left != null && k > 12
      requires var c := if goLeft then Model().left else Model().right;
        arena.Valid() && arena.nodes + 2 * Splits(c, size, k - 1) <= Arena.CAPACITY
      modifies Repr, arena, arena.mem
      ensures fresh(Repr - old(Repr)) && Valid() && isLeft == old(isLeft) && isRight == old(isRight) &&
        vaddr == old(vaddr)
      ensures left == old(left) && len == old(len)
      ensures var c := if goLeft then old(Model()).left else old(Model()).right;
        arena.Valid() && arena.nodes == old(arena.nodes) + 2 * Splits(c, size, k - 1) &&
        match Find(c, size, k - 1)
        case Missing => ret == NotFound && found == null && Model() == old(Model())
        case Found(t, start, size) =>
          ret == NoError && found != null && found.vaddr == start && found.len == size && !found.isAllocated &&
          Model() == (if goLeft then old(Model()).(left := t) else old(Model()).(right := t)) &&
          (if goLeft then left.NodeAt(start) else right.NodeAt(start)) == found
      decreases k - 1, 2
    {
      var child, other := if goLeft then left else right, if goLeft then right else left;
      ghost var same := other.Model();
      ret, found := child.FindSpace(arena, size, k - 1);
      assert other.Valid() && other.Model() == same && child.Repr !! other.Repr;
      Grow(child);
    }

    /** The footprint after a child's grew; nothing else about this node or its children changes. */
    ghost method Grow(child: Node)
      requires this in Repr && left != null && right != null && (child == left || child == right)
      requires left.Valid() && right.Valid() && left.Repr !! right.Repr && this !in left.Repr && this !in right.Repr
      requires left.isLeft && right.isRight && !isAllocated && left in Repr && right in Repr
      requires (if child == left then right else left).Repr <= Repr
      modifies this`Repr
      ensures Repr == old(Repr) + child.Repr && Valid()
      ensures left.Valid() && right.Valid() && left.Model() == old(left.Model()) && right.Model() == old(right.Model())
      ensures forall a: nat :: left.NodeAt(a) == old(left.NodeAt(a)) && right.NodeAt(a) == old(right.NodeAt(a))
    {
      Repr := Repr + child.Repr;
    }
  }
}
