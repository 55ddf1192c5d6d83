/** The binary search tree of `tree.c`: linked nodes with parent pointers and side flags. */
module SearchNodes {
  import opened SearchTree

  class Node<V> {
    var left: Node?<V>
    var right: Node?<V>
    var parent: Node?<V>
    var value: V
    var isLeft: bool
    var isRight: bool
    /** Holds this node and those below it. */
    ghost var Repr: set<Node<V>>

    /** A zeroed node with a value. */
    constructor (value: V)
      ensures Valid() && Repr == {this} && Model(null) == Fork(Nil, value, Nil, false) && this.value == value
      ensures left == null && right == null && parent == null && !isLeft && !isRight
    {
      this.value := value;
      left, right, parent, isLeft, isRight := null, null, null, false, false;
      Repr := {this};
    }

    /** The nodes below form a tree. */
    ghost predicate Valid()
      reads this, Repr
      decreases Repr
    {
      this in Repr &&
      (left != null ==> left in Repr && left.Repr <= Repr && this !in left.Repr && left.Valid()) &&
      (right != null ==> right in Repr && right.Repr <= Repr && this !in right.Repr && right.Valid()) &&
      (left != null && right != null ==> left.Repr !! right.Repr)
    }

    /** Below this node each parent pointer names the node above, and then the flags are right too; or it names a node
        of `gone`, the nodes that deletions took out of the tree. */
    ghost predicate LinksOk(gone: set<Node<V>>)
      requires Valid()
      reads this, Repr
      decreases Repr
    {
      (left != null ==> left.LinkOk(this, true, gone) && left.LinksOk(gone)) &&
      (right != null ==> right.LinkOk(this, false, gone) && right.LinksOk(gone))
    }

    /** The same for this node, which hangs from `up` on one side. */
    ghost predicate LinkOk(up: Node<V>, goLeft: bool, gone: set<Node<V>>)
      reads this
    {
      if parent == up then isLeft == goLeft && isRight == !goLeft else parent != null && parent in gone
    }

    /** The tree below this node, which hangs from `up`, or from none. */
    ghost function Model(up: Node?<V>): (t: Tree<V>)
      requires Valid()
      reads this, Repr
      ensures t.Fork? && t.value == value
      decreases Repr
    {
      Fork(if left == null then Nil else left.Model(this), value, if right == null then Nil else right.Model(this),
           up != null && parent == up)
    }
  }

  ghost function ReprOf<V>(node: Node?<V>): (s: set<Node<V>>)
    reads node
  {
    if node == null then {} else node.Repr
  }

  ghost function ModelOf<V>(node: Node?<V>, up: Node?<V>): (t: Tree<V>)
    requires node != null ==> node.Valid()
    reads node, if node == null then {} else node.Repr
  {
    if node == null then Nil else node.Model(up)
  }

  /** The child on one side. */
  function Child<V>(up: Node<V>, goLeft: bool): (c: Node?<V>)
    reads up
  {
    if goLeft then up.left else up.right
  }

  /** More nodes may be gone. */
  lemma {:induction false} LinksGrow<V>(n: Node<V>, gone: set<Node<V>>, more: set<Node<V>>)
    requires n.Valid() && n.LinksOk(gone) && gone <= more
    ensures n.LinksOk(more)
    decreases n.Repr
  {
    if n.left != null { LinksGrow(n.left, gone, more); }
    if n.right != null { LinksGrow(n.right, gone, more); }
  }

  // ----- insertion and search -----

  /** A new leaf on a free side. */
  method Attach<V>(node: Node<V>, newNode: Node<V>, goLeft: bool, ghost up: Node?<V>, ghost gone: set<Node<V>>)
    requires node.Valid() && node.LinksOk(gone) && newNode !in node.Repr
    requires newNode.left == null && newNode.right == null && Child(node, goLeft) == null
    modifies node, newNode
    ensures node.Valid() && node.LinksOk(gone) && node.Repr == old(node.Repr) + {newNode}
    ensures var leaf := Fork(Nil, old(newNode.value), Nil, true);
      node.Model(up) == if goLeft then old(node.Model(up)).(left := leaf) else old(node.Model(up)).(right := leaf)
    ensures node.parent == old(node.parent) && node.isLeft == old(node.isLeft) && node.isRight == old(node.isRight)
  {
    if goLeft {
      node.left := newNode;
    } else {
      node.right := newNode;
    }
    newNode.parent := node;
    newNode.isLeft, newNode.isRight := goLeft, !goLeft;
    newNode.Repr := {newNode};
    node.Repr := node.Repr + {newNode};
  }

  /** `__binary_tree_node_insert`. */
  method NodeInsert<V>(node: Node<V>, newNode: Node<V>, compare: Compare<V>, ghost up: Node?<V>,
                       ghost gone: set<Node<V>>)
    requires node.Valid() && node.LinksOk(gone) && newNode !in node.Repr
    requires newNode.left == null && newNode.right == null
    modifies node.Repr, newNode
    ensures node.Valid() && node.LinksOk(gone) && node.Repr == old(node.Repr) + {newNode}
    ensures node.Model(up) == Inserted(old(node.Model(up)), old(newNode.value), compare, true)
    ensures node.parent == old(node.parent) && node.isLeft == old(node.isLeft) && node.isRight == old(node.isRight)
    decreases node.Repr
  {
    if compare(node.value, newNode.value) <= 0 {
      if node.left == null {
        Attach(node, newNode, true, up, gone);
      } else {
        NodeInsert(node.left, newNode, compare, node, gone);
        node.Repr := node.Repr + {newNode};
      }
    } else {
      if node.right == null {
        Attach(node, newNode, false, up, gone);
      } else {
        NodeInsert(node.right, newNode, compare, node, gone);
        node.Repr := node.Repr + {newNode};
      }
    }
  }

  /** `__binary_tree_node_find`; `at` is where the node found hangs from. */
  method NodeFind<V>(node: Node?<V>, value: V, compare: Compare<V>, ghost up: Node?<V>)
    returns (found: Node?<V>, ghost at: Node?<V>)
    requires node != null ==> node.Valid()
    ensures found != null ==> node != null && found in node.Repr && found.Valid()
    ensures ModelOf(found, at) == Found(ModelOf(node, up), value, compare)
    decreases ReprOf(node)
  {
    at := up;
    if node == null {
      return null, at;
    }
    var order := compare(node.value, value);
    if order == 0 {
      found := node;
    } else if order < 0 {
      found, at := NodeFind(node.left, value, compare, node);
    } else {
      found, at := NodeFind(node.right, value, compare, node);
    }
  }

  // ----- deletion -----

  /** The loop that looks for the leftmost node; `at` is where it hangs from. */
  method FindLeftmost<V>(start: Node<V>, ghost up: Node<V>, ghost gone: set<Node<V>>)
    returns (current: Node<V>, ghost at: Node<V>)
    requires start.Valid() && start.LinksOk(gone)
    ensures current.Valid() && current in start.Repr && current.Repr <= start.Repr && current.left == null
    ensures current.LinksOk(gone) && current.Model(at) == Leftmost(start.Model(up))
  {
    current, at := start, up;
    while current.left != null
      invariant current.Valid() && current in start.Repr && current.Repr <= start.Repr && current.LinksOk(gone)
      invariant Leftmost(current.Model(at)) == Leftmost(start.Model(up))
      decreases current.Repr
    {
      current, at := current.left, current;
    }
  }

  /** A new value, and on the right a subtree from further down, without its parent pointer. */
  method Rehang<V>(node: Node<V>, value: V, c: Node?<V>, ghost up: Node?<V>, ghost dropped: set<Node<V>>,
                   ghost gone: set<Node<V>>)
    requires node.Valid() && node.left != null && node.left.LinkOk(node, true, gone) && node.left.LinksOk(gone)
    requires node !in dropped && dropped !! node.left.Repr
    requires c != null ==> c.Valid() && c.LinksOk(gone) && c.Repr <= node.Repr - dropped - node.left.Repr - {node}
    requires c != null ==> c in c.Repr && c.parent != null && c.parent in gone && c.parent != node
    modifies node
    ensures node.Valid() && node.Repr == old(node.Repr) - dropped && node.LinksOk(gone)
    ensures var t := old(node.Model(up)); node.Model(up) == Fork(t.left, value, old(ModelOf(c, null)), t.linked)
    ensures node.parent == old(node.parent) && node.isLeft == old(node.isLeft) && node.isRight == old(node.isRight)
  {
    node.value := value;
    node.right := c;
    node.Repr := node.Repr - dropped;
  }

  /** The part of `__binary_tree_node_delete` for a node with two children: its value and right child become those of
      the leftmost node on its right. That node's right child keeps its old parent pointer. */
  method ReplaceBySuccessor<V>(node: Node<V>, ghost up: Node?<V>, ghost gone: set<Node<V>>)
    returns (ghost dropped: set<Node<V>>)
    requires node.Valid() && node.LinksOk(gone) && gone !! node.Repr && node.left != null && node.right != null
    modifies node
    ensures node.Valid() && dropped <= old(node.Repr) - {node} && node.Repr == old(node.Repr) - dropped
    ensures node.LinksOk(gone + dropped) && node.Model(up) == Unlinked(old(node.Model(up)))
    ensures node.parent == old(node.parent) && node.isLeft == old(node.isLeft) && node.isRight == old(node.isRight)
  {
    ghost var at;
    var current;
    current, at := FindLeftmost(node.right, node, gone);
    dropped := node.right.Repr - ReprOf(current.right);
    LinksGrow(node.left, gone, gone + dropped);
    if current.right != null { LinksGrow(current.right, gone, gone + dropped); }
    assert ModelOf(current.right, null) == Stale(current.Model(at).right);
    Rehang(node, current.value, current.right, up, dropped, gone + dropped);
  }

  /** What a call on one side of `up` promises about `up`. */
  twostate predicate SideDone<V>(up: Node<V>, goLeft: bool, d: Tree<V>, new gone: set<Node<V>>,
                                 new dropped: set<Node<V>>)
    requires old(up.Valid())
    reads up, up.Repr
  {
    up.Valid() && dropped <= old(up.Repr) - {up} && up.Repr == old(up.Repr) - dropped && up.LinksOk(gone + dropped) &&
    up.parent == old(up.parent) && up.isLeft == old(up.isLeft) && up.isRight == old(up.isRight) &&
    var t := old(up.Model(null)); up.Model(null) == if goLeft then t.(left := d) else t.(right := d)
  }

  /** The part of `__binary_tree_node_delete` for a node with at most one child. What the parent pointer names gets that
      child, on the side of the node's flags; if the pointer is out of date, that is a node no longer in the tree. */
  method Bypass<V>(node: Node<V>, ghost up: Node<V>, ghost goLeft: bool, ghost gone: set<Node<V>>)
    returns (ghost dropped: set<Node<V>>)
    requires up.Valid() && up.LinksOk(gone) && gone !! up.Repr && Child(up, goLeft) == node
    requires node.left == null || node.right == null
    modifies node.parent
    ensures SideDone(up, goLeft, Unlinked(old(node.Model(up))), gone, dropped)
  {
    var parent := node.parent;
    var child := if node.left == null then node.right else node.left;
    dropped := if parent == up then {node} else {};
    LinksGrow(up, gone, gone + dropped);
    if node.isLeft {
      parent.left := child;
    } else if node.isRight {
      parent.right := child;
    }
    if parent == up {
      up.Repr := up.Repr - {node};
    }
  }

  /** What a call on the whole tree promises about its root. */
  twostate predicate NodeDone<V>(node: Node<V>, up: Node?<V>, d: Tree<V>, new gone: set<Node<V>>,
                                 new dropped: set<Node<V>>)
    requires old(node.Valid())
    reads node, node.Repr
  {
    node.Valid() && dropped <= old(node.Repr) - {node} && node.Repr == old(node.Repr) - dropped &&
    node.LinksOk(gone + dropped) && node.Model(up) == d &&
    node.parent == old(node.parent) && node.isLeft == old(node.isLeft) && node.isRight == old(node.isRight)
  }

  /** `__binary_tree_node_delete` on the child of `up` on one side, or on the root of the tree. */
  method NodeDelete<V>(node: Node?<V>, value: V, compare: Compare<V>, ghost up: Node?<V>, ghost goLeft: bool,
                       ghost gone: set<Node<V>>)
    returns (ghost dropped: set<Node<V>>)
    requires up == null && node != null ==>
      node.Valid() && node.LinksOk(gone) && gone !! node.Repr && !node.isLeft && !node.isRight
    requires up != null ==> up.Valid() && up.LinksOk(gone) && gone !! up.Repr && Child(up, goLeft) == node
    modifies if up != null then up.Repr else ReprOf(node), gone
    ensures up == null ==>
      if node == null then dropped == {}
      else NodeDone(node, null, Deleted(old(node.Model(null)), value, compare), gone, dropped)
    ensures up != null ==> SideDone(up, goLeft, Deleted(old(ModelOf(node, up)), value, compare), gone, dropped)
    decreases ReprOf(node), 1
  {
    dropped := {};
    assert gone + dropped == gone;
    if node == null {
      return;
    }
    var order := compare(node.value, value);
    if order == 0 && (node.left == null || node.right == null) {
      if node.isLeft || node.isRight {
        dropped := Bypass(node, up, goLeft, gone);
      }
    } else {
      dropped := DeleteInside(node, order, value, compare, up, gone);
      if up != null {
        Lift(up, goLeft, node, gone, dropped);
      }
    }
  }

  /** What is gone below a child is gone below its parent. */
  ghost method Lift<V>(up: Node<V>, goLeft: bool, node: Node<V>, gone: set<Node<V>>, dropped: set<Node<V>>)
    requires up in up.Repr && Child(up, goLeft) == node && node in up.Repr && node.Valid() && up !in node.Repr &&
      up !in dropped
    requires node.LinksOk(gone + dropped) && node.LinkOk(up, goLeft, gone + dropped) && node.Repr <= up.Repr - dropped
    requires var other := Child(up, !goLeft); other != null ==>
      other.Valid() && other in up.Repr && other.Repr <= up.Repr - dropped && up !in other.Repr &&
      node.Repr !! other.Repr &&
      other.LinksOk(gone) && other.LinkOk(up, !goLeft, gone)
    modifies up`Repr
    ensures up.Repr == old(up.Repr) - dropped && up.Valid() && up.LinksOk(gone + dropped)
    ensures node.Valid() && node.Model(up) == old(node.Model(up))
    ensures var other := Child(up, !goLeft); other != null ==> other.Valid() && other.Model(up) == old(other.Model(up))
  {
    var other := Child(up, !goLeft);
    if other != null { LinksGrow(other, gone, gone + dropped); }
    up.Repr := up.Repr - dropped;
  }

  /** The part of `__binary_tree_node_delete` that leaves the node in its place. */
  method DeleteInside<V>(node: Node<V>, order: int, value: V, compare: Compare<V>, ghost up: Node?<V>,
                         ghost gone: set<Node<V>>)
    returns (ghost dropped: set<Node<V>>)
    requires node.Valid() && node.LinksOk(gone) && gone !! node.Repr && order == compare(node.value, value)
    requires order == 0 ==> node.left != null && node.right != null
    modifies node.Repr, gone
    ensures NodeDone(node, up, Deleted(old(node.Model(up)), value, compare), gone, dropped)
    decreases node.Repr, 0
  {
    if order == 0 {
      dropped := ReplaceBySuccessor(node, up, gone);
    } else if order < 0 {
      dropped := NodeDelete(node.left, value, compare, node, true, gone);
    } else {
      dropped := NodeDelete(node.right, value, compare, node, false, gone);
    }
  }

  // ----- the tree -----

  /** `binary_tree_t`. */
  class BinaryTree<V(!new)> {
    var root: Node?<V>
    const compare: Compare<V>
    /** The nodes that deletions took out of the tree. */
    ghost var gone: set<Node<V>>

    constructor (compare: Compare<V>)
      ensures Shaped() && Model() == Nil && this.compare == compare && gone == {}
    {
      root := null;
      this.compare := compare;
      gone := {};
    }

    /** A tree whose root is on no side, and whose parent pointers name the node above or one that is gone. */
    ghost predicate Shaped()
      reads this, root, if root == null then {} else root.Repr
    {
      root != null ==>
        root.Valid() && root.LinksOk(gone) && gone !! root.Repr && !root.isLeft && !root.isRight
    }

    ghost function Model(): (t: Tree<V>)
      requires Shaped()
      reads this, root, if root == null then {} else root.Repr
    {
      ModelOf(root, null)
    }

    /** `binary_tree_insert`, of a node that neither is nor was in the tree. The first node becomes the root as it is,
        so
        it must be on no side. */
    method Insert(newNode: Node<V>)
      requires Shaped() && newNode !in ReprOf(root) + gone && newNode.left == null && newNode.right == null
      requires root == null ==> !newNode.isLeft && !newNode.isRight
      modifies this`root, newNode, ReprOf(root)
      ensures Shaped() && Model() == Inserted(old(Model()), old(newNode.value), compare, false)
      ensures ReprOf(root) == old(ReprOf(root)) + {newNode}
    {
      if root == null {
        root := newNode;
        newNode.Repr := {newNode};
      } else {
        NodeInsert(root, newNode, compare, null, gone);
      }
    }

    /** `binary_tree_find` in a tree that is in order: a node whose value matches, exactly when some value in the tree
        matches. */
    method Find(value: V) returns (found: Node?<V>)
      requires Shaped() && Preorder(compare) && Ordered(Model(), compare)
      ensures found == null <==> !exists x :: x in Elements(Model()) && compare(x, value) == 0
      ensures found != null ==> found in ReprOf(root) && found.Valid()
      ensures found != null ==> compare(found.value, value) == 0 && found.value in Elements(Model())
    {
      FindIsExact(Model(), value, compare);
      ghost var at;
      found, at := NodeFind(root, value, compare, null);
    }

    /** `binary_tree_delete`. */
    method Delete(value: V)
      requires Shaped()
      modifies this`gone, ReprOf(root), gone
      ensures Shaped() && root == old(root) && Model() == Deleted(old(Model()), value, compare)
      ensures ReprOf(root) + gone == old(ReprOf(root) + gone)
    {
      NoMatch(Model(), value, compare);
      ghost var at;
      var node;
      node, at := NodeFind(root, value, compare, null);
      if node == null {
        return;
      }
      ghost var dropped := NodeDelete(root, value, compare, null, true, gone);
      gone := gone + dropped;
    }
  }

  lemma {:induction false} NoMatch<V>(t: Tree<V>, v: V, compare: Compare<V>)
    ensures Found(t, v, compare).Nil? ==> Deleted(t, v, compare) == t
    decreases t
  {
    if t.Fork? && compare(t.value, v) != 0 {
      NoMatch(if compare(t.value, v) < 0 then t.left else t.right, v, compare);
    }
  }

  /** The run of `StaleNodeStays` on linked nodes: 10, 20 and 30 are inserted, 20 is deleted, then 30, which stays. */
  method StaleRun(a: Node<int>, b: Node<int>, c: Node<int>) returns (tree: BinaryTree<int>)
    requires a.value == 10 && a.left == null && a.right == null && !a.isLeft && !a.isRight
    requires b.value == 20 && b.left == null && b.right == null && c.value == 30 && c.left == null && c.right == null
    requires a != b && b != c && a != c
    modifies a, b, c
    ensures tree.Shaped() && Elements(tree.Model()) == multiset{10, 30}
  {
    tree := new BinaryTree(Difference());
    InsertThree(tree, a, b, c);
    DeleteTwo(tree, 20, 30);
    StaleNodeStays();
  }

  method DeleteTwo(tree: BinaryTree<int>, x: int, y: int)
    requires tree.Shaped()
    modifies tree`gone, ReprOf(tree.root), tree.gone
    ensures tree.Shaped() && tree.Model() == Deleted(Deleted(old(tree.Model()), x, tree.compare), y, tree.compare)
  {
    tree.Delete(x);
    tree.Delete(y);
  }

  method InsertThree(tree: BinaryTree<int>, a: Node<int>, b: Node<int>, c: Node<int>)
    requires tree.Shaped() && tree.root == null && tree.gone == {} && a != b && b != c && a != c
    requires a.left == null && a.right == null && !a.isLeft && !a.isRight
    requires b.left == null && b.right == null && c.left == null && c.right == null
    modifies tree`root, a, b, c
    ensures tree.Shaped() && tree.gone == {} && ReprOf(tree.root) == {a, b, c}
    ensures var compare, x, y, z := tree.compare, old(a.value), old(b.value), old(c.value);
      tree.Model() == Inserted(Inserted(Inserted(Nil, x, compare, false), y, compare, false), z, compare, false)
  {
    tree.Insert(a);
    tree.Insert(b);
    tree.Insert(c);
  }
}
