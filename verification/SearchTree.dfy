/** The binary search tree as a value. Its order is reversed: what is below a node goes to the right, the rest to the
    left. */
module SearchTree {

  /** `linked` says whether the node's parent pointer names the node it hangs from. The root hangs from none, and a
      node that deletion hangs elsewhere keeps its old parent pointer. */
  datatype Tree<V> = Nil | Fork(left: Tree<V>, value: V, right: Tree<V>, linked: bool)

  type Compare<!V> = (V, V) -> int

  ghost predicate Mirrored<V>(compare: Compare<V>, a: V, b: V) { compare(a, b) < 0 <==> compare(b, a) > 0 }

  ghost predicate Transitive<V>(compare: Compare<V>, a: V, b: V, c: V) {
    compare(a, b) <= 0 && compare(b, c) <= 0 ==> compare(a, c) <= 0
  }

  /** A comparison is a total preorder. */
  ghost predicate Preorder<V(!new)>(compare: Compare<V>) {
    (forall a, b :: Mirrored(compare, a, b)) && (forall a, b, c :: Transitive(compare, a, b, c))
  }

  ghost function Elements<V>(t: Tree<V>): (m: multiset<V>) {
    match t
    case Nil => multiset{}
    case Fork(l, v, r, _) => Elements(l) + multiset{v} + Elements(r)
  }

  /** Left of a node is what the comparison does not put before it, right of it what it does. */
  ghost predicate Ordered<V(!new)>(t: Tree<V>, compare: Compare<V>) {
    t.Fork? ==>
      (forall x :: x in Elements(t.left) ==> compare(t.value, x) <= 0) &&
      (forall x :: x in Elements(t.right) ==> compare(t.value, x) > 0) &&
      Ordered(t.left, compare) && Ordered(t.right, compare)
  }

  // ----- insertion and search -----

  /** A new leaf; `linked` is what it is to be in an empty tree, where it becomes the root. */
  function Inserted<V>(t: Tree<V>, v: V, compare: Compare<V>, linked: bool): (r: Tree<V>)
    ensures r.Fork?
  {
    match t
    case Nil => Fork(Nil, v, Nil, linked)
    case Fork(l, x, r, k) =>
      if compare(x, v) <= 0 then Fork(Inserted(l, v, compare, true), x, r, k)
      else Fork(l, x, Inserted(r, v, compare, true), k)
  }

  lemma Added<V>(l: multiset<V>, x: V, r: multiset<V>, v: V)
    ensures (l + multiset{v}) + multiset{x} + r == (l + multiset{x} + r) + multiset{v}
    ensures l + multiset{x} + (r + multiset{v}) == (l + multiset{x} + r) + multiset{v}
  {
  }

  /** Insertion adds one occurrence and keeps the order. */
  lemma {:induction false} InsertKeeps<V(!new)>(t: Tree<V>, v: V, compare: Compare<V>, linked: bool)
    requires Preorder(compare) && Ordered(t, compare)
    ensures var r := Inserted(t, v, compare, linked); Elements(r) == Elements(t) + multiset{v} && Ordered(r, compare)
    decreases t
  {
    if t.Fork? {
      var l, r := Elements(t.left), Elements(t.right);
      if compare(t.value, v) <= 0 {
        InsertKeeps(t.left, v, compare, true);
        Added(l, t.value, r, v);
      } else {
        InsertKeeps(t.right, v, compare, true);
        Added(l, t.value, r, v);
      }
    }
  }

  /** The subtree whose root the search stops at. */
  function Found<V>(t: Tree<V>, v: V, compare: Compare<V>): (r: Tree<V>)
    ensures r.Fork? ==> compare(r.value, v) == 0
  {
    match t
    case Nil => Nil
    case Fork(l, x, r, _) =>
      if compare(x, v) == 0 then t else if compare(x, v) < 0 then Found(l, v, compare) else Found(r, v, compare)
  }

  /** In an ordered tree the search finds a match exactly when there is one, and what it finds is in the tree. */
  lemma {:induction false} FindIsExact<V(!new)>(t: Tree<V>, v: V, compare: Compare<V>)
    requires Preorder(compare) && Ordered(t, compare)
    ensures Found(t, v, compare).Fork? <==> exists x :: x in Elements(t) && compare(x, v) == 0
    ensures Found(t, v, compare).Fork? ==> Found(t, v, compare).value in Elements(t)
    decreases t
  {
    if t.Fork? {
      FindIsExact(t.left, v, compare);
      FindIsExact(t.right, v, compare);
      if compare(t.value, v) == 0 {
        assert t.value in Elements(t);
      }
      forall x | x in Elements(t) && compare(x, v) == 0 ensures Found(t, v, compare).Fork? {
        SideOf(t, x, v, compare);
      }
    }
  }

  /** Which side of an ordered tree holds the matches of `v`. */
  lemma {:induction false} SideOf<V(!new)>(t: Tree<V>, x: V, v: V, compare: Compare<V>)
    requires Preorder(compare) && Ordered(t, compare) && t.Fork? && x in Elements(t) && compare(x, v) == 0
    ensures compare(t.value, v) < 0 ==> x in Elements(t.left)
    ensures compare(t.value, v) > 0 ==> x in Elements(t.right)
  {
    var n := t.value;
    assert Mirrored(compare, x, v) && Mirrored(compare, v, x) && Mirrored(compare, n, x) && Mirrored(compare, x, n);
    assert Mirrored(compare, n, v) && Mirrored(compare, v, n);
    assert Transitive(compare, n, x, v) && Transitive(compare, x, v, n);
    assert Transitive(compare, v, x, n) && Transitive(compare, n, v, x);
    assert x == t.value || x in Elements(t.left) || x in Elements(t.right);
  }

  // ----- deletion -----

  /** The leftmost subtree with no left child. */
  function Leftmost<V>(t: Tree<V>): (r: Tree<V>)
    requires t.Fork?
    ensures r.Fork? && r.left.Nil?
  {
    if t.left.Nil? then t else Leftmost(t.left)
  }

  /** A subtree hung elsewhere: its root's parent pointer is not updated. */
  function Stale<V>(t: Tree<V>): (r: Tree<V>)
    ensures Elements(r) == Elements(t) && r.Fork? == t.Fork?
  {
    if t.Nil? then Nil else t.(linked := false)
  }

  /** What deletion leaves in the place of a matching node. With at most one child it writes the child into what the
      parent pointer names, so a node that is not linked, the root among them, stays where it is. */
  function Unlinked<V>(t: Tree<V>): (r: Tree<V>)
    requires t.Fork?
  {
    if t.left.Fork? && t.right.Fork?
    then Fork(t.left, Leftmost(t.right).value, Stale(Leftmost(t.right).right), t.linked)
    else if !t.linked then t
    else Stale(if t.left.Nil? then t.right else t.left)
  }

  function Deleted<V>(t: Tree<V>, v: V, compare: Compare<V>): (r: Tree<V>)
    ensures t.Fork? && !t.linked ==> r.Fork? && !r.linked
  {
    match t
    case Nil => Nil
    case Fork(l, x, r, k) =>
      if compare(x, v) == 0 then Unlinked(t)
      else if compare(x, v) < 0 then Fork(Deleted(l, v, compare), x, r, k)
      else Fork(l, x, Deleted(r, v, compare), k)
  }

  /** The subtree that deletion hangs elsewhere. */
  function Moved<V>(t: Tree<V>): (r: Tree<V>)
    requires t.Fork?
  {
    if t.left.Fork? && t.right.Fork? then Leftmost(t.right).right
    else if !t.linked then Nil
    else if t.left.Nil? then t.right
    else t.left
  }

  /** Every node below the root is linked. */
  predicate LinkedBelow<V>(t: Tree<V>) {
    t.Fork? ==>
      (t.left.Fork? ==> t.left.linked) && (t.right.Fork? ==> t.right.linked) && LinkedBelow(t.left) &&
      LinkedBelow(t.right)
  }

  /** In a tree where all nodes are linked, deletion leaves them so exactly when it hangs no subtree elsewhere. */
  lemma {:induction false} DeleteKeepsLinks<V>(t: Tree<V>, v: V, compare: Compare<V>)
    requires LinkedBelow(t)
    ensures var f, r := Found(t, v, compare), Deleted(t, v, compare);
      (LinkedBelow(r) && (t.Fork? && t.linked && r.Fork? ==> r.linked)) <==> (f.Nil? || Moved(f).Nil?)
    decreases t
  {
    if t.Fork? {
      if compare(t.value, v) == 0 {
        if t.left.Fork? && t.right.Fork? { LeftmostLinked(t.right); }
      } else {
        DeleteKeepsLinks(if compare(t.value, v) < 0 then t.left else t.right, v, compare);
      }
    }
  }

  lemma {:induction false} LeftmostLinked<V>(t: Tree<V>)
    requires t.Fork? && LinkedBelow(t)
    ensures LinkedBelow(Leftmost(t))
    decreases t
  {
    if t.left.Fork? {
      LeftmostLinked(t.left);
    }
  }

  /** Elements of the leftmost subtree, and how many there are. */
  lemma {:induction false} LeftmostElements<V(!new)>(t: Tree<V>, compare: Compare<V>)
    requires t.Fork?
    ensures Elements(Leftmost(t)) <= Elements(t) && (t.left.Fork? ==> |Elements(Leftmost(t))| < |Elements(t)|)
    ensures Elements(Leftmost(t)) == multiset{Leftmost(t).value} + Elements(Leftmost(t).right)
    ensures Ordered(t, compare) ==> Ordered(Leftmost(t), compare)
    decreases t
  {
    if t.left.Fork? {
      LeftmostElements(t.left, compare);
      assert |Elements(t)| == |Elements(t.left)| + 1 + |Elements(t.right)|;
    }
  }

  /** Every element of the result was there before; and the order is kept, whatever was lost. */
  lemma {:induction false} UnlinkedKeepsOrder<V(!new)>(t: Tree<V>, compare: Compare<V>)
    requires Preorder(compare) && Ordered(t, compare) && t.Fork?
    ensures Elements(Unlinked(t)) <= Elements(t) && Ordered(Unlinked(t), compare)
  {
    if t.left.Fork? && t.right.Fork? {
      LeftmostSplits(t, compare);
      SuccessorOrdered(t, compare);
    }
  }

  lemma StaleOrdered<V(!new)>(t: Tree<V>, compare: Compare<V>)
    requires Ordered(t, compare)
    ensures Ordered(Stale(t), compare)
  {
  }

  /** The leftmost value of the right subtree comes after the root and so before what is on its left. */
  lemma {:induction false} SuccessorFirst<V(!new)>(t: Tree<V>, x: V, y: V, compare: Compare<V>)
    requires Preorder(compare) && Ordered(t, compare) && t.Fork? && x in Elements(t.right) && y in Elements(t.left)
    ensures compare(x, y) <= 0
  {
    var n := t.value;
    assert compare(n, x) > 0 && compare(n, y) <= 0;
    assert Mirrored(compare, x, n) && Transitive(compare, x, n, y);
  }

  /** It can take the place of the root. */
  lemma {:induction false} SuccessorOrdered<V(!new)>(t: Tree<V>, compare: Compare<V>)
    requires Preorder(compare) && Ordered(t, compare) && t.Fork? && t.left.Fork? && t.right.Fork?
    ensures Ordered(Unlinked(t), compare)
  {
    var m := Leftmost(t.right);
    LeftmostElements(t.right, compare);
    LeftmostSplits(t, compare);
    StaleOrdered(m.right, compare);
    forall x | x in Elements(t.left) ensures compare(m.value, x) <= 0 {
      SuccessorFirst(t, m.value, x, compare);
    }
  }

  /** What a node with two children becomes. */
  lemma {:induction false} LeftmostSplits<V(!new)>(t: Tree<V>, compare: Compare<V>)
    requires t.Fork? && t.left.Fork? && t.right.Fork?
    ensures var m, after := Leftmost(t.right), Elements(Unlinked(t));
      m.value in Elements(t.right) && Elements(m.right) <= Elements(t.right) &&
      after == Elements(t.left) + Elements(m) && after <= Elements(t) && |after| == |Elements(t.left)| + |Elements(m)|
  {
    var m := Leftmost(t.right);
    LeftmostElements(t.right, compare);
    var l, r, e, x := Elements(t.left), Elements(t.right), Elements(m.right), m.value;
    Replaced(l, x, e, r, t.value);
  }

  lemma {:induction false} Replaced<V>(l: multiset<V>, x: V, e: multiset<V>, r: multiset<V>, y: V)
    requires multiset{x} + e <= r
    ensures l + multiset{x} + e == l + (multiset{x} + e) && l + multiset{x} + e <= l + multiset{y} + r
    ensures e <= r && x in r && |l + (multiset{x} + e)| == |l| + |multiset{x} + e|
  {
    assert x in multiset{x} + e;
  }

  lemma {:induction false} DeleteKeepsOrder<V(!new)>(t: Tree<V>, v: V, compare: Compare<V>)
    requires Preorder(compare) && Ordered(t, compare)
    ensures Elements(Deleted(t, v, compare)) <= Elements(t) && Ordered(Deleted(t, v, compare), compare)
    decreases t
  {
    if t.Fork? {
      if compare(t.value, v) == 0 {
        UnlinkedKeepsOrder(t, compare);
      } else if compare(t.value, v) < 0 {
        DeleteKeepsOrder(t.left, v, compare);
      } else {
        DeleteKeepsOrder(t.right, v, compare);
      }
    }
  }

  /** The cases that deletion handles: a node with at most one child that is linked, and a node with two children whose
      right child has no left child. */
  predicate Handled<V>(t: Tree<V>)
    requires t.Fork?
  {
    if t.left.Fork? && t.right.Fork? then t.right.left.Nil? else t.linked
  }

  /** The matching node goes, and nothing else, exactly in the cases that deletion handles. */
  lemma {:induction false} UnlinkedIsExact<V(!new)>(t: Tree<V>, compare: Compare<V>)
    requires t.Fork?
    ensures Elements(Unlinked(t)) == Elements(t) - multiset{t.value} <==> Handled(t)
  {
    var l, r := Elements(t.left), Elements(t.right);
    Without(l, t.value, r);
    if t.left.Fork? && t.right.Fork? {
      LeftmostElements(t.right, compare);
      LeftmostSplits(t, compare);
    } else {
      assert l == multiset{} || r == multiset{};
    }
  }

  lemma Without<V>(l: multiset<V>, x: V, r: multiset<V>)
    ensures l + multiset{x} + r - multiset{x} == l + r && |l + multiset{x} + r| == |l + r| + 1 && |l + r| == |l| + |r|
  {
  }

  /** Deletion removes exactly the occurrence that the search finds if and only if that node is in one of the cases
      it handles; if there is no match it changes nothing. */
  lemma {:induction false} DeleteIsExact<V(!new)>(t: Tree<V>, v: V, compare: Compare<V>)
    ensures var f := Found(t, v, compare);
      if f.Nil? then Deleted(t, v, compare) == t
      else Elements(Deleted(t, v, compare)) == Elements(t) - multiset{f.value} <==> Handled(f)
    decreases t
  {
    if t.Fork? {
      if compare(t.value, v) == 0 {
        UnlinkedIsExact(t, compare);
      } else {
        var below := if compare(t.value, v) < 0 then t.left else t.right;
        var other := if compare(t.value, v) < 0 then t.right else t.left;
        var f := Found(below, v, compare);
        DeleteIsExact(below, v, compare);
        if f.Fork? {
          FoundIn(below, v, compare);
          var d := Elements(Deleted(below, v, compare));
          Regroup(Elements(below), t.value, Elements(other));
          Regroup(d, t.value, Elements(other));
          RemoveFromSum(d, Elements(below), multiset{t.value} + Elements(other), f.value);
        }
      }
    }
  }

  lemma Regroup<V>(a: multiset<V>, x: V, b: multiset<V>)
    ensures a + multiset{x} + b == a + (multiset{x} + b) && b + multiset{x} + a == a + (multiset{x} + b)
  {
  }

  lemma {:induction false} RemoveFromSum<V>(d: multiset<V>, a: multiset<V>, b: multiset<V>, x: V)
    requires x in a
    ensures d + b == a + b - multiset{x} <==> d == a - multiset{x}
  {
    assert a + b - multiset{x} == (a - multiset{x}) + b;
    if d + b == (a - multiset{x}) + b {
      assert (d + b) - b == d;
      assert ((a - multiset{x}) + b) - b == a - multiset{x};
    }
  }

  lemma {:induction false} FoundIn<V>(t: Tree<V>, v: V, compare: Compare<V>)
    requires Found(t, v, compare).Fork?
    ensures Found(t, v, compare).value in Elements(t)
    decreases t
  {
    if compare(t.value, v) != 0 {
      FoundIn(if compare(t.value, v) < 0 then t.left else t.right, v, compare);
    }
  }

  // ----- runs -----

  datatype Op<V> = Insert(value: V) | Delete(value: V)

  /** Operations on a whole tree, whose root is not linked. */
  function Applied<V>(t: Tree<V>, op: Op<V>, compare: Compare<V>): (r: Tree<V>)
    ensures (t.Fork? ==> !t.linked) ==> (r.Fork? ==> !r.linked)
  {
    match op
    case Insert(v) => Inserted(t, v, compare, false)
    case Delete(v) => Deleted(t, v, compare)
  }

  function Ran<V>(t: Tree<V>, ops: seq<Op<V>>, compare: Compare<V>): (r: Tree<V>)
    ensures (t.Fork? ==> !t.linked) ==> (r.Fork? ==> !r.linked)
    decreases |ops|
  {
    if ops == [] then t else Applied(Ran(t, ops[..|ops| - 1], compare), ops[|ops| - 1], compare)
  }

  /** The deletion is of a match in one of the cases handled, or of a value with no match. */
  predicate OpHandled<V>(t: Tree<V>, op: Op<V>, compare: Compare<V>) {
    op.Delete? && Found(t, op.value, compare).Fork? ==> Handled(Found(t, op.value, compare))
  }

  predicate AllHandled<V>(t: Tree<V>, ops: seq<Op<V>>, compare: Compare<V>)
    decreases |ops|
  {
    ops == [] ||
    (AllHandled(t, ops[..|ops| - 1], compare) &&
     OpHandled(Ran(t, ops[..|ops| - 1], compare), ops[|ops| - 1], compare))
  }

  /** What should be in the tree after a run, one occurrence per insertion, less one match per deletion. */
  ghost function Expected<V>(t: Tree<V>, ops: seq<Op<V>>, compare: Compare<V>): (m: multiset<V>)
    decreases |ops|
  {
    if ops == [] then Elements(t)
    else
      var before, m := Ran(t, ops[..|ops| - 1], compare), Expected(t, ops[..|ops| - 1], compare);
      match ops[|ops| - 1]
      case Insert(v) => m + multiset{v}
      case Delete(v) => (if Found(before, v, compare).Fork? then m - multiset{Found(before, v, compare).value} else m)
  }

  /** After every operation of the run the tree holds what it should. */
  ghost predicate AlwaysExpected<V>(t: Tree<V>, ops: seq<Op<V>>, compare: Compare<V>)
    decreases |ops|
  {
    Elements(Ran(t, ops, compare)) == Expected(t, ops, compare) &&
    (ops == [] || AlwaysExpected(t, ops[..|ops| - 1], compare))
  }

  /** Over any run of insertions and deletions the order is kept; the tree holds what it should after every operation
      if and only if all deletions are handled. */
  lemma {:induction false} RunsKeepOrder<V(!new)>(t: Tree<V>, ops: seq<Op<V>>, compare: Compare<V>)
    requires Preorder(compare) && Ordered(t, compare)
    ensures Ordered(Ran(t, ops, compare), compare)
    ensures AlwaysExpected(t, ops, compare) <==> AllHandled(t, ops, compare)
    decreases |ops|
  {
    if ops != [] {
      var before, op := Ran(t, ops[..|ops| - 1], compare), ops[|ops| - 1];
      RunsKeepOrder(t, ops[..|ops| - 1], compare);
      match op
      case Insert(v) =>
        InsertKeeps(before, v, compare, false);
      case Delete(v) =>
        DeleteKeepsOrder(before, v, compare);
        DeleteIsExact(before, v, compare);
    }
  }

  /** After any run of insertions from the empty tree, a value is found exactly when a match was inserted. */
  lemma {:induction false} FoundIffInserted<V(!new)>(values: seq<V>, v: V, compare: Compare<V>)
    requires Preorder(compare)
    ensures var ops := seq(|values|, i requires 0 <= i < |values| => Insert(values[i]));
      Found(Ran(Nil, ops, compare), v, compare).Fork? <==> exists x :: x in values && compare(x, v) == 0
  {
    var ops := seq(|values|, i requires 0 <= i < |values| => Insert(values[i]));
    InsertsExpected(values, ops, compare);
    RunsKeepOrder(Nil, ops, compare);
    FindIsExact(Ran(Nil, ops, compare), v, compare);
    assert forall x :: x in values <==> x in multiset(values);
  }

  lemma {:induction false} InsertsExpected<V>(values: seq<V>, ops: seq<Op<V>>, compare: Compare<V>)
    requires |ops| == |values| && forall i :: 0 <= i < |ops| ==> ops[i] == Insert(values[i])
    ensures AllHandled(Nil, ops, compare) && Expected(Nil, ops, compare) == multiset(values)
    decreases |ops|
  {
    if ops != [] {
      var n := |ops| - 1;
      InsertsExpected(values[..n], ops[..n], compare);
      assert values == values[..n] + [values[n]];
    }
  }

  // ----- deletions that are not handled -----

  /** A comparison of numbers. */
  function Difference(): (compare: Compare<int>) { (a, b) => a - b }

  lemma DifferenceIsPreorder()
    ensures Preorder(Difference())
  {
  }

  /** Insert 10, 20 and 30, delete 20, delete 30: deleting 20 hangs 30 from 10 without updating its parent pointer, so
      deleting 30 removes nothing, though it is a leaf below the root. */
  lemma {:induction false} StaleNodeStays()
    ensures var before, compare := Fork(Fork(Fork(Nil, 30, Nil, true), 20, Nil, true), 10, Nil, false), Difference();
      Inserted(Inserted(Inserted(Nil, 10, compare, false), 20, compare, false), 30, compare, false) == before &&
      var t := Deleted(before, 20, compare);
      Deleted(t, 30, compare) == t && Elements(t) == multiset{10, 30} &&
      Found(t, 30, compare) == Fork(Nil, 30, Nil, false)
  {
    var leaf := Fork(Nil, 30, Nil, false);
    var t := Fork(leaf, 10, Nil, false);
    assert Deleted(Fork(Fork(Fork(Nil, 30, Nil, true), 20, Nil, true), 10, Nil, false), 20, Difference()) == t;
    assert Elements(leaf) == multiset{30};
    assert Found(leaf, 30, Difference()) == leaf;
  }

  /** Deleting the only node removes nothing. */
  lemma RootStays()
    ensures var t := Inserted(Nil, 10, Difference(), false); Deleted(t, 10, Difference()) == t
  {
  }

  /** A node whose successor is deep: deleting 10 from 10, 5, 20, 2, 8 loses 5 and 2 as well. */
  lemma {:induction false} DeepSuccessorLoses()
    ensures var five := Fork(Fork(Nil, 8, Nil, true), 5, Fork(Nil, 2, Nil, true), true);
      var t := Fork(Fork(Nil, 20, Nil, true), 10, five, false);
      Deleted(t, 10, Difference()) == Fork(Fork(Nil, 20, Nil, true), 8, Nil, false) && !Handled(t)
  {
    var five := Fork(Fork(Nil, 8, Nil, true), 5, Fork(Nil, 2, Nil, true), true);
    assert Leftmost(five) == Fork(Nil, 8, Nil, true);
  }
}
