/**
 * AVLTree: a binary search tree that recomputes subtree heights and
 * rebalances with single or double rotations on the way back up from an
 * insert or a remove, counting every rotation.
 *
 * The node type is BSTNode, so the shape is BinTree.Tree and heights are
 * recomputed with BinTree.Height, exactly as the class's `height` helper does.
 */
module AVLTree {
  import opened Outcome
  import opened BinTree

  /** The tree object: its root and the rotation counter. */
  datatype AVL<T> = AVL(root: Tree<T>, rotationCount: int)

  /** Every node's subtrees differ in height by at most one. */
  ghost predicate Balanced<T>(t: Tree<T>) {
    match t
    case Nil => true
    case Node(l, _, r) => Balanced(l) && Balanced(r) && -1 <= Height(l) - Height(r) <= 1
  }

  /**
   * The constructor sets the root to null and never initialises the rotation
   * counter; `garbage` stands for whatever value it starts with.
   */
  function New<T>(garbage: int): AVL<T> {
    AVL(Nil, garbage)
  }

  /** A new tree is empty, and its rotation counter keeps whatever value it started with. */
  lemma NewEmpty<T>(s: AVL<T>, garbage: int)
    requires s == New(garbage)
    ensures s.root == Nil && s.rotationCount == garbage
    ensures Size(s.root) == 0 && Height(s.root) == 0
  {
  }

  // ---------------------------------------------------------------------
  // Rotations and rebalancing
  // ---------------------------------------------------------------------

  /** rotateRight: the left child becomes the subtree root; counts one rotation. */
  function RotateRight<T>(t: Tree<T>, count: int): (r: Result<(Tree<T>, int)>)
    requires t.Node?
    ensures r.Err? <==> t.left.Nil?
    ensures r.Err? ==> r.msg == "Can't rotate right with null left child."
    ensures r.Ok? ==> r.value.0.Node? && InOrder(r.value.0) == InOrder(t) && r.value.1 == count + 1
  {
    if t.left.Nil? then Err("Can't rotate right with null left child.")
    else
      var Node(a, x, b) := t.left;
      Ok((Node(a, x, Node(b, t.elem, t.right)), count + 1))
  }

  /** rotateLeft: the right child becomes the subtree root; counts one rotation. */
  function RotateLeft<T>(t: Tree<T>, count: int): (r: Result<(Tree<T>, int)>)
    requires t.Node?
    ensures r.Err? <==> t.right.Nil?
    ensures r.Err? ==> r.msg == "Can't rotate left with null right child."
    ensures r.Ok? ==> r.value.0.Node? && InOrder(r.value.0) == InOrder(t) && r.value.1 == count + 1
  {
    if t.right.Nil? then Err("Can't rotate left with null right child.")
    else
      var Node(b, x, c) := t.right;
      Ok((Node(Node(t.left, t.elem, b), x, c), count + 1))
  }

  /**
   * rebalanceLeft: when the left subtree is more than one level taller, a
   * single right rotation if its outer (left) grandchild is at least as tall
   * as the inner one, else a left rotation of the child followed by a right
   * rotation.  The rotations cannot fail here.
   */
  function RebalanceLeft<T>(t: Tree<T>, count: int): (r: (Tree<T>, int))
    requires t.Node?
    ensures r.0.Node? && InOrder(r.0) == InOrder(t)
    ensures Height(t.left) - Height(t.right) <= 1 ==> r == (t, count)
    ensures Height(t.left) - Height(t.right) > 1 ==>
      r.1 == count + (if Height(t.left.left) >= Height(t.left.right) then 1 else 2)
  {
    if Height(t.left) - Height(t.right) > 1 then
      if Height(t.left.left) >= Height(t.left.right) then
        RotateRight(t, count).value
      else
        var p := RotateLeft(t.left, count).value;
        RotateRight(Node(p.0, t.elem, t.right), p.1).value
    else (t, count)
  }

  /** rebalanceRight: the mirror image of rebalanceLeft. */
  function RebalanceRight<T>(t: Tree<T>, count: int): (r: (Tree<T>, int))
    requires t.Node?
    ensures r.0.Node? && InOrder(r.0) == InOrder(t)
    ensures Height(t.right) - Height(t.left) <= 1 ==> r == (t, count)
    ensures Height(t.right) - Height(t.left) > 1 ==>
      r.1 == count + (if Height(t.right.right) >= Height(t.right.left) then 1 else 2)
  {
    if Height(t.right) - Height(t.left) > 1 then
      if Height(t.right.right) >= Height(t.right.left) then
        RotateLeft(t, count).value
      else
        var p := RotateRight(t.right, count).value;
        RotateLeft(Node(t.left, t.elem, p.0), p.1).value
    else (t, count)
  }

  /**
   * A node whose left subtree is at most two levels taller than its right one
   * (both balanced) is balanced after rebalanceLeft; it is left alone unless
   * the difference is two, and then ends up as tall as the left subtree or
   * one taller.
   */
  lemma RebalanceLeftRestores<T>(t: Tree<T>, count: int)
    requires t.Node? && Balanced(t.left) && Balanced(t.right)
    requires Height(t.right) <= Height(t.left) + 1 && Height(t.left) <= Height(t.right) + 2
    ensures Balanced(RebalanceLeft(t, count).0)
    ensures Height(t.left) <= Height(t.right) + 1 ==> RebalanceLeft(t, count) == (t, count)
    ensures Height(t.left) == Height(t.right) + 2 ==>
      Height(t.left) <= Height(RebalanceLeft(t, count).0) <= Height(t.left) + 1
  {
    if Height(t.left) == Height(t.right) + 2 {
      var Node(ll, lx, lr) := t.left;
      if Height(ll) >= Height(lr) {
        assert RebalanceLeft(t, count).0 == Node(ll, lx, Node(lr, t.elem, t.right));
      } else {
        var Node(a, z, b) := lr;
        assert RebalanceLeft(t, count).0 == Node(Node(ll, lx, a), z, Node(b, t.elem, t.right));
      }
    }
  }

  /** The mirror image of RebalanceLeftRestores. */
  lemma RebalanceRightRestores<T>(t: Tree<T>, count: int)
    requires t.Node? && Balanced(t.left) && Balanced(t.right)
    requires Height(t.left) <= Height(t.right) + 1 && Height(t.right) <= Height(t.left) + 2
    ensures Balanced(RebalanceRight(t, count).0)
    ensures Height(t.right) <= Height(t.left) + 1 ==> RebalanceRight(t, count) == (t, count)
    ensures Height(t.right) == Height(t.left) + 2 ==>
      Height(t.right) <= Height(RebalanceRight(t, count).0) <= Height(t.right) + 1
  {
    if Height(t.right) == Height(t.left) + 2 {
      var Node(rl, rx, rr) := t.right;
      if Height(rr) >= Height(rl) {
        assert RebalanceRight(t, count).0 == Node(Node(t.left, t.elem, rl), rx, rr);
      } else {
        var Node(a, z, b) := rl;
        assert RebalanceRight(t, count).0 == Node(Node(t.left, t.elem, a), z, Node(b, rx, rr));
      }
    }
  }

  // ---------------------------------------------------------------------
  // Insert
  // ---------------------------------------------------------------------

  /** insertAux: BST insertion, rebalancing every node on the way back up. */
  function InsertAux<T>(key: T -> int, t: Tree<T>, x: T, count: int): (r: Result<(Tree<T>, int)>)
    ensures r.Err? ==> r.msg == "Duplicated element." && key(x) in Keys(key, t)
    ensures r.Ok? ==> r.value.0.Node? && count <= r.value.1
  {
    match t
    case Nil => Ok((Node(Nil, x, Nil), count))
    case Node(l, y, rt) =>
      if key(x) == key(y) then Err("Duplicated element.")
      else if key(x) < key(y) then
        var p :- InsertAux(key, l, x, count);
        Ok(RebalanceLeft(Node(p.0, y, rt), p.1))
      else
        var p :- InsertAux(key, rt, x, count);
        Ok(RebalanceRight(Node(l, y, p.0), p.1))
  }

  /** insert adds exactly the new element and keeps the search order; it fails only on a stored key. */
  lemma {:induction false} InsertCorrect<T>(key: T -> int, t: Tree<T>, x: T, count: int)
    ensures var r := InsertAux(key, t, x, count);
      (r.Ok? ==> Elems(r.value.0) == Elems(t) + {x} && Keys(key, r.value.0) == Keys(key, t) + {key(x)}) &&
      (Bst(key, t) ==> (r.Ok? <==> key(x) !in Keys(key, t))) &&
      (Bst(key, t) && r.Ok? ==> Bst(key, r.value.0))
  {
    match t
    case Nil =>
    case Node(l, y, rt) =>
      if key(x) == key(y) {
      } else if key(x) < key(y) {
        InsertCorrect(key, l, x, count);
        var r := InsertAux(key, l, x, count);
        if r.Ok? {
          var u := Node(r.value.0, y, rt);
          GrowLeft(key, t, u, x);
          SameInOrder(key, u, RebalanceLeft(u, r.value.1).0);
        }
      } else {
        InsertCorrect(key, rt, x, count);
        var r := InsertAux(key, rt, x, count);
        if r.Ok? {
          var u := Node(l, y, r.value.0);
          GrowRight(key, t, u, x);
          SameInOrder(key, u, RebalanceRight(u, r.value.1).0);
        }
      }
  }

  /** Replacing the left subtree by a search tree holding one more element, smaller than the node's. */
  lemma GrowLeft<T>(key: T -> int, t: Tree<T>, u: Tree<T>, x: T)
    requires t.Node? && u.Node? && u.elem == t.elem && u.right == t.right && key(x) < key(t.elem)
    requires Elems(u.left) == Elems(t.left) + {x} && Keys(key, u.left) == Keys(key, t.left) + {key(x)}
    requires Bst(key, t.left) ==> Bst(key, u.left)
    ensures Elems(u) == Elems(t) + {x} && Keys(key, u) == Keys(key, t) + {key(x)}
    ensures Bst(key, t) ==> Bst(key, u)
  {
  }

  /** Replacing the right subtree by a search tree holding one more element, larger than the node's. */
  lemma GrowRight<T>(key: T -> int, t: Tree<T>, u: Tree<T>, x: T)
    requires t.Node? && u.Node? && u.elem == t.elem && u.left == t.left && key(t.elem) < key(x)
    requires Elems(u.right) == Elems(t.right) + {x} && Keys(key, u.right) == Keys(key, t.right) + {key(x)}
    requires Bst(key, t.right) ==> Bst(key, u.right)
    ensures Elems(u) == Elems(t) + {x} && Keys(key, u) == Keys(key, t) + {key(x)}
    ensures Bst(key, t) ==> Bst(key, u)
  {
  }

  /** insert keeps a balanced tree balanced, and its height grows by at most one. */
  lemma {:induction false} InsertBalanced<T>(key: T -> int, t: Tree<T>, x: T, count: int)
    ensures Balanced(t) && InsertAux(key, t, x, count).Ok? ==>
      var t' := InsertAux(key, t, x, count).value.0;
      Balanced(t') && Height(t) <= Height(t') <= Height(t) + 1
  {
    match t
    case Nil =>
    case Node(l, y, rt) =>
      if key(x) == key(y) {
      } else if key(x) < key(y) {
        InsertBalanced(key, l, x, count);
        var r := InsertAux(key, l, x, count);
        if r.Ok? && Balanced(t) {
          RebalanceLeftRestores(Node(r.value.0, y, rt), r.value.1);
        }
      } else {
        InsertBalanced(key, rt, x, count);
        var r := InsertAux(key, rt, x, count);
        if r.Ok? && Balanced(t) {
          RebalanceRightRestores(Node(l, y, r.value.0), r.value.1);
        }
      }
  }

  // ---------------------------------------------------------------------
  // Remove
  // ---------------------------------------------------------------------

  /**
   * What removeAux does with a node whose two children forced the swap with
   * its successor: the code returns it as it is; `Rebalanced` is the repaired
   * variant that passes it through rebalanceLeft like every other node on the
   * path.
   */
  datatype TwoChildMode = AsWritten | Rebalanced

  /**
   * removeAux: BST removal; nodes on the descent path are rebalanced towards
   * the side that did not shrink.  Returns the new subtree, the removed
   * element and the rotation count.
   */
  function RemoveAux<T>(key: T -> int, t: Tree<T>, k: int, count: int, mode: TwoChildMode): (r: Result<(Tree<T>, T, int)>)
    ensures r.Err? ==> r.msg == "Element not found."
    ensures r.Ok? ==> key(r.value.1) == k && count <= r.value.2
    decreases Size(t)
  {
    match t
    case Nil => Err("Element not found.")
    case Node(l, y, rt) =>
      if k < key(y) then
        var p :- RemoveAux(key, l, k, count, mode);
        var b := RebalanceRight(Node(p.0, y, rt), p.2);
        Ok((b.0, p.1, b.1))
      else if k > key(y) then
        var p :- RemoveAux(key, rt, k, count, mode);
        var b := RebalanceLeft(Node(l, y, p.0), p.2);
        Ok((b.0, p.1, b.1))
      else if ChildrenCount(t) == 0 then Ok((Nil, y, count))
      else if ChildrenCount(t) == 1 then Ok((OnlyChild(t), y, count))
      else
        var p :- RemoveAux(key, SwapMin(rt, y), k, count, mode);
        var u := Node(l, FindMin(rt), p.0);
        if mode == AsWritten then Ok((u, p.1, p.2))
        else var b := RebalanceLeft(u, p.2); Ok((b.0, p.1, b.1))
  }

  /** On a search tree, remove succeeds exactly for a stored key and takes out exactly that element. */
  lemma {:induction false} RemoveCorrect<T>(key: T -> int, t: Tree<T>, k: int, count: int, mode: TwoChildMode)
    requires Bst(key, t)
    ensures var r := RemoveAux(key, t, k, count, mode);
      (r.Ok? <==> k in Keys(key, t)) &&
      (r.Ok? ==> Bst(key, r.value.0) && r.value.1 in Elems(t) &&
                 Elems(r.value.0) == Elems(t) - {r.value.1} &&
                 Keys(key, r.value.0) == Keys(key, t) - {k})
    decreases Size(t), 1
  {
    match t
    case Nil =>
    case Node(l, y, rt) =>
      if k != key(y) {
        RemoveDescend(key, t, k, count, mode);
      } else if ChildrenCount(t) == 2 {
        RemoveSwapped(key, t, count, mode);
      } else {
        DisjointParts(key, l, y, rt);
      }
  }

  /** The descent cases of RemoveCorrect: the key is searched in one subtree, which is then rebalanced against the other. */
  lemma {:induction false} RemoveDescend<T>(key: T -> int, t: Tree<T>, k: int, count: int, mode: TwoChildMode)
    requires t.Node? && Bst(key, t) && k != key(t.elem)
    ensures var r := RemoveAux(key, t, k, count, mode);
      (r.Ok? <==> k in Keys(key, t)) &&
      (r.Ok? ==> Bst(key, r.value.0) && r.value.1 in Elems(t) &&
                 Elems(r.value.0) == Elems(t) - {r.value.1} &&
                 Keys(key, r.value.0) == Keys(key, t) - {k})
    decreases Size(t), 0
  {
    var Node(l, y, rt) := t;
    DisjointParts(key, l, y, rt);
    if k < key(y) {
      RemoveCorrect(key, l, k, count, mode);
      var r := RemoveAux(key, l, k, count, mode);
      if r.Ok? {
        var u := Node(r.value.0, y, rt);
        ShrinkLeft(key, l, y, rt, r.value.0, r.value.1);
        SameInOrder(key, u, RebalanceRight(u, r.value.2).0);
      }
    } else {
      RemoveCorrect(key, rt, k, count, mode);
      var r := RemoveAux(key, rt, k, count, mode);
      if r.Ok? {
        var u := Node(l, y, r.value.0);
        ShrinkRight(key, l, y, rt, r.value.0, r.value.1);
        SameInOrder(key, u, RebalanceLeft(u, r.value.2).0);
      }
    }
  }

  /** The two-children case of RemoveCorrect. */
  lemma {:induction false} RemoveSwapped<T>(key: T -> int, t: Tree<T>, count: int, mode: TwoChildMode)
    requires t.Node? && t.left.Node? && t.right.Node? && Bst(key, t)
    ensures var r := RemoveAux(key, t, key(t.elem), count, mode);
      r.Ok? && Bst(key, r.value.0) && r.value.1 == t.elem &&
      Elems(r.value.0) == Elems(t) - {t.elem} && Keys(key, r.value.0) == Keys(key, t) - {key(t.elem)}
    decreases Size(t), 0
  {
    var l, y, rt := t.left, t.elem, t.right;
    var k := key(y);
    var r1 := SwapMin(rt, y);
    SwapMinKeepsOrder(key, rt, y);
    SwapMinElems(key, rt, y);
    RemoveCorrect(key, r1, k, count, mode);
    var p := RemoveAux(key, r1, k, count, mode).value;
    KeyIdentifies(key, r1, p.1, y);
    DisjointParts(key, l, y, rt);
    assert Elems(p.0) == Elems(rt) - {FindMin(rt)};
    assert Keys(key, p.0) == Keys(key, rt) - {key(FindMin(rt))};
    SuccessorReplacesRoot(key, t, p.0);
    var u := Node(l, FindMin(rt), p.0);
    SameInOrder(key, u, RebalanceLeft(u, p.2).0);
  }

  /** Swapping the leftmost element changes neither heights nor balance. */
  lemma {:induction false} SwapMinShape<T>(t: Tree<T>, x: T)
    requires t.Node?
    ensures Height(SwapMin(t, x)) == Height(t)
    ensures Balanced(SwapMin(t, x)) <==> Balanced(t)
  {
    if t.left.Node? {
      SwapMinShape(t.left, x);
    }
  }

  /**
   * With the two-children node rebalanced as well, remove keeps a balanced
   * tree balanced and lowers its height by at most one.
   */
  lemma {:induction false} RemoveRebalancedBalanced<T>(key: T -> int, t: Tree<T>, k: int, count: int)
    ensures Balanced(t) && RemoveAux(key, t, k, count, Rebalanced).Ok? ==>
      var t' := RemoveAux(key, t, k, count, Rebalanced).value.0;
      Balanced(t') && Height(t) - 1 <= Height(t') <= Height(t)
    decreases Size(t), 1
  {
    match t
    case Nil =>
    case Node(l, y, rt) =>
      if Balanced(t) && k < key(y) {
        RemoveRebalancedLeft(key, t, k, count);
      } else if Balanced(t) && k > key(y) {
        RemoveRebalancedRight(key, t, k, count);
      } else if Balanced(t) && ChildrenCount(t) == 2 {
        RemoveRebalancedSwapped(key, t, count);
      }
  }

  /** The recursive case of RemoveRebalancedBalanced for a key below the node's: the left subtree shrinks. */
  lemma {:induction false} RemoveRebalancedLeft<T>(key: T -> int, t: Tree<T>, k: int, count: int)
    requires t.Node? && Balanced(t) && k < key(t.elem)
    ensures RemoveAux(key, t, k, count, Rebalanced).Ok? ==>
      var t' := RemoveAux(key, t, k, count, Rebalanced).value.0;
      Balanced(t') && Height(t) - 1 <= Height(t') <= Height(t)
    decreases Size(t), 0
  {
    var Node(l, y, rt) := t;
    RemoveRebalancedBalanced(key, l, k, count);
    var r := RemoveAux(key, l, k, count, Rebalanced);
    if r.Ok? {
      RebalanceRightRestores(Node(r.value.0, y, rt), r.value.2);
    }
  }

  /** The recursive case of RemoveRebalancedBalanced for a key above the node's: the right subtree shrinks. */
  lemma {:induction false} RemoveRebalancedRight<T>(key: T -> int, t: Tree<T>, k: int, count: int)
    requires t.Node? && Balanced(t) && k > key(t.elem)
    ensures RemoveAux(key, t, k, count, Rebalanced).Ok? ==>
      var t' := RemoveAux(key, t, k, count, Rebalanced).value.0;
      Balanced(t') && Height(t) - 1 <= Height(t') <= Height(t)
    decreases Size(t), 0
  {
    var Node(l, y, rt) := t;
    RemoveRebalancedBalanced(key, rt, k, count);
    var r := RemoveAux(key, rt, k, count, Rebalanced);
    if r.Ok? {
      RebalanceLeftRestores(Node(l, y, r.value.0), r.value.2);
    }
  }

  /** The recursive case of RemoveRebalancedBalanced for a node with two children: the successor's removal shrinks the right subtree. */
  lemma {:induction false} RemoveRebalancedSwapped<T>(key: T -> int, t: Tree<T>, count: int)
    requires t.Node? && Balanced(t) && ChildrenCount(t) == 2
    ensures RemoveAux(key, t, key(t.elem), count, Rebalanced).Ok? ==>
      var t' := RemoveAux(key, t, key(t.elem), count, Rebalanced).value.0;
      Balanced(t') && Height(t) - 1 <= Height(t') <= Height(t)
    decreases Size(t), 0
  {
    var Node(l, y, rt) := t;
    var k := key(y);
    var r1 := SwapMin(rt, y);
    SwapMinShape(rt, y);
    RemoveRebalancedBalanced(key, r1, k, count);
    var r := RemoveAux(key, r1, k, count, Rebalanced);
    if r.Ok? {
      RebalanceLeftRestores(Node(l, FindMin(rt), r.value.0), r.value.2);
    }
  }

  /**
   * The code as written: after inserting 5, 3, 6 and 2 the tree is balanced,
   * but removing 5 swaps it with 6, deletes the leaf, and returns the node 6
   * with a left subtree of height 2 and no right subtree, unrebalanced.
   */
  lemma RemoveAsWrittenUnbalances()
    ensures var id := (x: int) => x;
      var t0 := InsertAux(id, Nil, 5, 0).value.0;
      var t1 := InsertAux(id, t0, 3, 0).value.0;
      var t2 := InsertAux(id, t1, 6, 0).value.0;
      var t3 := InsertAux(id, t2, 2, 0).value.0;
      t3 == Node(Node(Node(Nil, 2, Nil), 3, Nil), 5, Node(Nil, 6, Nil)) && Balanced(t3) &&
      RemoveAux(id, t3, 5, 0, AsWritten) == Ok((Node(Node(Node(Nil, 2, Nil), 3, Nil), 6, Nil), 5, 0)) &&
      !Balanced(RemoveAux(id, t3, 5, 0, AsWritten).value.0) &&
      Balanced(RemoveAux(id, t3, 5, 0, Rebalanced).value.0)
  {
    var id := (x: int) => x;
    var a := Node(Nil, 2, Nil);
    var t3 := Node(Node(a, 3, Nil), 5, Node(Nil, 6, Nil));
    assert InsertAux(id, Nil, 5, 0).value.0 == Node(Nil, 5, Nil);
    assert InsertAux(id, Node(Nil, 5, Nil), 3, 0).value.0 == Node(Node(Nil, 3, Nil), 5, Nil);
    assert InsertAux(id, Node(Node(Nil, 3, Nil), 5, Nil), 6, 0).value.0 == Node(Node(Nil, 3, Nil), 5, Node(Nil, 6, Nil));
    assert InsertAux(id, Node(Nil, 3, Nil), 2, 0).value.0 == Node(a, 3, Nil);
    assert InsertAux(id, Node(Node(Nil, 3, Nil), 5, Node(Nil, 6, Nil)), 2, 0).value.0 == t3;
    assert SwapMin(Node(Nil, 6, Nil), 5) == Node(Nil, 5, Nil);
    assert RemoveAux(id, Node(Nil, 5, Nil), 5, 0, AsWritten) == Ok((Nil, 5, 0));
    assert RemoveAux(id, Node(Nil, 5, Nil), 5, 0, Rebalanced) == Ok((Nil, 5, 0));
    var bad := Node(Node(a, 3, Nil), 6, Nil);
    assert Height(bad.left) == 2;
    assert RebalanceLeft(bad, 0).0 == Node(a, 3, Node(Nil, 6, Nil));
  }

  /** RemoveCorrect for callers that do not know the tree is a search tree. */
  lemma RemoveSpec<T>(key: T -> int, t: Tree<T>, k: int, count: int, mode: TwoChildMode)
    ensures Bst(key, t) ==> var r := RemoveAux(key, t, k, count, mode);
      (r.Ok? <==> k in Keys(key, t)) &&
      (r.Ok? ==> Bst(key, r.value.0) && r.value.1 in Elems(t) &&
                 Elems(r.value.0) == Elems(t) - {r.value.1} &&
                 Keys(key, r.value.0) == Keys(key, t) - {k})
  {
    if Bst(key, t) {
      RemoveCorrect(key, t, k, count, mode);
    }
  }

  // ---------------------------------------------------------------------
  // Public operations
  // ---------------------------------------------------------------------

  /**
   * insert: on success the tree holds exactly one more element, stays a
   * search tree, and a balanced tree stays balanced.  On a duplicate the
   * exception leaves the object as it was, so the caller keeps `s`.
   */
  function Insert<T>(key: T -> int, s: AVL<T>, x: T): (r: Result<AVL<T>>)
    ensures r.Err? ==> r.msg == "Duplicated element."
    ensures Bst(key, s.root) ==> (r.Ok? <==> key(x) !in Keys(key, s.root))
    ensures r.Ok? ==> Elems(r.value.root) == Elems(s.root) + {x}
    ensures r.Ok? ==> Keys(key, r.value.root) == Keys(key, s.root) + {key(x)}
    ensures r.Ok? && Bst(key, s.root) ==> Bst(key, r.value.root)
    ensures r.Ok? && Balanced(s.root) ==> Balanced(r.value.root)
    ensures r.Ok? ==> s.rotationCount <= r.value.rotationCount
  {
    InsertCorrect(key, s.root, x, s.rotationCount);
    InsertBalanced(key, s.root, x, s.rotationCount);
    var p :- InsertAux(key, s.root, x, s.rotationCount);
    Ok(AVL(p.0, p.1))
  }

  /** contains: on a search tree, true exactly for a stored key. */
  function Contains<T>(key: T -> int, s: AVL<T>, k: int): (b: bool)
    ensures b ==> k in Keys(key, s.root)
    ensures Bst(key, s.root) ==> (b <==> k in Keys(key, s.root))
  {
    ContainsAux(key, s.root, k)
  }

  /** find: the stored element with key `k`, or "Element not found.". */
  function Find<T>(key: T -> int, s: AVL<T>, k: int): (r: Result<T>)
    ensures r.Ok? ==> r.value in Elems(s.root) && key(r.value) == k
    ensures r.Err? ==> r.msg == "Element not found."
    ensures Bst(key, s.root) ==> (r.Ok? <==> k in Keys(key, s.root))
  {
    FindAux(key, s.root, k)
  }

  /**
   * remove, as written: takes out exactly the element with key `k` and keeps
   * the search order.  It promises no balance: see RemoveAsWrittenUnbalances.
   */
  function Remove<T>(key: T -> int, s: AVL<T>, k: int): (r: Result<(AVL<T>, T)>)
    ensures r.Err? ==> r.msg == "Element not found."
    ensures r.Ok? ==> key(r.value.1) == k && s.rotationCount <= r.value.0.rotationCount
    ensures Bst(key, s.root) ==> (r.Ok? <==> k in Keys(key, s.root))
    ensures Bst(key, s.root) && r.Ok? ==>
      Bst(key, r.value.0.root) && r.value.1 in Elems(s.root) &&
      Elems(r.value.0.root) == Elems(s.root) - {r.value.1} &&
      Keys(key, r.value.0.root) == Keys(key, s.root) - {k}
  {
    RemoveSpec(key, s.root, k, s.rotationCount, AsWritten);
    var p :- RemoveAux(key, s.root, k, s.rotationCount, AsWritten);
    Ok((AVL(p.0, p.2), p.1))
  }

  /** remove with the two-children node rebalanced too: it also keeps a balanced tree balanced. */
  function RemoveRebalanced<T>(key: T -> int, s: AVL<T>, k: int): (r: Result<(AVL<T>, T)>)
    ensures r.Err? ==> r.msg == "Element not found."
    ensures r.Ok? ==> key(r.value.1) == k && s.rotationCount <= r.value.0.rotationCount
    ensures Bst(key, s.root) ==> (r.Ok? <==> k in Keys(key, s.root))
    ensures Bst(key, s.root) && r.Ok? ==>
      Bst(key, r.value.0.root) && r.value.1 in Elems(s.root) &&
      Elems(r.value.0.root) == Elems(s.root) - {r.value.1} &&
      Keys(key, r.value.0.root) == Keys(key, s.root) - {k}
    ensures Balanced(s.root) && r.Ok? ==> Balanced(r.value.0.root)
  {
    RemoveSpec(key, s.root, k, s.rotationCount, Rebalanced);
    RemoveRebalancedBalanced(key, s.root, k, s.rotationCount);
    var p :- RemoveAux(key, s.root, k, s.rotationCount, Rebalanced);
    Ok((AVL(p.0, p.2), p.1))
  }

  /** clear: empties the tree; the rotation counter is not reset. */
  function Clear<T>(s: AVL<T>): (r: AVL<T>)
    ensures Size(r.root) == 0 && Elems(r.root) == {}
    ensures r.rotationCount == s.rotationCount
  {
    AVL(Nil, s.rotationCount)
  }

  /** getElements: the elements in ascending key order. */
  function GetElements<T>(key: T -> int, s: AVL<T>): (e: seq<T>)
    ensures |e| == Size(s.root)
    ensures Elems(s.root) == set x | x in e
    ensures Bst(key, s.root) ==> Ascending(key, e)
  {
    SizeIsLength(s.root);
    ElemsAreInOrder(s.root);
    BstIffAscending(key, s.root);
    InOrder(s.root)
  }

  /** getSize: the number of stored elements. */
  function GetSize<T>(s: AVL<T>): (n: nat)
    ensures n == |InOrder(s.root)|
  {
    SizeIsLength(s.root);
    Size(s.root)
  }

  /** getHeight: nodes on the longest root-to-leaf path. */
  function GetHeight<T>(s: AVL<T>): (h: nat)
    ensures h <= Size(s.root) < Pow2(h)
  {
    HeightBounds(s.root);
    Height(s.root)
  }

  /** getRotationCount: the counter, as the constructor left it plus every rotation since. */
  function GetRotationCount<T>(s: AVL<T>): (n: int)
    ensures n == s.rotationCount
  {
    s.rotationCount
  }

  // ---------------------------------------------------------------------
  // Leaves, internal nodes and levels
  // ---------------------------------------------------------------------

  /** Every node's subtree, one entry per node, in in-order. */
  function Subtrees<T>(t: Tree<T>): (q: seq<Tree<T>>)
    ensures |q| == Size(t)
  {
    match t
    case Nil => []
    case Node(l, _, r) => Subtrees(l) + [t] + Subtrees(r)
  }

  /** How many entries of q are nodes that are leaves (`leaf`) or that have a child (`!leaf`). */
  function Tally<T>(q: seq<Tree<T>>, leaf: bool): nat {
    if q == [] then 0
    else (if q[0].Node? && IsLeaf(q[0]) == leaf then 1 else 0) + Tally(q[1..], leaf)
  }

  lemma {:induction false} TallyConcat<T>(a: seq<Tree<T>>, b: seq<Tree<T>>, leaf: bool)
    ensures Tally(a + b, leaf) == Tally(a, leaf) + Tally(b, leaf)
  {
    if a == [] {
      assert a + b == b;
    } else {
      assert (a + b)[1..] == a[1..] + b;
      TallyConcat(a[1..], b, leaf);
    }
  }

  /** A node's tally is its subtrees' tallies plus its own entry. */
  lemma TallyNode<T>(t: Tree<T>, leaf: bool)
    requires t.Node?
    ensures Tally(Subtrees(t), leaf) ==
      Tally(Subtrees(t.left), leaf) + (if IsLeaf(t) == leaf then 1 else 0) + Tally(Subtrees(t.right), leaf)
  {
    TallyConcat(Subtrees(t.left) + [t], Subtrees(t.right), leaf);
    TallyConcat(Subtrees(t.left), [t], leaf);
    assert [t][1..] == [];
  }

  /**
   * countNodes: a node without children is a leaf; every other node is
   * internal.  The two counts are the tallies of the tree's nodes, so they
   * partition the tree, and a binary tree has at most one leaf more than it
   * has internal nodes.
   */
  function CountNodes<T>(t: Tree<T>): (r: (nat, nat))
    ensures r.0 == Tally(Subtrees(t), true) && r.1 == Tally(Subtrees(t), false)
    ensures r.0 + r.1 == Size(t)
    ensures t.Node? ==> 1 <= r.0 <= r.1 + 1
    ensures t.Node? && IsLeaf(t) ==> r == (1, 0)
  {
    match t
    case Nil => (0, 0)
    case Node(l, _, rt) =>
      TallyNode(t, true);
      TallyNode(t, false);
      if l == Nil && rt == Nil then (1, 0)
      else
        var a := CountNodes(l);
        var b := CountNodes(rt);
        (a.0 + b.0, 1 + a.1 + b.1)
  }

  /** getLeafCount: the number of nodes without children. */
  function GetLeafCount<T>(s: AVL<T>): (n: nat)
    ensures n == Tally(Subtrees(s.root), true)
    ensures n <= Size(s.root)
    ensures s.root.Node? ==> 1 <= n
  {
    CountNodes(s.root).0
  }

  /** getInternalNodeCount: the number of nodes with at least one child. */
  function GetInternalNodeCount<T>(s: AVL<T>): (n: nat)
    ensures n == Tally(Subtrees(s.root), false)
    ensures GetLeafCount(s) + n == Size(s.root)
    ensures GetLeafCount(s) <= n + 1
  {
    CountNodes(s.root).1
  }

  /** The non-null children of one node, left before right. */
  function Kids<T>(t: Tree<T>): (q: seq<Tree<T>>)
    requires t.Node?
  {
    (if t.left.Node? then [t.left] else []) + (if t.right.Node? then [t.right] else [])
  }

  /** The next level of a breadth-first traversal: every node's children, in queue order. */
  function Children<T>(q: seq<Tree<T>>): seq<Tree<T>>
    requires forall i :: 0 <= i < |q| ==> q[i].Node?
  {
    if q == [] then [] else Kids(q[0]) + Children(q[1..])
  }

  /** A queue of non-null subtrees. */
  ghost predicate AllNodes<T>(q: seq<Tree<T>>) {
    forall i :: 0 <= i < |q| ==> q[i].Node?
  }

  /** Nodes in all the trees of a forest. */
  ghost function ForestSize<T>(q: seq<Tree<T>>): nat {
    if q == [] then 0 else Size(q[0]) + ForestSize(q[1..])
  }

  /** Height of the tallest tree of a forest. */
  ghost function ForestHeight<T>(q: seq<Tree<T>>): nat {
    if q == [] then 0 else Max(Height(q[0]), ForestHeight(q[1..]))
  }

  /** The number of nodes d links below the root of t. */
  function LevelSize<T>(t: Tree<T>, d: nat): nat {
    match t
    case Nil => 0
    case Node(l, _, r) => if d == 0 then 1 else LevelSize(l, d - 1) + LevelSize(r, d - 1)
  }

  /** The number of nodes d links below the roots of a forest. */
  ghost function ForestLevel<T>(q: seq<Tree<T>>, d: nat): nat {
    if q == [] then 0 else LevelSize(q[0], d) + ForestLevel(q[1..], d)
  }

  lemma {:induction false} ForestLevelConcat<T>(a: seq<Tree<T>>, b: seq<Tree<T>>, d: nat)
    ensures ForestLevel(a + b, d) == ForestLevel(a, d) + ForestLevel(b, d)
  {
    if a == [] {
      assert a + b == b;
    } else {
      assert (a + b)[1..] == a[1..] + b;
      ForestLevelConcat(a[1..], b, d);
    }
  }

  /** Each tree of a queue of nodes has one node at depth 0. */
  lemma {:induction false} ForestLevelZero<T>(q: seq<Tree<T>>)
    requires AllNodes(q)
    ensures ForestLevel(q, 0) == |q|
  {
    if q != [] {
      assert AllNodes(q[1..]);
      ForestLevelZero(q[1..]);
    }
  }

  /** A node's children hold, d links down, its nodes d + 1 links down. */
  lemma KidsLevel<T>(t: Tree<T>, d: nat)
    requires t.Node?
    ensures ForestLevel(Kids(t), d) == LevelSize(t, d + 1)
  {
    var a: seq<Tree<T>> := if t.left.Node? then [t.left] else [];
    var b: seq<Tree<T>> := if t.right.Node? then [t.right] else [];
    assert [t.left][1..] == [] && [t.right][1..] == [];
    ForestLevelConcat(a, b, d);
  }

  /** One level down: depth d of the next level is depth d + 1 of this one. */
  lemma {:induction false} ChildrenLevel<T>(q: seq<Tree<T>>, d: nat)
    requires AllNodes(q)
    ensures ForestLevel(Children(q), d) == ForestLevel(q, d + 1)
  {
    if q != [] {
      assert AllNodes(q[1..]);
      ChildrenLevel(q[1..], d);
      KidsLevel(q[0], d);
      ForestLevelConcat(Kids(q[0]), Children(q[1..]), d);
    }
  }

  /** Sum of a list of level sizes. */
  function Sum(s: seq<int>): int {
    if s == [] then 0 else Sum(s[..|s| - 1]) + s[|s| - 1]
  }

  lemma {:induction false} ChildrenNodes<T>(q: seq<Tree<T>>)
    requires AllNodes(q)
    ensures AllNodes(Children(q))
  {
    if q != [] {
      ChildrenNodes(q[1..]);
      assert AllNodes(Kids(q[0]));
    }
  }

  lemma {:induction false} ChildrenAppend<T>(a: seq<Tree<T>>, b: seq<Tree<T>>)
    requires AllNodes(a) && AllNodes(b)
    ensures Children(a + b) == Children(a) + Children(b)
  {
    if a == [] {
      assert a + b == b;
    } else {
      assert (a + b)[0] == a[0];
      assert (a + b)[1..] == a[1..] + b;
      ChildrenAppend(a[1..], b);
      calc {
        Children(a + b);
        Kids(a[0]) + Children(a[1..] + b);
        Kids(a[0]) + (Children(a[1..]) + Children(b));
        (Kids(a[0]) + Children(a[1..])) + Children(b);
      }
    }
  }

  /** One level down: the forest loses the level's nodes and one unit of height. */
  lemma {:induction false} ChildrenStep<T>(q: seq<Tree<T>>)
    requires AllNodes(q)
    ensures AllNodes(Children(q))
    ensures ForestSize(q) == |q| + ForestSize(Children(q))
    ensures q != [] ==> ForestHeight(Children(q)) == ForestHeight(q) - 1
    ensures q != [] ==> ForestHeight(q) >= 1
  {
    if q != [] {
      ChildrenStep(q[1..]);
      var t := q[0];
      KidsStep(t);
      ForestConcat(Kids(t), Children(q[1..]));
    }
  }

  lemma KidsStep<T>(t: Tree<T>)
    requires t.Node?
    ensures AllNodes(Kids(t))
    ensures ForestSize(Kids(t)) == Size(t) - 1
    ensures ForestHeight(Kids(t)) == Height(t) - 1
  {
    var a: seq<Tree<T>> := if t.left.Node? then [t.left] else [];
    var b: seq<Tree<T>> := if t.right.Node? then [t.right] else [];
    ForestOne(t.left);
    ForestOne(t.right);
    ForestConcat(a, b);
  }

  /** A present subtree contributes itself to a forest; an absent one contributes nothing. */
  lemma ForestOne<T>(t: Tree<T>)
    ensures var a: seq<Tree<T>> := if t.Node? then [t] else [];
      ForestSize(a) == Size(t) && ForestHeight(a) == Height(t)
  {
    if t.Node? {
      assert [t][1..] == [];
    }
  }

  lemma {:induction false} ForestConcat<T>(a: seq<Tree<T>>, b: seq<Tree<T>>)
    ensures ForestSize(a + b) == ForestSize(a) + ForestSize(b)
    ensures ForestHeight(a + b) == Max(ForestHeight(a), ForestHeight(b))
  {
    if a == [] {
      assert a + b == b;
    } else {
      assert (a + b)[1..] == a[1..] + b;
      ForestConcat(a[1..], b);
    }
  }

  /**
   * The inner loop of getNodesPerLevel: dequeue the `|q|` nodes of the level
   * and enqueue each one's children, which leaves exactly the next level.
   */
  method NextLevel<T>(q0: seq<Tree<T>>) returns (q: seq<Tree<T>>)
    requires AllNodes(q0)
    ensures q == Children(q0)
  {
    q := q0;
    var levelSize := |q0|;
    var i := 0;
    while i < levelSize
      invariant 0 <= i <= levelSize
      invariant q == q0[i..] + Children(q0[..i])
    {
      NextLevelStep(q0, i);
      var node := q[0];
      var rest := q[1..];
      q := rest;
      if node.left.Node? {
        q := q + [node.left];
      }
      if node.right.Node? {
        q := q + [node.right];
      }
      assert q == rest + Kids(node);
      i := i + 1;
    }
    assert q0[..i] == q0 && q0[i..] == [];
  }

  /** One pass of NextLevel's loop: the front of the queue is the i-th node, and its children join the back. */
  lemma NextLevelStep<T>(q0: seq<Tree<T>>, i: nat)
    requires AllNodes(q0) && i < |q0|
    ensures var q := q0[i..] + Children(q0[..i]);
      q[0] == q0[i] && q[1..] + Kids(q0[i]) == q0[i + 1..] + Children(q0[..i + 1])
  {
    assert q0[..i + 1] == q0[..i] + [q0[i]];
    ChildrenAppend(q0[..i], [q0[i]]);
    assert Children([q0[i]]) == Kids(q0[i]);
    assert (q0[i..] + Children(q0[..i]))[1..] == q0[i + 1..] + Children(q0[..i]);
  }

  /**
   * getNodesPerLevel: a breadth-first traversal that records the queue
   * length at the start of every level.  The list has one entry per level,
   * entry i counting the nodes i links below the root: the first is 1 (the
   * root), no level is empty, and the entries add up to the number of nodes.
   */
  method GetNodesPerLevel<T>(s: AVL<T>) returns (levels: seq<int>)
    ensures |levels| == Height(s.root)
    ensures forall i :: 0 <= i < |levels| ==> levels[i] == LevelSize(s.root, i)
    ensures Sum(levels) == Size(s.root)
    ensures s.root.Node? ==> levels[0] == 1
    ensures forall i :: 0 <= i < |levels| ==> levels[i] >= 1
  {
    levels := [];
    if s.root == Nil {
      return;
    }
    var q := [s.root];
    assert q[1..] == [];
    while q != []
      invariant AllNodes(q)
      invariant |levels| + ForestHeight(q) == Height(s.root)
      invariant Sum(levels) + ForestSize(q) == Size(s.root)
      invariant |levels| > 0 ==> levels[0] == 1
      invariant levels == [] ==> q == [s.root]
      invariant forall i :: 0 <= i < |levels| ==> levels[i] >= 1
      invariant forall i :: 0 <= i < |levels| ==> levels[i] == LevelSize(s.root, i)
      invariant forall d: nat :: ForestLevel(q, d) == LevelSize(s.root, |levels| + d)
      decreases ForestHeight(q)
    {
      var levelSize := |q|;
      ChildrenStep(q);
      ForestLevelZero(q);
      assert ForestLevel(q, 0) == LevelSize(s.root, |levels| + 0);
      forall d: nat
        ensures ForestLevel(Children(q), d) == LevelSize(s.root, |levels| + 1 + d)
      {
        ChildrenLevel(q, d);
        assert ForestLevel(q, d + 1) == LevelSize(s.root, |levels| + (d + 1));
      }
      assert Sum(levels + [levelSize]) == Sum(levels) + levelSize;
      levels := levels + [levelSize];
      q := NextLevel(q);
    }
  }
}
