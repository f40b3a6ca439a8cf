/**
 * The binary tree shared by BSTree, AVLTree and SplayTree.  A tree is a null
 * pointer (`Nil`) or a node holding an element and two subtrees; both
 * BSTNode and SNode have this shape (SNode's parent pointer is recovered from
 * the position of a node, see module SplayTree).
 *
 * The containers are generic in their element type E and compare elements
 * only with `==`, `<` and `>`.  The model makes that order explicit as a key
 * projection `key: T -> int`: for `int` elements the key is the element,
 * for KVPair it is the pair's key.
 */
module BinTree {
  import opened Outcome

  /** The child a descent takes. */
  datatype Dir = L | R

  datatype Tree<T> = Nil | Node(left: Tree<T>, elem: T, right: Tree<T>)

  function Max(a: int, b: int): int {
    if a > b then a else b
  }

  /** Number of nodes (getSizeAux). */
  function Size<T>(t: Tree<T>): nat {
    match t
    case Nil => 0
    case Node(l, _, r) => 1 + Size(l) + Size(r)
  }

  /** Nodes on the longest root-to-leaf path; 0 for the empty tree (height). */
  function Height<T>(t: Tree<T>): nat {
    match t
    case Nil => 0
    case Node(l, _, r) => 1 + Max(Height(l), Height(r))
  }

  /** Left subtree, node, right subtree (getElementsAux). */
  function InOrder<T>(t: Tree<T>): seq<T> {
    match t
    case Nil => []
    case Node(l, x, r) => InOrder(l) + [x] + InOrder(r)
  }

  ghost function Elems<T>(t: Tree<T>): set<T> {
    match t
    case Nil => {}
    case Node(l, x, r) => Elems(l) + {x} + Elems(r)
  }

  ghost function Keys<T>(key: T -> int, t: Tree<T>): set<int> {
    match t
    case Nil => {}
    case Node(l, x, r) => Keys(key, l) + {key(x)} + Keys(key, r)
  }

  /** The search-tree order: smaller keys to the left, larger to the right. */
  ghost predicate Bst<T>(key: T -> int, t: Tree<T>) {
    match t
    case Nil => true
    case Node(l, x, r) =>
      Bst(key, l) && Bst(key, r) &&
      (forall k :: k in Keys(key, l) ==> k < key(x)) &&
      (forall k :: k in Keys(key, r) ==> key(x) < k)
  }

  /** Keys strictly increasing along a sequence. */
  ghost predicate Ascending<T>(key: T -> int, s: seq<T>) {
    forall i, j :: 0 <= i < j < |s| ==> key(s[i]) < key(s[j])
  }

  // ---------------------------------------------------------------------
  // Node helpers (BSTNode, SNode)
  // ---------------------------------------------------------------------

  /** Number of non-null children of a node (childrenCount). */
  function ChildrenCount<T>(t: Tree<T>): (n: nat)
    requires t.Node?
    ensures n <= 2
    ensures n == 0 <==> IsLeaf(t)
    ensures n == 2 <==> t.left.Node? && t.right.Node?
  {
    (if t.left.Nil? then 0 else 1) + (if t.right.Nil? then 0 else 1)
  }

  predicate IsLeaf<T>(t: Tree<T>)
    requires t.Node?
  {
    t.left.Nil? && t.right.Nil?
  }

  /** The left child when there is one, else the right one (onlyChild, getUniqueChild). */
  function OnlyChild<T>(t: Tree<T>): (c: Tree<T>)
    requires t.Node?
    ensures ChildrenCount(t) == 1 ==> c.Node? && (c == t.left || c == t.right)
    ensures ChildrenCount(t) == 1 ==> InOrder(t) == InOrder(t.left) + [t.elem] + InOrder(t.right)
    ensures ChildrenCount(t) == 2 ==> c == t.left
    ensures c.Nil? <==> ChildrenCount(t) == 0
  {
    if t.left.Nil? then t.right else t.left
  }

  // ---------------------------------------------------------------------
  // Relating the views of a tree
  // ---------------------------------------------------------------------

  lemma {:induction false} SizeIsLength<T>(t: Tree<T>)
    ensures Size(t) == |InOrder(t)|
  {
    match t
    case Nil =>
    case Node(l, _, r) =>
      SizeIsLength(l);
      SizeIsLength(r);
  }

  lemma {:induction false} ElemsAreInOrder<T>(t: Tree<T>)
    ensures Elems(t) == set x | x in InOrder(t)
    ensures forall x :: x in Elems(t) <==> x in InOrder(t)
  {
    match t
    case Nil =>
    case Node(l, _, r) =>
      ElemsAreInOrder(l);
      ElemsAreInOrder(r);
  }

  lemma {:induction false} KeysAreKeysOfElems<T>(key: T -> int, t: Tree<T>)
    ensures Keys(key, t) == set x | x in Elems(t) :: key(x)
  {
    match t
    case Nil =>
    case Node(l, x, r) =>
      KeysAreKeysOfElems(key, l);
      KeysAreKeysOfElems(key, r);
  }

  lemma AscendingSplit<T>(key: T -> int, a: seq<T>, x: T, b: seq<T>)
    ensures Ascending(key, a + [x] + b) <==>
      Ascending(key, a) && Ascending(key, b) &&
      (forall i :: 0 <= i < |a| ==> key(a[i]) < key(x)) &&
      (forall j :: 0 <= j < |b| ==> key(x) < key(b[j]))
  {
    var s := a + [x] + b;
    if Ascending(key, s) {
      forall i | 0 <= i < |a| ensures key(a[i]) < key(x) {
        assert s[i] == a[i] && s[|a|] == x;
      }
      forall j | 0 <= j < |b| ensures key(x) < key(b[j]) {
        assert s[|a| + 1 + j] == b[j] && s[|a|] == x;
      }
      forall i, j | 0 <= i < j < |a| ensures key(a[i]) < key(a[j]) {
        assert s[i] == a[i] && s[j] == a[j];
      }
      forall i, j | 0 <= i < j < |b| ensures key(b[i]) < key(b[j]) {
        assert s[|a| + 1 + i] == b[i] && s[|a| + 1 + j] == b[j];
      }
    }
  }

  /** The key of every element is among the keys of the tree. */
  lemma {:induction false} ElemKeysAreKeys<T>(key: T -> int, t: Tree<T>)
    ensures forall x :: x in Elems(t) ==> key(x) in Keys(key, t)
  {
    match t
    case Nil =>
    case Node(l, _, r) =>
      ElemKeysAreKeys(key, l);
      ElemKeysAreKeys(key, r);
  }

  /** A node's keys are exactly the keys met along its in-order sequence. */
  lemma KeysAlongInOrder<T>(key: T -> int, t: Tree<T>)
    ensures forall i :: 0 <= i < |InOrder(t)| ==> key(InOrder(t)[i]) in Keys(key, t)
    ensures forall k :: k in Keys(key, t) ==> exists i :: 0 <= i < |InOrder(t)| && key(InOrder(t)[i]) == k
  {
    ElemsAreInOrder(t);
    ElemKeysAreKeys(key, t);
    KeysAreKeysOfElems(key, t);
    forall k | k in Keys(key, t)
      ensures exists i :: 0 <= i < |InOrder(t)| && key(InOrder(t)[i]) == k
    {
      var x :| x in Elems(t) && key(x) == k;
      assert x in InOrder(t);
      var i :| 0 <= i < |InOrder(t)| && InOrder(t)[i] == x;
    }
  }

  /** The search-tree order is the in-order sequence being ascending. */
  lemma {:induction false} BstIffAscending<T>(key: T -> int, t: Tree<T>)
    ensures Bst(key, t) <==> Ascending(key, InOrder(t))
  {
    match t
    case Nil =>
    case Node(l, x, r) =>
      BstIffAscending(key, l);
      BstIffAscending(key, r);
      KeysAlongInOrder(key, l);
      KeysAlongInOrder(key, r);
      AscendingSplit(key, InOrder(l), x, InOrder(r));
  }

  /** Two trees with the same in-order sequence hold the same elements, the same keys and are both search trees or neither. */
  lemma SameInOrder<T>(key: T -> int, a: Tree<T>, b: Tree<T>)
    requires InOrder(a) == InOrder(b)
    ensures Elems(a) == Elems(b) && Keys(key, a) == Keys(key, b)
    ensures Size(a) == Size(b)
    ensures Bst(key, a) <==> Bst(key, b)
  {
    SameInOrderElems(a, b);
    KeysAreKeysOfElems(key, a);
    KeysAreKeysOfElems(key, b);
    SizeIsLength(a);
    SizeIsLength(b);
    BstIffAscending(key, a);
    BstIffAscending(key, b);
  }

  lemma SameInOrderElems<T>(a: Tree<T>, b: Tree<T>)
    requires InOrder(a) == InOrder(b)
    ensures Elems(a) == Elems(b)
  {
    ElemsAreInOrder(a);
    ElemsAreInOrder(b);
  }

  /** In a search tree the elements are distinct, so the size counts them. */
  lemma {:induction false} SizeIsCardinality<T>(key: T -> int, t: Tree<T>)
    requires Bst(key, t)
    ensures Size(t) == |Elems(t)| == |Keys(key, t)|
  {
    match t
    case Nil =>
    case Node(l, x, r) =>
      SizeIsCardinality(key, l);
      SizeIsCardinality(key, r);
      DisjointParts(key, l, x, r);
      CardUnion(Elems(l), Elems(r), x);
      CardUnion(Keys(key, l), Keys(key, r), key(x));
  }

  lemma DisjointParts<T>(key: T -> int, l: Tree<T>, x: T, r: Tree<T>)
    requires Bst(key, Node(l, x, r))
    ensures Elems(l) !! Elems(r) && x !in Elems(l) + Elems(r)
    ensures Keys(key, l) !! Keys(key, r) && key(x) !in Keys(key, l) + Keys(key, r)
  {
    DisjointKeys(key, l, x, r);
    ElemKeysAreKeys(key, l);
    ElemKeysAreKeys(key, r);
    forall z | z in Elems(l)
      ensures z !in Elems(r) && z != x
    {
      assert key(z) in Keys(key, l);
    }
    forall z | z in Elems(r)
      ensures z != x
    {
      assert key(z) in Keys(key, r);
    }
  }

  /** The key half of DisjointParts. */
  lemma DisjointKeys<T>(key: T -> int, l: Tree<T>, x: T, r: Tree<T>)
    requires Bst(key, Node(l, x, r))
    ensures Keys(key, l) !! Keys(key, r) && key(x) !in Keys(key, l) + Keys(key, r)
  {
    forall k | k in Keys(key, l)
      ensures k !in Keys(key, r)
    {
      assert k < key(x);
    }
  }

  lemma CardUnion<U>(a: set<U>, b: set<U>, x: U)
    requires a !! b && x !in a + b
    ensures |a + {x} + b| == |a| + 1 + |b|
  {
    assert a + {x} + b == (a + b) + {x};
  }

  function Pow2(n: nat): (p: nat)
    ensures p >= 1
  {
    if n == 0 then 1 else 2 * Pow2(n - 1)
  }

  /** A tree of height h has at least h and fewer than 2^h nodes. */
  lemma {:induction false} HeightBounds<T>(t: Tree<T>)
    ensures Height(t) <= Size(t) < Pow2(Height(t))
  {
    match t
    case Nil =>
    case Node(l, _, r) =>
      HeightBounds(l);
      HeightBounds(r);
      PowMonotone(Height(l), Height(t) - 1);
      PowMonotone(Height(r), Height(t) - 1);
  }

  lemma {:induction false} PowMonotone(a: nat, b: nat)
    requires a <= b
    ensures Pow2(a) <= Pow2(b)
  {
    if a < b {
      PowMonotone(a, b - 1);
    }
  }

  /** In a search tree a key identifies its element. */
  lemma {:induction false} KeyIdentifies<T>(key: T -> int, t: Tree<T>, x: T, y: T)
    requires Bst(key, t) && x in Elems(t) && y in Elems(t) && key(x) == key(y)
    ensures x == y
  {
    match t
    case Node(l, z, r) =>
      ElemKeysAreKeys(key, l);
      ElemKeysAreKeys(key, r);
      if x in Elems(l) && y in Elems(l) {
        KeyIdentifies(key, l, x, y);
      } else if x in Elems(r) && y in Elems(r) {
        KeyIdentifies(key, r, x, y);
      }
  }

  // ---------------------------------------------------------------------
  // Searches written identically in BSTree and AVLTree
  // ---------------------------------------------------------------------

  /** containsAux: descend by key until it is met or the path ends. */
  function ContainsAux<T>(key: T -> int, t: Tree<T>, k: int): (b: bool)
    ensures b ==> k in Keys(key, t)
    ensures Bst(key, t) ==> (b <==> k in Keys(key, t))
  {
    match t
    case Nil => false
    case Node(l, y, r) =>
      if k == key(y) then true
      else if k < key(y) then ContainsAux(key, l, k)
      else ContainsAux(key, r, k)
  }

  /** findAux: the stored element whose key is k, or "Element not found.". */
  function FindAux<T>(key: T -> int, t: Tree<T>, k: int): (r: Result<T>)
    ensures r.Ok? ==> r.value in Elems(t) && key(r.value) == k
    ensures r.Err? ==> r.msg == "Element not found."
    ensures Bst(key, t) ==> (r.Ok? <==> k in Keys(key, t))
  {
    match t
    case Nil => Err("Element not found.")
    case Node(l, y, r) =>
      if k == key(y) then Ok(y)
      else if k < key(y) then FindAux(key, l, k)
      else FindAux(key, r, k)
  }

  /** findMin / getSuccessor: the leftmost element of a non-empty tree. */
  function FindMin<T>(t: Tree<T>): (m: T)
    requires t.Node?
    ensures m in Elems(t)
    ensures |InOrder(t)| > 0 && m == InOrder(t)[0]
  {
    if t.left.Nil? then t.elem else FindMin(t.left)
  }

  /** The leftmost element of a search tree has the least key. */
  lemma MinIsLeast<T>(key: T -> int, t: Tree<T>)
    requires t.Node? && Bst(key, t)
    ensures FindMin(t) in Elems(t)
    ensures forall x :: x in Elems(t) && x != FindMin(t) ==> key(FindMin(t)) < key(x)
  {
    BstIffAscending(key, t);
    ElemsAreInOrder(t);
    forall x | x in Elems(t) && x != FindMin(t) ensures key(FindMin(t)) < key(x) {
      assert x in InOrder(t);
      var i :| 0 <= i < |InOrder(t)| && InOrder(t)[i] == x;
      assert i != 0;
    }
  }

  /**
   * The tree after `swap(current, successor)` as seen from the right subtree:
   * the leftmost node of `t` now holds `x`.
   */
  function SwapMin<T>(t: Tree<T>, x: T): (r: Tree<T>)
    requires t.Node?
    ensures r.Node? && Size(r) == Size(t)
    ensures InOrder(r) == [x] + InOrder(t)[1..]
  {
    if t.left.Nil? then Node(Nil, x, t.right)
    else Node(SwapMin(t.left, x), t.elem, t.right)
  }

  /** Replacing the leftmost element keeps every other element of the tree. */
  lemma SwapMinElems<T>(key: T -> int, t: Tree<T>, y: T)
    requires t.Node? && Bst(key, t)
    ensures Elems(SwapMin(t, y)) == Elems(t) - {FindMin(t)} + {y}
    ensures Keys(key, SwapMin(t, y)) == Keys(key, t) - {key(FindMin(t))} + {key(y)}
  {
    SwapMinElemsOnly(key, t, y);
    SwapMinKeys(key, t, y);
  }

  /** The element half of SwapMinElems. */
  lemma {:induction false} SwapMinElemsOnly<T>(key: T -> int, t: Tree<T>, y: T)
    requires t.Node? && Bst(key, t)
    ensures Elems(SwapMin(t, y)) == Elems(t) - {FindMin(t)} + {y}
  {
    var l, z, rr := t.left, t.elem, t.right;
    ElemKeysAreKeys(key, rr);
    if l.Nil? {
      assert key(z) !in Keys(key, rr);
    } else {
      SwapMinElemsOnly(key, l, y);
      var m := FindMin(l);
      ElemKeysAreKeys(key, l);
      assert key(m) in Keys(key, l);
      assert key(m) < key(z);
      assert key(m) !in Keys(key, rr);
    }
  }

  /** The key half of SwapMinElems. */
  lemma {:induction false} SwapMinKeys<T>(key: T -> int, t: Tree<T>, y: T)
    requires t.Node? && Bst(key, t)
    ensures Keys(key, SwapMin(t, y)) == Keys(key, t) - {key(FindMin(t))} + {key(y)}
  {
    var l, z, rr := t.left, t.elem, t.right;
    if l.Nil? {
      assert key(z) !in Keys(key, rr);
    } else {
      SwapMinKeys(key, l, y);
      var m := FindMin(l);
      ElemKeysAreKeys(key, l);
      assert key(m) in Keys(key, l);
      assert key(m) < key(z);
      assert key(m) !in Keys(key, rr);
    }
  }

  /**
   * The two-children case of removeAux, first half: after the node's element
   * `y` is swapped with its successor, the right subtree is still a search
   * tree, now with `y` as its least element.
   */
  lemma {:induction false} SwapMinKeepsOrder<T>(key: T -> int, t: Tree<T>, y: T)
    requires t.Node? && Bst(key, t)
    requires forall k :: k in Keys(key, t) ==> key(y) < k
    ensures Bst(key, SwapMin(t, y)) && FindMin(SwapMin(t, y)) == y
  {
    var l, z, rr := t.left, t.elem, t.right;
    assert Keys(key, t) == Keys(key, l) + {key(z)} + Keys(key, rr);
    if l.Nil? {
      assert SwapMin(t, y) == Node(Nil, y, rr);
      assert key(y) < key(z);
    } else {
      assert forall k :: k in Keys(key, l) ==> key(y) < k;
      SwapMinKeepsOrder(key, l, y);
      SwapMinElems(key, l, y);
      var l1 := SwapMin(l, y);
      assert key(y) < key(z);
      assert forall k :: k in Keys(key, l1) ==> k < key(z);
    }
  }

  /**
   * The two-children case of removeAux, second half: once the swapped element
   * is removed from the right subtree, the successor is a valid root and the
   * tree has lost exactly the removed element.
   */
  lemma SuccessorReplacesRoot<T>(key: T -> int, t: Tree<T>, r2: Tree<T>)
    requires t.Node? && t.right.Node? && Bst(key, t) && Bst(key, r2)
    requires Elems(r2) == Elems(t.right) - {FindMin(t.right)}
    requires Keys(key, r2) == Keys(key, t.right) - {key(FindMin(t.right))}
    ensures Bst(key, Node(t.left, FindMin(t.right), r2))
    ensures Elems(Node(t.left, FindMin(t.right), r2)) == Elems(t) - {t.elem}
    ensures Keys(key, Node(t.left, FindMin(t.right), r2)) == Keys(key, t) - {key(t.elem)}
  {
    var m := FindMin(t.right);
    MinIsLeast(key, t.right);
    ElemKeysAreKeys(key, t.right);
    ElemKeysAreKeys(key, t.left);
    assert key(m) in Keys(key, t.right);
    assert t.elem !in Elems(t.left) && t.elem !in Elems(t.right);
    KeysAreKeysOfElems(key, r2);
    forall k | k in Keys(key, r2) ensures key(m) < k {
      var x :| x in Elems(r2) && key(x) == k;
    }
  }

  /** Replacing the left subtree of a search tree by that subtree minus one of its elements. */
  lemma ShrinkLeft<T>(key: T -> int, l: Tree<T>, y: T, r: Tree<T>, l2: Tree<T>, x: T)
    requires Bst(key, Node(l, y, r)) && x in Elems(l) && Bst(key, l2)
    requires Elems(l2) == Elems(l) - {x} && Keys(key, l2) == Keys(key, l) - {key(x)}
    ensures Elems(Node(l2, y, r)) == Elems(Node(l, y, r)) - {x}
    ensures Keys(key, Node(l2, y, r)) == Keys(key, Node(l, y, r)) - {key(x)}
    ensures Bst(key, Node(l2, y, r))
  {
    DisjointParts(key, l, y, r);
    ElemKeysAreKeys(key, l);
    assert key(x) in Keys(key, l);
    assert key(x) !in Keys(key, r) && key(x) != key(y);
  }

  /** Replacing the right subtree of a search tree by that subtree minus one of its elements. */
  lemma ShrinkRight<T>(key: T -> int, l: Tree<T>, y: T, r: Tree<T>, r2: Tree<T>, x: T)
    requires Bst(key, Node(l, y, r)) && x in Elems(r) && Bst(key, r2)
    requires Elems(r2) == Elems(r) - {x} && Keys(key, r2) == Keys(key, r) - {key(x)}
    ensures Elems(Node(l, y, r2)) == Elems(Node(l, y, r)) - {x}
    ensures Keys(key, Node(l, y, r2)) == Keys(key, Node(l, y, r)) - {key(x)}
    ensures Bst(key, Node(l, y, r2))
  {
    DisjointParts(key, l, y, r);
    ElemKeysAreKeys(key, r);
    assert key(x) in Keys(key, r);
    assert key(x) !in Keys(key, l) && key(x) != key(y);
  }
}
