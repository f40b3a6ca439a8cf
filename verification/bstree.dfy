/**
 * BSTree: an unbalanced binary search tree of elements with unique keys.
 * The tree object holds only its root pointer, so the model works on the
 * root `Tree` directly; contains and find are BinTree.ContainsAux and
 * BinTree.FindAux, which BSTree and AVLTree share word for word.
 */
module BSTree {
  import opened Outcome
  import opened BinTree

  /** insert / insertAux: a new leaf where the descent falls off the tree. */
  function Insert<T>(key: T -> int, t: Tree<T>, x: T): (r: Result<Tree<T>>)
    ensures r.Err? ==> r.msg == "Duplicated element." && key(x) in Keys(key, t)
    ensures r.Ok? ==> Elems(r.value) == Elems(t) + {x}
    ensures r.Ok? ==> Keys(key, r.value) == Keys(key, t) + {key(x)}
    ensures Bst(key, t) ==> (r.Ok? <==> key(x) !in Keys(key, t))
    ensures Bst(key, t) && r.Ok? ==> Bst(key, r.value)
  {
    match t
    case Nil => Ok(Node(Nil, x, Nil))
    case Node(l, y, rt) =>
      if key(x) == key(y) then Err("Duplicated element.")
      else if key(x) < key(y) then
        var l' :- Insert(key, l, x);
        Ok(Node(l', y, rt))
      else
        var r' :- Insert(key, rt, x);
        Ok(Node(l, y, r'))
  }

  /**
   * remove / removeAux: unlink the node holding key k; a node with two
   * children first swaps its element with its successor and removes that one
   * from the right subtree.  Returns the new tree and the removed element.
   */
  function Remove<T>(key: T -> int, t: Tree<T>, k: int): (r: Result<(Tree<T>, T)>)
    ensures r.Err? ==> r.msg == "Element not found."
    ensures r.Ok? ==> key(r.value.1) == k
    decreases Size(t)
  {
    match t
    case Nil => Err("Element not found.")
    case Node(l, y, rt) =>
      if k < key(y) then
        var p :- Remove(key, l, k);
        Ok((Node(p.0, y, rt), p.1))
      else if k > key(y) then
        var p :- Remove(key, rt, k);
        Ok((Node(l, y, p.0), p.1))
      else if ChildrenCount(t) == 0 then Ok((Nil, y))
      else if ChildrenCount(t) == 1 then Ok((OnlyChild(t), y))
      else
        var p :- Remove(key, SwapMin(rt, y), k);
        Ok((Node(l, FindMin(rt), p.0), p.1))
  }

  /** On a search tree, remove succeeds exactly for a stored key and takes out exactly that element. */
  lemma {:induction false} RemoveCorrect<T>(key: T -> int, t: Tree<T>, k: int)
    requires Bst(key, t)
    ensures Remove(key, t, k).Ok? <==> k in Keys(key, t)
    ensures Remove(key, t, k).Ok? ==>
      var (t', x) := Remove(key, t, k).value;
      Bst(key, t') && x in Elems(t) &&
      Elems(t') == Elems(t) - {x} && Keys(key, t') == Keys(key, t) - {k}
    decreases Size(t)
  {
    match t
    case Nil =>
    case Node(l, y, rt) =>
      if k < key(y) {
        RemoveInLeft(key, t, k);
      } else if k > key(y) {
        RemoveInRight(key, t, k);
      } else if ChildrenCount(t) == 0 {
      } else if ChildrenCount(t) == 1 {
        DisjointParts(key, l, y, rt);
      } else {
        RemoveSwapped(key, t);
      }
  }

  /** The descent case of RemoveCorrect for a key below the root's: the right subtree is kept. */
  lemma {:induction false} RemoveInLeft<T>(key: T -> int, t: Tree<T>, k: int)
    requires t.Node? && Bst(key, t) && k < key(t.elem)
    ensures Remove(key, t, k).Ok? <==> k in Keys(key, t)
    ensures Remove(key, t, k).Ok? ==>
      var (t', x) := Remove(key, t, k).value;
      Bst(key, t') && x in Elems(t) &&
      Elems(t') == Elems(t) - {x} && Keys(key, t') == Keys(key, t) - {k}
    decreases Size(t), 0
  {
    var Node(l, y, rt) := t;
    DisjointParts(key, l, y, rt);
    RemoveCorrect(key, l, k);
    ElemKeysAreKeys(key, rt);
  }

  /** The descent case of RemoveCorrect for a key above the root's: the left subtree is kept. */
  lemma {:induction false} RemoveInRight<T>(key: T -> int, t: Tree<T>, k: int)
    requires t.Node? && Bst(key, t) && k > key(t.elem)
    ensures Remove(key, t, k).Ok? <==> k in Keys(key, t)
    ensures Remove(key, t, k).Ok? ==>
      var (t', x) := Remove(key, t, k).value;
      Bst(key, t') && x in Elems(t) &&
      Elems(t') == Elems(t) - {x} && Keys(key, t') == Keys(key, t) - {k}
    decreases Size(t), 0
  {
    var Node(l, y, rt) := t;
    DisjointParts(key, l, y, rt);
    RemoveCorrect(key, rt, k);
    ElemKeysAreKeys(key, l);
  }

  /** RemoveCorrect for callers that do not know the tree is a search tree. */
  lemma RemoveSpec<T>(key: T -> int, t: Tree<T>, k: int)
    ensures Bst(key, t) ==> (Remove(key, t, k).Ok? <==> k in Keys(key, t))
    ensures Bst(key, t) && Remove(key, t, k).Ok? ==>
      var (t', x) := Remove(key, t, k).value;
      Bst(key, t') && x in Elems(t) &&
      Elems(t') == Elems(t) - {x} && Keys(key, t') == Keys(key, t) - {k}
  {
    if Bst(key, t) {
      RemoveCorrect(key, t, k);
    }
  }

  /** The two-children case of RemoveCorrect. */
  lemma {:induction false} RemoveSwapped<T>(key: T -> int, t: Tree<T>)
    requires t.Node? && t.left.Node? && t.right.Node? && Bst(key, t)
    ensures Remove(key, t, key(t.elem)).Ok? &&
      var (t', x) := Remove(key, t, key(t.elem)).value;
      Bst(key, t') && x == t.elem &&
      Elems(t') == Elems(t) - {x} && Keys(key, t') == Keys(key, t) - {key(x)}
    decreases Size(t), 0
  {
    var l, y, rt := t.left, t.elem, t.right;
    var k := key(y);
    var r1 := SwapMin(rt, y);
    SwapMinKeepsOrder(key, rt, y);
    SwapMinElems(key, rt, y);
    RemoveCorrect(key, r1, k);
    var (r2, x) := Remove(key, r1, k).value;
    KeyIdentifies(key, r1, x, y);
    DisjointParts(key, l, y, rt);
    assert Elems(r2) == Elems(rt) - {FindMin(rt)};
    assert Keys(key, r2) == Keys(key, rt) - {key(FindMin(rt))};
    SuccessorReplacesRoot(key, t, r2);
  }

  /** clear: the tree becomes empty. */
  function Clear<T>(t: Tree<T>): (r: Tree<T>)
    ensures Size(r) == 0 && InOrder(r) == []
  {
    Nil
  }

  /** getElements: the elements in ascending key order. */
  function GetElements<T>(key: T -> int, t: Tree<T>): (s: seq<T>)
    ensures |s| == Size(t)
    ensures Elems(t) == set x | x in s
    ensures Bst(key, t) ==> Ascending(key, s)
  {
    SizeIsLength(t);
    ElemsAreInOrder(t);
    BstIffAscending(key, t);
    InOrder(t)
  }

  /** getSize: the number of stored elements, counted node by node. */
  function GetSize<T>(t: Tree<T>): (n: nat)
    ensures n == |InOrder(t)|
  {
    SizeIsLength(t);
    Size(t)
  }

  /** getHeight: nodes on the longest path, between log2 of the size and the size. */
  function GetHeight<T>(t: Tree<T>): (h: nat)
    ensures h <= Size(t) < Pow2(h)
  {
    HeightBounds(t);
    Height(t)
  }

  /** After a successful insert the element is found by its key, and the size grows by one. */
  lemma InsertThenFind<T>(key: T -> int, t: Tree<T>, x: T)
    requires Bst(key, t) && key(x) !in Keys(key, t)
    ensures Insert(key, t, x).Ok? &&
      FindAux(key, Insert(key, t, x).value, key(x)) == Ok(x) &&
      Size(Insert(key, t, x).value) == Size(t) + 1
  {
    var t' := Insert(key, t, x).value;
    var f := FindAux(key, t', key(x)).value;
    KeyIdentifies(key, t', f, x);
    SizeIsCardinality(key, t);
    SizeIsCardinality(key, t');
  }

  /** Removing what was just inserted gives back the element and the original contents. */
  lemma RemoveUndoesInsert<T>(key: T -> int, t: Tree<T>, x: T)
    requires Bst(key, t) && key(x) !in Keys(key, t)
    ensures Insert(key, t, x).Ok?
    ensures var t' := Insert(key, t, x).value;
      Remove(key, t', key(x)).Ok? &&
      Remove(key, t', key(x)).value.1 == x &&
      Elems(Remove(key, t', key(x)).value.0) == Elems(t)
  {
    var t' := Insert(key, t, x).value;
    RemoveCorrect(key, t', key(x));
    var (t'', y) := Remove(key, t', key(x)).value;
    KeyIdentifies(key, t', x, y);
    ElemKeysAreKeys(key, t);
  }
}
