/**
 * SplayTree: a binary search tree whose nodes know their parent and which
 * remembers the last node an operation touched.  After every insert, find,
 * findPointer, contains and remove, on success and on failure alike, a
 * splay moves that node to the root with zig, zig-zig and zig-zag
 * rotations.
 *
 * Two editions of the class exist.  They differ only in the messages of the
 * rotations and in `clear`, which in the legacy edition leaves `last`
 * pointing at a freed node.  Both are modelled, selected by `Edition`.
 *
 * `last` is an address (see the Zipper module).  An address that names no
 * node of the current tree is a dangling pointer: following it is undefined
 * behaviour in the library, and the model reports `Undefined`.
 */
module SplayTree {
  import opened Outcome
  import opened BinTree
  import opened Zipper
  import BSTree

  datatype Edition = Current | Legacy

  /** The `last` pointer: null, or the node at an address. */
  datatype Last = NoLast | LastAt(path: seq<Dir>)

  /** The tree object: root and last. */
  datatype State<T> = State(root: Tree<T>, last: Last)

  /** `last` is null or points into the tree. */
  predicate LastOk<T>(s: State<T>) {
    s.last.NoLast? || ValidAddr(s.root, s.last.path)
  }

  /** `last` is null or the root. */
  predicate LastAtRoot<T>(s: State<T>) {
    s.last.NoLast? || (s.last.path == [] && s.root.Node?)
  }

  /** The representation invariant: a search tree whose `last` points into it. */
  ghost predicate Valid<T>(key: T -> int, s: State<T>) {
    Bst(key, s.root) && LastOk(s)
  }

  /** The constructor: empty tree, null `last`. */
  function New<T>(key: T -> int): (s: State<T>)
    ensures Size(s.root) == 0 && Valid(key, s) && LastAtRoot(s)
  {
    State(Nil, NoLast)
  }

  // ---------------------------------------------------------------------
  // Rotations
  // ---------------------------------------------------------------------

  /** The shape change of a right rotation: the left child rises. */
  function RotR<T>(t: Tree<T>): (r: Tree<T>)
    requires t.Node? && t.left.Node?
    ensures r.Node? && r.elem == t.left.elem && r.right.Node? && r.right.elem == t.elem
    ensures InOrder(r) == InOrder(t)
  {
    var Node(Node(a, x, b), y, c) := t;
    assert InOrder(t) == InOrder(a) + [x] + (InOrder(b) + [y] + InOrder(c));
    Node(a, x, Node(b, y, c))
  }

  /** The shape change of a left rotation: the right child rises. */
  function RotL<T>(t: Tree<T>): (r: Tree<T>)
    requires t.Node? && t.right.Node?
    ensures r.Node? && r.elem == t.right.elem && r.left.Node? && r.left.elem == t.elem
    ensures InOrder(r) == InOrder(t)
  {
    var Node(a, x, Node(b, y, c)) := t;
    assert InOrder(Node(Node(a, x, b), y, c)) == InOrder(a) + [x] + InOrder(b) + [y] + InOrder(c);
    Node(Node(a, x, b), y, c)
  }

  /** Replacing the node at p by a subtree with the same in-order sequence, as the rotations' parent relinking does. */
  lemma RotatedInPlace<T>(t: Tree<T>, p: seq<Dir>, u: Tree<T>)
    requires Within(t, p) && InOrder(u) == InOrder(Subtree(t, p))
    ensures var t' := Plug(Zipper(u, Open(t, p).ctx));
      InOrder(t') == InOrder(t) && Within(t', p) && Open(t', p) == Zipper(u, Open(t, p).ctx)
  {
    var z := Open(t, p);
    PlugOpen(t, p);
    PathOfOpen(t, p);
    OpenPlug(u, z.ctx);
    PlugInOrder(u, z.focus, z.ctx);
  }

  /**
   * rotateRight on the node at p: fails when that node or its left child is
   * null; otherwise the left child takes the node's place under the same
   * parent (or as the root), and nothing else moves.
   */
  function RotateRight<T>(ed: Edition, t: Tree<T>, p: seq<Dir>): (r: Result<Tree<T>>)
    requires Within(t, p)
    ensures r.Err? <==> Subtree(t, p).Nil? || Subtree(t, p).left.Nil?
    ensures r.Err? && ed == Current ==> r.msg == "Can't rotate right."
    ensures r.Err? && ed == Legacy ==>
      r.msg == (if Subtree(t, p).Nil? then "Can't rotate right a null tree." else "Can't rotate right with a null left child.")
    ensures r.Ok? ==> InOrder(r.value) == InOrder(t)
    ensures r.Ok? ==> Within(r.value, p) && Open(r.value, p) == Zipper(RotR(Subtree(t, p)), Open(t, p).ctx)
    ensures r.Ok? && p == [] ==> r.value == RotR(t)
  {
    var z := Open(t, p);
    if z.focus.Nil? then
      Err(if ed == Current then "Can't rotate right." else "Can't rotate right a null tree.")
    else if z.focus.left.Nil? then
      Err(if ed == Current then "Can't rotate right." else "Can't rotate right with a null left child.")
    else
      var u := RotR(z.focus);
      RotatedInPlace(t, p, u);
      Ok(Plug(Zipper(u, z.ctx)))
  }

  /** rotateLeft on the node at p: the mirror image of rotateRight. */
  function RotateLeft<T>(ed: Edition, t: Tree<T>, p: seq<Dir>): (r: Result<Tree<T>>)
    requires Within(t, p)
    ensures r.Err? <==> Subtree(t, p).Nil? || Subtree(t, p).right.Nil?
    ensures r.Err? && ed == Current ==> r.msg == "Can't rotate left."
    ensures r.Err? && ed == Legacy ==>
      r.msg == (if Subtree(t, p).Nil? then "Can't rotate left a null tree." else "Can't rotate left with a null right child.")
    ensures r.Ok? ==> InOrder(r.value) == InOrder(t)
    ensures r.Ok? ==> Within(r.value, p) && Open(r.value, p) == Zipper(RotL(Subtree(t, p)), Open(t, p).ctx)
    ensures r.Ok? && p == [] ==> r.value == RotL(t)
  {
    var z := Open(t, p);
    if z.focus.Nil? then
      Err(if ed == Current then "Can't rotate left." else "Can't rotate left a null tree.")
    else if z.focus.right.Nil? then
      Err(if ed == Current then "Can't rotate left." else "Can't rotate left with a null right child.")
    else
      var u := RotL(z.focus);
      RotatedInPlace(t, p, u);
      Ok(Plug(Zipper(u, z.ctx)))
  }

  // ---------------------------------------------------------------------
  // Splay
  // ---------------------------------------------------------------------

  /** The addresses a splay step at depth two or more works with. */
  lemma StepAddresses<T>(t: Tree<T>, p: seq<Dir>)
    requires |p| >= 2 && ValidAddr(t, p)
    ensures var g := p[..|p| - 2];
      var d1, d2 := p[|p| - 2], p[|p| - 1];
      p == g + [d1] + [d2] && Within(t, g) && ValidAddr(t, g) &&
      Within(t, g + [d1]) && ValidAddr(t, g + [d1]) &&
      Subtree(t, g + [d1]) == Child(Subtree(t, g), d1) &&
      Subtree(t, p) == Child(Child(Subtree(t, g), d1), d2)
  {
    var g := p[..|p| - 2];
    var d1, d2 := p[|p| - 2], p[|p| - 1];
    assert p == g + [d1] + [d2];
    SubtreeSnoc(t, g + [d1], d2);
    SubtreeSnoc(t, g, d1);
    assert (g + [d1])[..|g|] == g;
    if g != [] {
      ChildOfParent(t, g);
    }
  }

  /**
   * One zig-zig or zig-zag step of splay for the node at p, depth two or
   * more: two rotations that lift it to the address g of its grandparent.
   */
  function SplayStep<T>(ed: Edition, t: Tree<T>, p: seq<Dir>): (r: Tree<T>)
    requires |p| >= 2 && ValidAddr(t, p)
    ensures ValidAddr(r, p[..|p| - 2])
    ensures Subtree(r, p[..|p| - 2]).elem == Subtree(t, p).elem
    ensures InOrder(r) == InOrder(t)
  {
    StepAddresses(t, p);
    var g := p[..|p| - 2];
    var d1, d2 := p[|p| - 2], p[|p| - 1];
    if d1 == L && d2 == L then
      var a := RotateRight(ed, t, g).value;
      RotateRight(ed, a, g).value
    else if d1 == R && d2 == R then
      var a := RotateLeft(ed, t, g).value;
      RotateLeft(ed, a, g).value
    else if d1 == L && d2 == R then
      var a := RotateLeft(ed, t, g + [L]).value;
      ParentOfChild(a, g, L);
      RotateRight(ed, a, g).value
    else
      var a := RotateRight(ed, t, g + [R]).value;
      ParentOfChild(a, g, R);
      RotateLeft(ed, a, g).value
  }

  /**
   * splay, for a `last` at address p: zig (one rotation at the root) when the
   * node is a child of the root, otherwise a zig-zig or zig-zag step and
   * again from the grandparent's address, until the node is the root.  The
   * node ends at the root and the in-order sequence is unchanged.
   */
  function SplayAt<T>(ed: Edition, t: Tree<T>, p: seq<Dir>): (r: Tree<T>)
    requires ValidAddr(t, p)
    ensures r.Node? && r.elem == Subtree(t, p).elem
    ensures InOrder(r) == InOrder(t)
    decreases |p|
  {
    if p == [] then t
    else if |p| == 1 then
      assert p == [] + [p[0]];
      SubtreeSnoc(t, [], p[0]);
      if p[0] == L then RotateRight(ed, t, []).value else RotateLeft(ed, t, []).value
    else
      SplayAt(ed, SplayStep(ed, t, p), p[..|p| - 2])
  }

  // ---------------------------------------------------------------------
  // Where the helpers leave `last`
  // ---------------------------------------------------------------------

  /**
   * What a recursive helper did to `last`, relative to the subtree it was
   * given: left it alone, set it to the parent of that subtree's root, or set
   * it to the node at an address inside the subtree.
   */
  datatype Mark = Unset | Above | At(path: seq<Dir>)

  /**
   * The mark seen one level up, from a node that set `last` to itself before
   * descending in direction d: a child's mark is shifted below d, and a child
   * that left `last` alone or named its parent leaves it at this node.
   */
  function Lift(d: Dir, m: Mark): (m': Mark)
    ensures m'.At?
    ensures m.At? ==> m'.path == [d] + m.path
    ensures !m.At? ==> m'.path == []
  {
    if m.At? then At([d] + m.path) else At([])
  }

  /** The new `last` after a public operation ran its helper from the root. */
  function ToLast(m: Mark, prev: Last): (l: Last)
    ensures m.At? ==> l == LastAt(m.path)
    ensures m.Above? ==> l == NoLast
    ensures m.Unset? ==> l == prev
  {
    match m
    case Unset => prev
    case Above => NoLast
    case At(p) => LastAt(p)
  }

  /** A lifted mark names a node of the parent whenever the child's mark named a node of the child. */
  lemma LiftValid<T>(t: Tree<T>, d: Dir, m: Mark)
    requires t.Node?
    requires m.At? ==> ValidAddr(Child(t, d), m.path)
    ensures ValidAddr(t, Lift(d, m).path)
    ensures m.At? ==> Subtree(t, Lift(d, m).path) == Subtree(Child(t, d), m.path)
  {
    if m.At? {
      SubtreeCons(t, d, m.path);
    }
  }

  /** The child a search for key k moves to from a node holding y. */
  function Toward<T>(key: T -> int, y: T, k: int): Dir {
    if k < key(y) then L else R
  }

  /** p follows the search for k from the root of t: every node on it has another key and p turns toward k. */
  ghost predicate Descends<T>(key: T -> int, t: Tree<T>, k: int, p: seq<Dir>)
    decreases |p|
  {
    p == [] ||
    (t.Node? && k != key(t.elem) && p[0] == Toward(key, t.elem, k) &&
     Descends(key, Child(t, p[0]), k, p[1..]))
  }

  /** The search for k stops at node n: n holds k, or the child toward k is null. */
  ghost predicate Stops<T>(key: T -> int, n: Tree<T>, k: int)
    requires n.Node?
  {
    key(n.elem) == k || Child(n, Toward(key, n.elem, k)).Nil?
  }

  /** A search path one level down, seen from the parent. */
  lemma DescendsCons<T>(key: T -> int, t: Tree<T>, k: int, m: Mark)
    requires t.Node? && k != key(t.elem)
    requires m.At? ==> Descends(key, Child(t, Toward(key, t.elem, k)), k, m.path)
    ensures Descends(key, t, k, Lift(Toward(key, t.elem, k), m).path)
  {
    var d := Toward(key, t.elem, k);
    if m.At? {
      var p := [d] + m.path;
      assert p[0] == d && p[1..] == m.path;
    }
  }

  // ---------------------------------------------------------------------
  // The recursive helpers
  // ---------------------------------------------------------------------

  /**
   * insertAux: the plain search-tree insert, leaving `last` on the new node,
   * or on the node holding the same key when the insert fails.
   */
  function InsertAux<T>(key: T -> int, t: Tree<T>, x: T): (r: (Result<Tree<T>>, Mark))
    ensures r.0 == BSTree.Insert(key, t, x)
    ensures r.1.At?
    ensures r.0.Ok? ==> Subtree(r.0.value, r.1.path) == Node(Nil, x, Nil)
    ensures r.0.Err? ==> ValidAddr(t, r.1.path) && key(Subtree(t, r.1.path).elem) == key(x)
  {
    match t
    case Nil => (Ok(Node(Nil, x, Nil)), At([]))
    case Node(l, y, rt) =>
      if key(x) == key(y) then (Err("Duplicated element."), At([]))
      else if key(x) < key(y) then
        var (o, m) := InsertAux(key, l, x);
        var t' := if o.Ok? then Node(o.value, y, rt) else t;
        LiftValid(t', L, m);
        (if o.Ok? then Ok(t') else Err(o.msg), Lift(L, m))
      else
        var (o, m) := InsertAux(key, rt, x);
        var t' := if o.Ok? then Node(l, y, o.value) else t;
        LiftValid(t', R, m);
        (if o.Ok? then Ok(t') else Err(o.msg), Lift(R, m))
  }

  /**
   * findAux, findPointerAux and containsAux: the same descent, which sets
   * `last` to every node it visits.  Returns whether the key was met and
   * where the descent stopped: nowhere for an empty tree, otherwise the last
   * node on the search path for k.
   */
  function SearchAux<T>(key: T -> int, t: Tree<T>, k: int): (r: (bool, Mark))
    ensures r.0 == ContainsAux(key, t, k)
    ensures r.1.Unset? <==> t.Nil?
    ensures !r.1.Above?
    ensures r.1.At? ==> ValidAddr(t, r.1.path) && Descends(key, t, k, r.1.path) &&
                        Stops(key, Subtree(t, r.1.path), k) &&
                        (r.0 <==> key(Subtree(t, r.1.path).elem) == k)
  {
    match t
    case Nil => (false, Unset)
    case Node(l, y, rt) =>
      if k == key(y) then (true, At([]))
      else
        var d := Toward(key, y, k);
        var (b, m) := SearchAux(key, Child(t, d), k);
        LiftValid(t, d, m);
        DescendsCons(key, t, k, m);
        (b, Lift(d, m))
  }

  /**
   * removeAux: the plain search-tree remove.  Every node passed on the way
   * down becomes `last`; the removed node makes `last` its parent (Above);
   * a two-children node swaps with its successor and the removal continues
   * in its right subtree, which sets `last` again.
   */
  function RemoveAux<T>(key: T -> int, t: Tree<T>, k: int): (r: (Result<(Tree<T>, T)>, Mark))
    ensures r.0 == BSTree.Remove(key, t, k)
    ensures r.1.Unset? <==> t.Nil?
    ensures r.1.Above? ==> t.Node? && key(t.elem) == k && ChildrenCount(t) < 2
    ensures r.0.Ok? && r.1.At? ==> ValidAddr(r.0.value.0, r.1.path)
    ensures r.0.Err? && r.1.At? ==> ValidAddr(t, r.1.path)
    decreases Size(t)
  {
    match t
    case Nil => (Err("Element not found."), Unset)
    case Node(l, y, rt) =>
      if k < key(y) then
        var (o, m) := RemoveAux(key, l, k);
        var t' := if o.Ok? then Node(o.value.0, y, rt) else t;
        LiftValid(t', L, m);
        (if o.Ok? then Ok((t', o.value.1)) else Err(o.msg), Lift(L, m))
      else if k > key(y) then
        var (o, m) := RemoveAux(key, rt, k);
        var t' := if o.Ok? then Node(l, y, o.value.0) else t;
        LiftValid(t', R, m);
        (if o.Ok? then Ok((t', o.value.1)) else Err(o.msg), Lift(R, m))
      else if ChildrenCount(t) == 0 then (Ok((Nil, y)), Above)
      else if ChildrenCount(t) == 1 then (Ok((OnlyChild(t), y)), Above)
      else
        var (o, m) := RemoveAux(key, SwapMin(rt, y), k);
        var t' := if o.Ok? then Node(l, FindMin(rt), o.value.0) else t;
        SwapMinShape(rt, y);
        if o.Ok? then LiftValid(t', R, m); (Ok((t', o.value.1)), Lift(R, m))
        else LiftValidShape(t, SwapMin(rt, y), m); (Err(o.msg), Lift(R, m))
  }

  /** A two-children node's failed removal leaves marks in a subtree shaped like its right subtree. */
  lemma LiftValidShape<T>(t: Tree<T>, u: Tree<T>, m: Mark)
    requires t.Node? && SameShape(t.right, u)
    requires m.At? ==> ValidAddr(u, m.path)
    ensures ValidAddr(t, Lift(R, m).path)
  {
    if m.At? {
      SameShapeAddr(t.right, u, m.path);
      SubtreeCons(t, R, m.path);
    }
  }

  /** Swapping the leftmost element changes no link. */
  lemma {:induction false} SwapMinShape<T>(t: Tree<T>, x: T)
    requires t.Node?
    ensures SameShape(t, SwapMin(t, x))
  {
    SameShapeRefl(t.right);
    if t.left.Node? {
      SwapMinShape(t.left, x);
    } else {
      SameShapeRefl(t.left);
    }
  }

  /** On a search tree a failed remove leaves `last` where a failed search would. */
  lemma {:induction false} RemoveFailsLikeSearch<T>(key: T -> int, t: Tree<T>, k: int)
    ensures Bst(key, t) ==> (RemoveAux(key, t, k).0.Err? <==> !SearchAux(key, t, k).0)
    ensures Bst(key, t) && RemoveAux(key, t, k).0.Err? ==> RemoveAux(key, t, k).1 == SearchAux(key, t, k).1
  {
    if Bst(key, t) {
      BSTree.RemoveCorrect(key, t, k);
      match t
      case Nil =>
      case Node(l, y, rt) =>
        if k < key(y) {
          RemoveFailsLikeSearch(key, l, k);
        } else if k > key(y) {
          RemoveFailsLikeSearch(key, rt, k);
        }
    }
  }

  // ---------------------------------------------------------------------
  // The public operations
  // ---------------------------------------------------------------------

  /** The outcome of splay(): the new root and `last`, or a dangling `last`. */
  datatype Splayed<T> = Splayed(root: Tree<T>, last: Last) | Dangling

  /** What a public operation does: its new state and its result or exception, or undefined behaviour. */
  datatype Step<T, R> = Done(state: State<T>, out: Result<R>) | Undefined

  /**
   * splay(): nothing when `last` is null; otherwise the node `last` points to
   * rises to the root and `last` keeps pointing at it.  A `last` that names
   * no node is followed all the same, which is undefined behaviour.
   */
  function Splay<T>(ed: Edition, t: Tree<T>, last: Last): (r: Splayed<T>)
    ensures r.Dangling? <==> last.LastAt? && !ValidAddr(t, last.path)
    ensures r.Splayed? ==> InOrder(r.root) == InOrder(t) && LastAtRoot(State(r.root, r.last))
    ensures r.Splayed? && last.NoLast? ==> r.root == t && r.last == NoLast
    ensures r.Splayed? && last.LastAt? ==>
      r.last == LastAt([]) && r.root.Node? && r.root.elem == Subtree(t, last.path).elem
  {
    match last
    case NoLast => Splayed(t, NoLast)
    case LastAt(p) =>
      if ValidAddr(t, p) then Splayed(SplayAt(ed, t, p), LastAt([])) else Dangling
  }

  /** The common tail of every public operation: splay, then report. */
  function Finish<T, R>(key: T -> int, ed: Edition, t: Tree<T>, last: Last, out: Result<R>): (r: Step<T, R>)
    ensures r.Undefined? <==> last.LastAt? && !ValidAddr(t, last.path)
    ensures r.Done? ==> r.out == out && LastAtRoot(r.state) && InOrder(r.state.root) == InOrder(t)
    ensures r.Done? ==> Elems(r.state.root) == Elems(t) && Keys(key, r.state.root) == Keys(key, t)
    ensures r.Done? ==> (Bst(key, r.state.root) <==> Bst(key, t))
    ensures r.Done? && last.LastAt? ==> r.state.root.Node? && r.state.root.elem == Subtree(t, last.path).elem
    ensures r.Done? && last.NoLast? ==> r.state == State(t, NoLast)
  {
    match Splay(ed, t, last)
    case Dangling => Undefined
    case Splayed(root, l) =>
      SameInOrder(key, t, root);
      Done(State(root, l), out)
  }

  /**
   * insert: a new element becomes a leaf and is splayed to the root; a
   * duplicate key fails with "Duplicated element." after splaying the node
   * holding that key.  Either way `last` ends at the root.
   */
  function Insert<T>(key: T -> int, ed: Edition, s: State<T>, x: T): (r: Step<T, Unit>)
    ensures r.Done? && LastAtRoot(r.state) && r.state.root.Node?
    ensures Bst(key, s.root) ==> (r.out.Ok? <==> key(x) !in Keys(key, s.root))
    ensures Bst(key, s.root) ==> Bst(key, r.state.root)
    ensures r.out.Ok? ==> Elems(r.state.root) == Elems(s.root) + {x} && r.state.root.elem == x
    ensures r.out.Err? ==> r.out.msg == "Duplicated element." && key(x) in Keys(key, s.root)
    ensures r.out.Err? ==> InOrder(r.state.root) == InOrder(s.root) && key(r.state.root.elem) == key(x)
  {
    var (o, m) := InsertAux(key, s.root, x);
    var t := if o.Ok? then o.value else s.root;
    Finish(key, ed, t, ToLast(m, s.last), if o.Ok? then Ok(Unit) else Err(o.msg))
  }

  /**
   * The descent shared by find, findPointer and contains, followed by the
   * splay of the last node visited.  On an empty tree `last` is left as it
   * was, and a stale `last` is then followed.
   */
  function Search<T>(key: T -> int, ed: Edition, s: State<T>, k: int): (r: Step<T, bool>)
    ensures r.Done? <==> s.root.Node? || LastOk(s)
    ensures r.Done? ==> r.out.Ok? && (r.out.value <==> ContainsAux(key, s.root, k))
    ensures r.Done? ==> InOrder(r.state.root) == InOrder(s.root) && LastAtRoot(r.state)
    ensures r.Done? ==> (Bst(key, r.state.root) <==> Bst(key, s.root))
    ensures r.Done? && s.root.Node? ==>
      var p := SearchAux(key, s.root, k).1.path;
      Descends(key, s.root, k, p) && Stops(key, Subtree(s.root, p), k) &&
      r.state.root.Node? && r.state.root.elem == Subtree(s.root, p).elem
    ensures r.Done? && r.out.value ==> key(r.state.root.elem) == k
    ensures r.Done? && s.root.Nil? ==> r.state == s
  {
    var (b, m) := SearchAux(key, s.root, k);
    Finish(key, ed, s.root, ToLast(m, s.last), Ok(b))
  }

  /** find: the stored element with key k, splayed to the root; otherwise "Element not found." after splaying the last node visited. */
  function Find<T>(key: T -> int, ed: Edition, s: State<T>, k: int): (r: Step<T, T>)
    ensures r.Done? <==> s.root.Node? || LastOk(s)
    ensures r.Done? ==> InOrder(r.state.root) == InOrder(s.root) && LastAtRoot(r.state)
    ensures r.Done? ==> (Bst(key, r.state.root) <==> Bst(key, s.root))
    ensures r.Done? && Bst(key, s.root) ==> (r.out.Ok? <==> k in Keys(key, s.root))
    ensures r.Done? && r.out.Ok? ==>
      r.out.value in Elems(s.root) && key(r.out.value) == k && r.state.root.elem == r.out.value
    ensures r.Done? && r.out.Err? ==> r.out.msg == "Element not found."
    ensures r.Done? && s.root.Node? ==>
      r.state.root.Node? && r.state.root.elem == Subtree(s.root, SearchAux(key, s.root, k).1.path).elem
  {
    match Search(key, ed, s, k)
    case Undefined => Undefined
    case Done(s', b) =>
      SameInOrder(key, s.root, s'.root);
      ElemsAreInOrder(s.root);
      Done(s', if b.value then Ok(s'.root.elem) else Err("Element not found."))
  }

  /**
   * findPointer: like find, but returns where the element lives.  After the
   * splay that is the root, so the address is always the empty one.
   */
  function FindPointer<T>(key: T -> int, ed: Edition, s: State<T>, k: int): (r: Step<T, seq<Dir>>)
    ensures r.Done? <==> s.root.Node? || LastOk(s)
    ensures r.Done? ==> InOrder(r.state.root) == InOrder(s.root) && LastAtRoot(r.state)
    ensures r.Done? && Bst(key, s.root) ==> (r.out.Ok? <==> k in Keys(key, s.root))
    ensures r.Done? && r.out.Ok? ==>
      ValidAddr(r.state.root, r.out.value) && key(Subtree(r.state.root, r.out.value).elem) == k
    ensures r.Done? && r.out.Err? ==> r.out.msg == "Element not found."
  {
    match Search(key, ed, s, k)
    case Undefined => Undefined
    case Done(s', b) =>
      Done(s', if b.value then Ok([]) else Err("Element not found."))
  }

  /** contains: never fails; true exactly when the key is stored, and the last node visited is splayed. */
  function Contains<T>(key: T -> int, ed: Edition, s: State<T>, k: int): (r: Step<T, bool>)
    ensures r.Done? <==> s.root.Node? || LastOk(s)
    ensures r.Done? ==> r.out.Ok? && InOrder(r.state.root) == InOrder(s.root) && LastAtRoot(r.state)
    ensures r.Done? && Bst(key, s.root) ==> (r.out.value <==> k in Keys(key, s.root))
  {
    Search(key, ed, s, k)
  }

  /**
   * remove: takes out the element with key k and splays the node `last`
   * ends on (the parent of the unlinked node, or nothing when that was the
   * root); an absent key fails with "Element not found." after splaying the
   * last node visited.
   */
  function Remove<T>(key: T -> int, ed: Edition, s: State<T>, k: int): (r: Step<T, T>)
    ensures r.Done? <==> s.root.Node? || LastOk(s)
    ensures r.Done? ==> LastAtRoot(r.state)
    ensures r.Done? && r.out.Err? ==> r.out.msg == "Element not found." && InOrder(r.state.root) == InOrder(s.root)
    ensures r.Done? && r.out.Ok? ==> key(r.out.value) == k
    ensures r.Done? && Bst(key, s.root) ==> (r.out.Ok? <==> k in Keys(key, s.root))
    ensures r.Done? && Bst(key, s.root) ==> Bst(key, r.state.root)
    ensures r.Done? && Bst(key, s.root) && r.out.Ok? ==>
      r.out.value in Elems(s.root) && Elems(r.state.root) == Elems(s.root) - {r.out.value}
    ensures r.Done? && Bst(key, s.root) && r.out.Err? && s.root.Node? ==>
      r.state.root.elem == Subtree(s.root, SearchAux(key, s.root, k).1.path).elem
  {
    var (o, m) := RemoveAux(key, s.root, k);
    BSTree.RemoveSpec(key, s.root, k);
    RemoveFailsLikeSearch(key, s.root, k);
    var t := if o.Ok? then o.value.0 else s.root;
    Finish(key, ed, t, ToLast(m, s.last), if o.Ok? then Ok(o.value.1) else Err(o.msg))
  }

  /** clear: the tree becomes empty; the current edition also resets `last`, the legacy one leaves it. */
  function Clear<T>(ed: Edition, s: State<T>): (r: State<T>)
    ensures r.root == Nil && Size(r.root) == 0
    ensures ed == Current ==> r.last == NoLast && LastAtRoot(r)
    ensures ed == Legacy ==> r.last == s.last
  {
    State(Nil, if ed == Current then NoLast else s.last)
  }

  /** getElements: the in-order sequence; it neither splays nor moves `last`. */
  function GetElements<T>(key: T -> int, s: State<T>): (e: seq<T>)
    ensures |e| == Size(s.root) && Elems(s.root) == set x | x in e
    ensures Bst(key, s.root) ==> Ascending(key, e)
  {
    BSTree.GetElements(key, s.root)
  }

  /** getSize: the number of nodes, the length of getElements. */
  function GetSize<T>(key: T -> int, s: State<T>): (n: nat)
    ensures n == |GetElements(key, s)|
  {
    SizeIsLength(s.root);
    Size(s.root)
  }

  /** getHeight: 0 for an empty tree, otherwise the nodes on the longest downward path. */
  function GetHeight<T>(s: State<T>): (h: nat)
    ensures h == 0 <==> s.root.Nil?
    ensures h <= Size(s.root) < Pow2(h)
  {
    HeightBounds(s.root);
    Height(s.root)
  }
  // ---------------------------------------------------------------------
  // The legacy clear
  // ---------------------------------------------------------------------

  /**
   * The legacy clear as written: after any insert `last` names the root, and
   * clear keeps it while freeing every node.  A find on the cleared tree then
   * leaves `last` alone (the tree is empty) and splay follows it: undefined
   * behaviour, where the current edition reports "Element not found.".
   */
  lemma LegacyClearLeavesDangling<T>(key: T -> int, x: T, k: int)
    ensures var s := Insert(key, Legacy, New(key), x).state;
      s.last == LastAt([]) &&
      Clear(Legacy, s) == State(Nil, LastAt([])) &&
      !LastOk(Clear(Legacy, s)) &&
      Find(key, Legacy, Clear(Legacy, s), k).Undefined? &&
      Contains(key, Legacy, Clear(Legacy, s), k).Undefined? &&
      Remove(key, Legacy, Clear(Legacy, s), k).Undefined?
  {
  }

  /** The corrected clear (the current edition): the invariant holds afterwards and the next operation is defined. */
  lemma ClearKeepsValid<T>(key: T -> int, s: State<T>, k: int)
    ensures Valid(key, Clear(Current, s))
    ensures Find(key, Current, Clear(Current, s), k) == Done(State(Nil, NoLast), Err("Element not found."))
    ensures Remove(key, Current, Clear(Current, s), k) == Done(State(Nil, NoLast), Err("Element not found."))
    ensures Contains(key, Current, Clear(Current, s), k) == Done(State(Nil, NoLast), Ok(false))
  {
  }
}
