/**
 * Zipper: node addresses and the parent-pointer view of a BinTree.Tree.
 *
 * The splay tree's nodes carry parent pointers and the tree remembers a
 * `last` node.  Here a node is named by its address, the directions taken
 * from the root, and the chain of parents above it is a zipper context:
 * each frame records the parent's element and the sibling subtree.  Parent
 * and child links are then consistent by construction, which the lemmas
 * UpDown, ParentOfChild and ChildOfParent state.
 */
module Zipper {
  import opened BinTree

  /** The child of a node in direction d. */
  function Child<T>(t: Tree<T>, d: Dir): (c: Tree<T>)
    requires t.Node?
    ensures Size(c) < Size(t)
  {
    if d == L then t.left else t.right
  }

  /** The subtree at address p; Nil once the path leaves the tree. */
  function Subtree<T>(t: Tree<T>, p: seq<Dir>): Tree<T>
    decreases |p|
  {
    if p == [] then t
    else
      var u := Subtree(t, p[..|p| - 1]);
      if u.Nil? then Nil else Child(u, p[|p| - 1])
  }

  /** p names a node of t. */
  predicate ValidAddr<T>(t: Tree<T>, p: seq<Dir>) {
    Subtree(t, p).Node?
  }

  /** p names a node of t or a null child of one. */
  predicate Within<T>(t: Tree<T>, p: seq<Dir>) {
    p == [] || ValidAddr(t, p[..|p| - 1])
  }

  /** One parent link: the parent's element and the sibling subtree. */
  datatype Frame<T> = WentLeft(up: T, right: Tree<T>) | WentRight(left: Tree<T>, up: T)

  /** A subtree in focus together with its chain of parents, innermost first. */
  datatype Zipper<T> = Zipper(focus: Tree<T>, ctx: seq<Frame<T>>)

  /** Rebuild the parent from a frame and the subtree below it. */
  function Attach<T>(f: Frame<T>, u: Tree<T>): (t: Tree<T>)
    ensures t.Node?
  {
    match f
    case WentLeft(x, r) => Node(u, x, r)
    case WentRight(l, x) => Node(l, x, u)
  }

  /** Follow a child pointer. */
  function Down<T>(z: Zipper<T>, d: Dir): (z': Zipper<T>)
    requires z.focus.Node?
    ensures z'.focus == Child(z.focus, d)
    ensures |z'.ctx| == |z.ctx| + 1 && z'.ctx[1..] == z.ctx
  {
    var Node(l, x, r) := z.focus;
    if d == L then Zipper(l, [WentLeft(x, r)] + z.ctx)
    else Zipper(r, [WentRight(l, x)] + z.ctx)
  }

  /** Follow the parent pointer. */
  function Up<T>(z: Zipper<T>): (z': Zipper<T>)
    requires z.ctx != []
    ensures z'.focus.Node? && |z'.ctx| == |z.ctx| - 1
  {
    Zipper(Attach(z.ctx[0], z.focus), z.ctx[1..])
  }

  /** Climb to the root, rebuilding the whole tree. */
  function Plug<T>(z: Zipper<T>): Tree<T>
    decreases |z.ctx|
  {
    if z.ctx == [] then z.focus else Plug(Up(z))
  }

  /** Walk from the root to address p. */
  function Open<T>(t: Tree<T>, p: seq<Dir>): (z: Zipper<T>)
    requires Within(t, p)
    ensures z.focus == Subtree(t, p) && |z.ctx| == |p|
    decreases |p|
  {
    if p == [] then Zipper(t, [])
    else
      var q := p[..|p| - 1];
      assert q == [] || q[..|q| - 1] == p[..|p| - 2];
      Down(Open(t, q), p[|p| - 1])
  }

  /** The address a context leads to, read from the root down. */
  function PathOf<T>(ctx: seq<Frame<T>>): (p: seq<Dir>)
    ensures |p| == |ctx|
  {
    if ctx == [] then []
    else PathOf(ctx[1..]) + [if ctx[0].WentLeft? then L else R]
  }

  /** Going down and back up returns to the same place. */
  lemma UpDown<T>(z: Zipper<T>, d: Dir)
    requires z.focus.Node?
    ensures Up(Down(z, d)) == z
  {
  }

  /** Going up and back down the way we came returns to the same place. */
  lemma DownUp<T>(z: Zipper<T>)
    requires z.ctx != []
    ensures Down(Up(z), if z.ctx[0].WentLeft? then L else R) == z
  {
    assert [z.ctx[0]] + z.ctx[1..] == z.ctx;
  }

  /** Plugging an opened tree gives back the tree. */
  lemma {:induction false} PlugOpen<T>(t: Tree<T>, p: seq<Dir>)
    requires Within(t, p)
    ensures Plug(Open(t, p)) == t
    decreases |p|
  {
    if p != [] {
      var q := p[..|p| - 1];
      assert q == [] || q[..|q| - 1] == p[..|p| - 2];
      PlugOpen(t, q);
      UpDown(Open(t, q), p[|p| - 1]);
    }
  }

  /** The context of an opened address leads back to that address. */
  lemma {:induction false} PathOfOpen<T>(t: Tree<T>, p: seq<Dir>)
    requires Within(t, p)
    ensures PathOf(Open(t, p).ctx) == p
    decreases |p|
  {
    if p != [] {
      var q := p[..|p| - 1];
      assert q == [] || q[..|q| - 1] == p[..|p| - 2];
      PathOfOpen(t, q);
      assert p == q + [p[|p| - 1]];
    }
  }

  /** Opening a plugged tree along its context's path finds the same zipper again. */
  lemma {:induction false} OpenPlug<T>(u: Tree<T>, ctx: seq<Frame<T>>)
    ensures Within(Plug(Zipper(u, ctx)), PathOf(ctx))
    ensures Open(Plug(Zipper(u, ctx)), PathOf(ctx)) == Zipper(u, ctx)
    decreases |ctx|
  {
    if ctx != [] {
      var z := Zipper(u, ctx);
      var t := Plug(z);
      var q := PathOf(ctx[1..]);
      var p := PathOf(ctx);
      OpenPlug(Attach(ctx[0], u), ctx[1..]);
      assert p[..|p| - 1] == q;
      assert Open(t, q) == Up(z);
      DownUp(z);
    }
  }

  /** The parent of a node's child is that node. */
  lemma ParentOfChild<T>(t: Tree<T>, p: seq<Dir>, d: Dir)
    requires ValidAddr(t, p)
    ensures Within(t, p + [d]) && (p + [d])[..|p|] == p
    ensures Open(t, p + [d]).ctx[0].up == Subtree(t, p).elem
    ensures Up(Open(t, p + [d])) == Open(t, p)
  {
    var q := p + [d];
    assert q[..|q| - 1] == p;
    assert Within(t, q);
    assert Open(t, q) == Down(Open(t, p), d);
    UpDown(Open(t, p), d);
  }

  /** Every non-root node is the child of its parent in the direction its address ends with. */
  lemma ChildOfParent<T>(t: Tree<T>, p: seq<Dir>)
    requires p != [] && ValidAddr(t, p)
    ensures Within(t, p[..|p| - 1])
    ensures Child(Subtree(t, p[..|p| - 1]), p[|p| - 1]) == Subtree(t, p)
  {
    var q := p[..|p| - 1];
    assert Subtree(t, q).Node?;
    assert q == [] || q[..|q| - 1] == p[..|p| - 2];
  }

  /** Addresses below the root: the first step picks the subtree. */
  lemma {:induction false} SubtreeCons<T>(t: Tree<T>, d: Dir, q: seq<Dir>)
    requires t.Node?
    ensures Subtree(t, [d] + q) == Subtree(Child(t, d), q)
    decreases |q|
  {
    if q != [] {
      var q' := q[..|q| - 1];
      assert ([d] + q)[..|q|] == [d] + q';
      SubtreeCons(t, d, q');
    } else {
      assert ([d] + q)[..0] == [];
    }
  }

  /** Two steps below an address. */
  lemma SubtreeSnoc<T>(t: Tree<T>, g: seq<Dir>, d: Dir)
    ensures Subtree(t, g + [d]) == (if Subtree(t, g).Nil? then Nil else Child(Subtree(t, g), d))
  {
    assert (g + [d])[..|g|] == g;
  }

  /** InOrder of a plugged tree depends on the focus only through its InOrder. */
  lemma {:induction false} PlugInOrder<T>(u: Tree<T>, v: Tree<T>, ctx: seq<Frame<T>>)
    requires InOrder(u) == InOrder(v)
    ensures InOrder(Plug(Zipper(u, ctx))) == InOrder(Plug(Zipper(v, ctx)))
    decreases |ctx|
  {
    if ctx != [] {
      PlugInOrder(Attach(ctx[0], u), Attach(ctx[0], v), ctx[1..]);
    }
  }

  /** Two trees with the same links, whatever their elements. */
  ghost predicate SameShape<T>(a: Tree<T>, b: Tree<T>) {
    match a
    case Nil => b.Nil?
    case Node(al, _, ar) => b.Node? && SameShape(al, b.left) && SameShape(ar, b.right)
  }

  lemma {:induction false} SameShapeRefl<T>(t: Tree<T>)
    ensures SameShape(t, t)
  {
    if t.Node? {
      SameShapeRefl(t.left);
      SameShapeRefl(t.right);
    }
  }

  /** Trees with the same links have the same addresses. */
  lemma {:induction false} SameShapeAddr<T>(a: Tree<T>, b: Tree<T>, p: seq<Dir>)
    requires SameShape(a, b)
    ensures SameShape(Subtree(a, p), Subtree(b, p))
    ensures ValidAddr(a, p) <==> ValidAddr(b, p)
    decreases |p|
  {
    if p != [] {
      SameShapeAddr(a, b, p[..|p| - 1]);
    }
  }
}
