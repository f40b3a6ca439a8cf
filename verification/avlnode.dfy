/**
 * AVLNode: a tree node that caches its own height.  AVLTree recomputes
 * heights instead of reading this cache, so the node type is modelled on its
 * own: the cached heights are exact when every node stores the height of
 * its subtree.
 */
module AVLNode {
  import BinTree

  datatype HTree<T> = HNil | HNode(left: HTree<T>, elem: T, right: HTree<T>, height: int)

  /** The tree shape, heights forgotten. */
  function Shape<T>(t: HTree<T>): BinTree.Tree<T> {
    match t
    case HNil => BinTree.Nil
    case HNode(l, x, r, _) => BinTree.Node(Shape(l), x, Shape(r))
  }

  /** Every node caches the height of its own subtree. */
  ghost predicate HeightsExact<T>(t: HTree<T>) {
    match t
    case HNil => true
    case HNode(l, _, r, h) => HeightsExact(l) && HeightsExact(r) && h == BinTree.Height(Shape(t))
  }

  /** A missing child counts as height 0. */
  function StoredHeight<T>(t: HTree<T>): int {
    if t.HNil? then 0 else t.height
  }

  /** An exact cache holds the subtree's height. */
  lemma CacheIsHeight<T>(t: HTree<T>)
    ensures HeightsExact(t) ==> StoredHeight(t) == BinTree.Height(Shape(t))
  {
  }

  /** The constructor: a childless node of height 1. */
  function NewNode<T>(x: T): (n: HTree<T>)
    ensures n.HNode? && n.elem == x && n.left.HNil? && n.right.HNil?
    ensures HeightsExact(n) && Shape(n) == BinTree.Node(BinTree.Nil, x, BinTree.Nil)
  {
    HNode(HNil, x, HNil, 1)
  }

  /** balanceFactor: left height minus right height, read from the children's caches. */
  function BalanceFactor<T>(t: HTree<T>): (b: int)
    requires t.HNode?
    ensures HeightsExact(t) ==>
      b == BinTree.Height(Shape(t.left)) - BinTree.Height(Shape(t.right))
  {
    CacheIsHeight(t.left);
    CacheIsHeight(t.right);
    StoredHeight(t.left) - StoredHeight(t.right)
  }

  /** updateHeight: one more than the taller child's cached height. */
  function UpdateHeight<T>(t: HTree<T>): (u: HTree<T>)
    requires t.HNode?
    ensures u.HNode? && Shape(u) == Shape(t)
    ensures HeightsExact(t.left) && HeightsExact(t.right) ==> HeightsExact(u)
  {
    var lh := StoredHeight(t.left);
    var rh := StoredHeight(t.right);
    t.(height := 1 + (if lh > rh then lh else rh))
  }

  /** childrenCount: the number of non-null children. */
  function ChildrenCount<T>(t: HTree<T>): (n: nat)
    requires t.HNode?
    ensures n <= 2
    ensures n == BinTree.ChildrenCount(Shape(t))
  {
    (if t.left.HNil? then 0 else 1) + (if t.right.HNil? then 0 else 1)
  }

  /** onlyChild: the child when there is exactly one, otherwise null. */
  function OnlyChild<T>(t: HTree<T>): (c: HTree<T>)
    requires t.HNode?
    ensures ChildrenCount(t) == 1 ==> c.HNode? && (c == t.left || c == t.right)
    ensures ChildrenCount(t) != 1 <==> c.HNil?
  {
    if t.left.HNode? && t.right.HNil? then t.left
    else if t.right.HNode? && t.left.HNil? then t.right
    else HNil
  }
}
