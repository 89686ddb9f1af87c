/**
 The AVL insertion algorithm of `AVLTree` on values.

 A subtree is a `Tree`: either absent (`Nil`, a null reference in the
 heap) or a node holding a stored value, two children and the height
 cached in the node. Every function below follows one method of the
 heap implementation step by step, including the order in which the
 cached heights are recomputed, so that the heap methods of module
 `AvlTree` can be specified as "the node now models F(old model)".
 Stored values are integers; `<` stands for `compareTo(..) < 0`.
 */
module AvlSpec {

  datatype Tree = Nil | Node(data: int, left: Tree, right: Tree, height: int)

  function Max(a: int, b: int): int
  {
    if a >= b then a else b
  }

  // ---------------------------------------------------------------------
  // Reference definitions: contents, order and true height of a tree
  // ---------------------------------------------------------------------

  /** The values met by an in-order traversal. */
  function InOrder(t: Tree): seq<int>
  {
    match t
    case Nil => []
    case Node(d, l, r, _) => InOrder(l) + [d] + InOrder(r)
  }

  /** The stored values, with their multiplicities. */
  function Elements(t: Tree): multiset<int>
  {
    multiset(InOrder(t))
  }

  function Size(t: Tree): nat
  {
    |InOrder(t)|
  }

  ghost predicate Sorted(s: seq<int>)
  {
    forall i, j :: 0 <= i < j < |s| ==> s[i] <= s[j]
  }

  /** BST ordering as the algorithm keeps it: the in-order traversal is non-decreasing. */
  ghost predicate Ordered(t: Tree)
  {
    Sorted(InOrder(t))
  }

  /** The true height of a tree, computed from its shape alone (an empty tree has height -1). */
  function RealHeight(t: Tree): (h: int)
    ensures t.Nil? <==> h == -1
    ensures t.Node? ==> h >= 0
  {
    match t
    case Nil => -1
    case Node(_, l, r, _) => 1 + Max(RealHeight(l), RealHeight(r))
  }

  /** Cached-height correctness: every node caches the true height of its subtree. */
  ghost predicate HeightsCorrect(t: Tree)
  {
    match t
    case Nil => true
    case Node(_, l, r, h) => HeightsCorrect(l) && HeightsCorrect(r) && h == RealHeight(t)
  }

  /** The AVL balance property: at every node the children's heights differ by at most one. */
  ghost predicate Balanced(t: Tree)
  {
    match t
    case Nil => true
    case Node(_, l, r, _) => Balanced(l) && Balanced(r) && -1 <= Height(l) - Height(r) <= 1
  }

  /** An AVL tree: correct cached heights (so `Balanced` speaks of true heights) and balance. */
  ghost predicate IsAvl(t: Tree)
  {
    HeightsCorrect(t) && Balanced(t)
  }

  // ---------------------------------------------------------------------
  // The algorithm
  // ---------------------------------------------------------------------

  /**
   `height(node)`: -1 for an absent subtree, the cached value otherwise; `CachedHeight`
   shows it is the true height where the caches are correct.
   */
  function Height(t: Tree): (h: int)
    ensures t.Nil? ==> h == -1
  {
    if t.Nil? then -1 else t.height
  }

  /** The node `new AVLNode(x)` creates. */
  function Leaf(x: int): (r: Tree)
    ensures IsAvl(r) && Ordered(r)
    ensures InOrder(r) == [x] && RealHeight(r) == 0
  {
    Node(x, Nil, Nil, 0)
  }

  /** `updateHeight(node)`: recompute the cached height of the root from its children's. */
  function UpdateHeight(t: Tree): (r: Tree)
    requires t.Node?
    ensures HeightsCorrect(t.left) && HeightsCorrect(t.right) ==> HeightsCorrect(r)
  {
    Node(t.data, t.left, t.right, 1 + Max(Height(t.left), Height(t.right)))
  }

  /** `rotateRight(node)`: the left child becomes the root, the old root its right child. */
  function RotateRight(t: Tree): (r: Tree)
    requires t.Node? && t.left.Node?
    ensures HeightsCorrect(t.left.left) && HeightsCorrect(t.left.right) && HeightsCorrect(t.right)
            ==> HeightsCorrect(r)
  {
    var l := t.left;
    var n := UpdateHeight(Node(t.data, l.right, t.right, t.height));
    UpdateHeight(Node(l.data, l.left, n, l.height))
  }

  /** `rotateLeft(node)`: the right child becomes the root, the old root its left child. */
  function RotateLeft(t: Tree): (r: Tree)
    requires t.Node? && t.right.Node?
    ensures HeightsCorrect(t.left) && HeightsCorrect(t.right.left) && HeightsCorrect(t.right.right)
            ==> HeightsCorrect(r)
  {
    var rt := t.right;
    var n := UpdateHeight(Node(t.data, t.left, rt.left, t.height));
    UpdateHeight(Node(rt.data, n, rt.right, rt.height))
  }

  lemma CachedHeight(t: Tree)
    requires HeightsCorrect(t)
    ensures Height(t) == RealHeight(t) >= -1
  {
  }

  /**
   `rebalance(node)`: one of the four AVL cases chosen from the cached heights, `>=`
   deciding between the single and the double rotation. The root's own cached height
   is not read; the caller recomputes it afterwards.
   */
  function Rebalance(t: Tree): (r: Tree)
    requires t.Node? ==> HeightsCorrect(t.left) && HeightsCorrect(t.right)
    ensures t.Nil? <==> r.Nil?
    ensures r.Node? ==> HeightsCorrect(r.left) && HeightsCorrect(r.right)
  {
    if t.Nil? then Nil
    else
      CachedHeight(t.left);
      CachedHeight(t.right);
      if Height(t.left) - Height(t.right) > 1 then
        CachedHeight(t.left.left);
        CachedHeight(t.left.right);
        if Height(t.left.left) >= Height(t.left.right) then RotateRight(t)
        else RotateRight(Node(t.data, RotateLeft(t.left), t.right, t.height))
      else if Height(t.right) - Height(t.left) > 1 then
        CachedHeight(t.right.left);
        CachedHeight(t.right.right);
        if Height(t.right.right) >= Height(t.right.left) then RotateLeft(t)
        else RotateLeft(Node(t.data, t.left, RotateRight(t.right), t.height))
      else t
  }

  /**
   The recursive `insert(data, node)`: strictly smaller values go left, all others
   (equal ones included) go right; on the way back each node is rebalanced and its
   height recomputed.
   */
  function Insert(x: int, t: Tree): (r: Tree)
    requires HeightsCorrect(t)
    ensures r.Node? && HeightsCorrect(r)
  {
    match t
    case Nil => Leaf(x)
    case Node(d, l, rt, h) =>
      var s := if x < d then Node(d, Insert(x, l), rt, h) else Node(d, l, Insert(x, rt), h);
      UpdateHeight(Rebalance(s))
  }

  /** A client's successive calls of the public `insert`, starting from `t`. */
  function InsertAll(xs: seq<int>, t: Tree): (r: Tree)
    requires HeightsCorrect(t)
    ensures HeightsCorrect(r)
  {
    if xs == [] then t else InsertAll(xs[1..], Insert(xs[0], t))
  }
}
