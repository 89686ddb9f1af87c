/**
 The AVL tree as the source keeps it: heap nodes linked by `left` and
 `right` references, each caching its height, and a tree object owning
 the root. Every method relinks and updates the nodes in the source's
 order; its contract says which `AvlSpec` function of the old subtree the
 new subtree models, so the properties proved in `AvlProperties` carry
 over to the heap.

 The nodes carry only the source's four fields. Which nodes form a
 subtree, and how they hang together, is recorded in a ghost `Shape`
 value that the methods take and return beside the node references.
 */
module AvlTree {
  import opened AvlSpec
  import AvlProperties

  /** A node of the tree; `new AVLNode(data)` is a leaf of height 0. */
  class AVLNode {
    var data: int
    var left: AVLNode?
    var right: AVLNode?
    var height: int

    constructor (data: int)
      ensures this.data == data && left == null && right == null && height == 0
    {
      this.data := data;
      left := null;
      right := null;
      height := 0;
    }
  }

  /** The node objects of a subtree, arranged as the subtree is. */
  datatype Shape = Empty | Cell(obj: AVLNode, l: Shape, r: Shape)

  /** The reference to the subtree: null for an absent one. */
  function Root(s: Shape): AVLNode?
  {
    if s.Empty? then null else s.obj
  }

  /** The nodes of the subtree. */
  function Objs(s: Shape): set<AVLNode>
  {
    if s.Empty? then {} else {s.obj} + Objs(s.l) + Objs(s.r)
  }

  /** The heap links follow the shape, and no node occurs twice in it. */
  ghost predicate Wf(s: Shape)
    reads Objs(s)
  {
    match s
    case Empty => true
    case Cell(n, l, r) =>
      n.left == Root(l) && n.right == Root(r) && Wf(l) && Wf(r) &&
      n !in Objs(l) && n !in Objs(r) && Objs(l) !! Objs(r)
  }

  /** The subtree as a value: the data, links and cached heights of its nodes. */
  ghost function ModelOf(s: Shape): Tree
    reads Objs(s)
  {
    match s
    case Empty => Nil
    case Cell(n, l, r) => Node(n.data, ModelOf(l), ModelOf(r), n.height)
  }

  /** The nodes of a shape at hand exist already; a node allocated later is not among them. */
  lemma {:induction false} ObjsAllocated(s: Shape)
    ensures forall n :: n in Objs(s) ==> allocated(n)
  {
    if s.Cell? {
      ObjsAllocated(s.l);
      ObjsAllocated(s.r);
    }
  }

  class AVLTree {
    var root: AVLNode?

    ghost var shape: Shape
    ghost var Repr: set<object>

    /** The tree owns its nodes and they form an ordered AVL tree with correct cached heights. */
    ghost predicate Valid()
      reads this, Repr
    {
      Repr == {this} + Objs(shape) &&
      Wf(shape) && Root(shape) == root &&
      IsAvl(ModelOf(shape)) && Ordered(ModelOf(shape))
    }

    ghost function Model(): Tree
      reads this, Objs(shape)
    {
      ModelOf(shape)
    }

    /** `new AVLTree()`: the empty tree. */
    constructor ()
      ensures Valid() && fresh(Repr) && Model() == Nil
    {
      root := null;
      shape := Empty;
      Repr := {this};
    }

    /**
     The public `insert(data)`: the root becomes the root of the tree that the recursive
     insertion returns, and the tree stays an ordered AVL tree. What `AvlSpec.Insert`
     does to the stored values is stated by `AvlProperties.InsertElements` and
     `AvlProperties.InsertInOrder`.
     */
    method Insert(data: int)
      requires Valid()
      modifies Repr
      ensures Valid() && fresh(Repr - old(Repr))
      ensures Model() == AvlSpec.Insert(data, old(Model()))
    {
      ghost var m := Model();
      AvlProperties.InsertKeepsAvl(data, m);
      AvlProperties.InsertKeepsOrdered(data, m);
      ghost var m' := AvlSpec.Insert(data, m);
      assert IsAvl(m') && Ordered(m');
      var r; ghost var s';
      r, s' := InsertAt(data, root, shape);
      assert forall o: object :: o in Objs(s') ==> o != this;
      root, shape, Repr := r, s', {this} + Objs(s');
      assert ModelOf(shape) == m';
    }

    /** The recursive `insert(data, node)`; it returns the new root of the subtree. */
    method InsertAt(data: int, node: AVLNode?, ghost s: Shape) returns (r: AVLNode, ghost s': Shape)
      requires Wf(s) && Root(s) == node && HeightsCorrect(ModelOf(s))
      modifies Objs(s)
      decreases s, 1
      ensures Wf(s') && Root(s') == r && fresh(Objs(s') - Objs(s))
      ensures ModelOf(s') == AvlSpec.Insert(data, old(ModelOf(s)))
    {
      if node == null {
        r := new AVLNode(data);
        s' := Cell(r, Empty, Empty);
        return;
      }
      ghost var m := ModelOf(s);
      ghost var t;
      if data < node.data {
        t := InsertLeft(data, node, s);
      } else {
        t := InsertRight(data, node, s);
      }
      assert AvlSpec.Insert(data, m) == AvlSpec.UpdateHeight(AvlSpec.Rebalance(ModelOf(t)));
      r, s' := Restore(node, t);
    }

    /** The descent to the left: the subtree the recursive insertion returns becomes the left child of `node`. */
    method InsertLeft(data: int, node: AVLNode, ghost s: Shape) returns (ghost s': Shape)
      requires Wf(s) && Root(s) == node && HeightsCorrect(ModelOf(s))
      modifies Objs(s)
      decreases s, 0
      ensures Wf(s') && Root(s') == node && s'.r == s.r && fresh(Objs(s') - Objs(s))
      ensures var m := old(ModelOf(s));
        ModelOf(s') == Node(m.data, AvlSpec.Insert(data, m.left), m.right, m.height)
      ensures HeightsCorrect(ModelOf(s'.l)) && HeightsCorrect(ModelOf(s'.r))
    {
      ObjsAllocated(s);
      assert Wf(s.l) && Wf(s.r) && node !in Objs(s.l) + Objs(s.r) && Objs(s.l) !! Objs(s.r);
      assert forall o :: o in Objs(s.r) ==> o !in Objs(s.l) && o != node;
      ghost var m := ModelOf(s);
      assert m == Node(node.data, ModelOf(s.l), ModelOf(s.r), node.height);
      var l; ghost var sl;
      l, sl := InsertAt(data, node.left, s.l);
      assert forall o :: o in Objs(sl) ==> o !in Objs(s.r) && o != node;
      node.left := l;
      assert Wf(s.r) && ModelOf(s.r) == m.right;
      assert Wf(sl) && ModelOf(sl) == AvlSpec.Insert(data, m.left);
      s' := Cell(node, sl, s.r);
    }

    /** The descent to the right (taken for equal values too): the returned subtree becomes the right child. */
    method InsertRight(data: int, node: AVLNode, ghost s: Shape) returns (ghost s': Shape)
      requires Wf(s) && Root(s) == node && HeightsCorrect(ModelOf(s))
      modifies Objs(s)
      decreases s, 0
      ensures Wf(s') && Root(s') == node && s'.l == s.l && fresh(Objs(s') - Objs(s))
      ensures var m := old(ModelOf(s));
        ModelOf(s') == Node(m.data, m.left, AvlSpec.Insert(data, m.right), m.height)
      ensures HeightsCorrect(ModelOf(s'.l)) && HeightsCorrect(ModelOf(s'.r))
    {
      ObjsAllocated(s);
      assert Wf(s.l) && Wf(s.r) && node !in Objs(s.l) + Objs(s.r) && Objs(s.l) !! Objs(s.r);
      assert forall o :: o in Objs(s.l) ==> o !in Objs(s.r) && o != node;
      ghost var m := ModelOf(s);
      assert m == Node(node.data, ModelOf(s.l), ModelOf(s.r), node.height);
      var r; ghost var sr;
      r, sr := InsertAt(data, node.right, s.r);
      assert forall o :: o in Objs(sr) ==> o !in Objs(s.l) && o != node;
      node.right := r;
      assert Wf(s.l) && ModelOf(s.l) == m.left;
      assert Wf(sr) && ModelOf(sr) == AvlSpec.Insert(data, m.right);
      s' := Cell(node, s.l, sr);
    }

    /** The way back up in `insert(data, node)`: rebalance the node, then recompute the height of whichever node is now on top. */
    method Restore(node: AVLNode, ghost s: Shape) returns (r: AVLNode, ghost s': Shape)
      requires Wf(s) && Root(s) == node
      requires HeightsCorrect(ModelOf(s.l)) && HeightsCorrect(ModelOf(s.r))
      modifies Objs(s)
      ensures Wf(s') && Root(s') == r && Objs(s') == Objs(s)
      ensures ModelOf(s') == AvlSpec.UpdateHeight(AvlSpec.Rebalance(old(ModelOf(s))))
    {
      var n;
      n, s' := Rebalance(node, s);
      r := n;
      UpdateHeight(r, s');
    }

    /** `rebalance(node)`: one of the four AVL cases chosen from the children's cached heights. */
    method Rebalance(node: AVLNode?, ghost s: Shape) returns (r: AVLNode?, ghost s': Shape)
      requires Wf(s) && Root(s) == node
      requires s.Cell? ==> HeightsCorrect(ModelOf(s.l)) && HeightsCorrect(ModelOf(s.r))
      modifies Objs(s)
      ensures Wf(s') && Root(s') == r && Objs(s') == Objs(s)
      ensures ModelOf(s') == AvlSpec.Rebalance(old(ModelOf(s)))
    {
      if node == null {
        return null, s;
      }
      ghost var m := ModelOf(s);
      assert m.left == ModelOf(s.l) && m.right == ModelOf(s.r);
      assert Height(node.left) == AvlSpec.Height(m.left) && Height(node.right) == AvlSpec.Height(m.right);
      r, s' := node, s;
      if Height(node.left) - Height(node.right) > 1 {
        AvlProperties.LeftHeavyCase(m);
        assert m.left.left == ModelOf(s.l.l) && m.left.right == ModelOf(s.l.r);
        assert Height(node.left.left) == AvlSpec.Height(m.left.left);
        assert Height(node.left.right) == AvlSpec.Height(m.left.right);
        if Height(node.left.left) >= Height(node.left.right) {
          r, s' := RotateRight(node, s);
        } else {
          ghost var s1 := RotateLeftChild(node, s);
          r, s' := RotateRight(node, s1);
        }
      } else if Height(node.right) - Height(node.left) > 1 {
        AvlProperties.RightHeavyCase(m);
        assert m.right.left == ModelOf(s.r.l) && m.right.right == ModelOf(s.r.r);
        assert Height(node.right.left) == AvlSpec.Height(m.right.left);
        assert Height(node.right.right) == AvlSpec.Height(m.right.right);
        if Height(node.right.right) >= Height(node.right.left) {
          r, s' := RotateLeft(node, s);
        } else {
          ghost var s1 := RotateRightChild(node, s);
          r, s' := RotateLeft(node, s1);
        }
      } else {
        AvlProperties.RebalanceNoOp(m);
      }
    }

    /** The first half of the left-right case: the left child is rotated left and relinked. */
    method RotateLeftChild(node: AVLNode, ghost s: Shape) returns (ghost s': Shape)
      requires Wf(s) && Root(s) == node && node.left != null && node.left.right != null
      modifies Objs(s)
      ensures Wf(s') && Root(s') == node && Objs(s') == Objs(s) && node.left != null
      ensures var m := old(ModelOf(s));
        m.left.Node? && m.left.right.Node? &&
        ModelOf(s') == Node(m.data, AvlSpec.RotateLeft(m.left), m.right, m.height)
    {
      ObjsAllocated(s);
      assert Wf(s.l) && Wf(s.r) && node !in Objs(s.l) + Objs(s.r) && Objs(s.l) !! Objs(s.r);
      ghost var sl;
      node.left, sl := RotateLeft(node.left, s.l);
      assert Wf(s.r) && ModelOf(s.r) == old(ModelOf(s.r));
      s' := Cell(node, sl, s.r);
    }

    /** The first half of the right-left case: the right child is rotated right and relinked. */
    method RotateRightChild(node: AVLNode, ghost s: Shape) returns (ghost s': Shape)
      requires Wf(s) && Root(s) == node && node.right != null && node.right.left != null
      modifies Objs(s)
      ensures Wf(s') && Root(s') == node && Objs(s') == Objs(s) && node.right != null
      ensures var m := old(ModelOf(s));
        m.right.Node? && m.right.left.Node? &&
        ModelOf(s') == Node(m.data, m.left, AvlSpec.RotateRight(m.right), m.height)
    {
      ObjsAllocated(s);
      assert Wf(s.l) && Wf(s.r) && node !in Objs(s.l) + Objs(s.r) && Objs(s.l) !! Objs(s.r);
      ghost var sr;
      node.right, sr := RotateRight(node.right, s.r);
      assert Wf(s.l) && ModelOf(s.l) == old(ModelOf(s.l));
      s' := Cell(node, s.l, sr);
    }

    /**
     `rotateRight(node)`: the left child becomes the subtree's root with `node` as its
     right child, and the left child's old right subtree moves under `node`. The height
     of `node` is recomputed before that of its new parent.
     */
    method RotateRight(node: AVLNode, ghost s: Shape) returns (r: AVLNode, ghost s': Shape)
      requires Wf(s) && Root(s) == node && node.left != null
      modifies Objs(s)
      ensures Wf(s') && Root(s') == r && Objs(s') == Objs(s)
      ensures old(ModelOf(s)).left.Node? && ModelOf(s') == AvlSpec.RotateRight(old(ModelOf(s)))
    {
      var left := node.left;
      ObjsAllocated(s);
      assert Wf(s.l) && node !in Objs(s.l) && Objs(s.l) !! Objs(s.r);
      assert {node, left} !! Objs(s.l.l) + Objs(s.l.r) + Objs(s.r);
      ghost var a, b, c := ModelOf(s.l.l), ModelOf(s.l.r), ModelOf(s.r);
      ghost var d, ld, h, lh := node.data, left.data, node.height, left.height;
      assert ModelOf(s) == Node(d, Node(ld, a, b, lh), c, h);
      node.left := left.right;
      left.right := node;
      assert Wf(s.l.r) && ModelOf(s.l.r) == b && Wf(s.r) && ModelOf(s.r) == c;
      ghost var n := Cell(node, s.l.r, s.r);
      UpdateHeight(node, n);
      assert ModelOf(n) == AvlSpec.UpdateHeight(Node(d, b, c, h));
      assert Wf(s.l.l) && ModelOf(s.l.l) == a;
      UpdateHeight(left, Cell(left, s.l.l, n));
      r, s' := left, Cell(left, s.l.l, n);
    }

    /** `rotateLeft(node)`: the mirror image of `RotateRight`. */
    method RotateLeft(node: AVLNode, ghost s: Shape) returns (r: AVLNode, ghost s': Shape)
      requires Wf(s) && Root(s) == node && node.right != null
      modifies Objs(s)
      ensures Wf(s') && Root(s') == r && Objs(s') == Objs(s)
      ensures old(ModelOf(s)).right.Node? && ModelOf(s') == AvlSpec.RotateLeft(old(ModelOf(s)))
    {
      var right := node.right;
      ObjsAllocated(s);
      assert Wf(s.r) && node !in Objs(s.r) && Objs(s.l) !! Objs(s.r);
      assert {node, right} !! Objs(s.l) + Objs(s.r.l) + Objs(s.r.r);
      ghost var a, b, c := ModelOf(s.l), ModelOf(s.r.l), ModelOf(s.r.r);
      ghost var d, rd, h, rh := node.data, right.data, node.height, right.height;
      assert ModelOf(s) == Node(d, a, Node(rd, b, c, rh), h);
      node.right := right.left;
      right.left := node;
      assert Wf(s.l) && ModelOf(s.l) == a && Wf(s.r.l) && ModelOf(s.r.l) == b;
      ghost var n := Cell(node, s.l, s.r.l);
      UpdateHeight(node, n);
      assert ModelOf(n) == AvlSpec.UpdateHeight(Node(d, a, b, h));
      assert Wf(s.r.r) && ModelOf(s.r.r) == c;
      UpdateHeight(right, Cell(right, n, s.r.r));
      r, s' := right, Cell(right, n, s.r.r);
    }

    /** `updateHeight(node)`: only the height of `node` changes. */
    method UpdateHeight(node: AVLNode, ghost s: Shape)
      requires Wf(s) && Root(s) == node
      modifies node
      ensures Wf(s)
      ensures node.height == 1 + Max(Height(node.left), Height(node.right))
      ensures ModelOf(s) == AvlSpec.UpdateHeight(old(ModelOf(s)))
    {
      node.height := Max(Height(node.left), Height(node.right)) + 1;
    }

    /** `height(node)`: the cached height, -1 for an absent subtree. */
    function Height(n: AVLNode?): (h: int)
      reads n
      ensures n == null ==> h == -1
      ensures n != null ==> h == n.height
    {
      if n == null then -1 else n.height
    }
  }
}
