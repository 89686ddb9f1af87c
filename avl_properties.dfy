/**
 What insertion into `AVLTree` guarantees, proved about the functions of
 module `AvlSpec`: the rotations and rebalancing keep the in-order
 sequence, insertion adds exactly one occurrence of the value at its
 sorted place, and an AVL tree with correct cached heights stays one.
 */
module AvlProperties {
  import opened AvlSpec

  // ---------------------------------------------------------------------
  // Heights
  // ---------------------------------------------------------------------

  /** The parts of an AVL node are AVL trees and the node caches the height its children give it. */
  lemma AvlChildren(t: Tree)
    requires t.Node? && IsAvl(t)
    ensures IsAvl(t.left) && IsAvl(t.right)
    ensures -1 <= Height(t.left) - Height(t.right) <= 1
    ensures Height(t) == 1 + Max(Height(t.left), Height(t.right))
  {
  }

  /** Two AVL trees whose heights differ by at most one make an AVL tree under a node caching the right height. */
  lemma AvlJoin(d: int, l: Tree, r: Tree, h: int)
    requires IsAvl(l) && IsAvl(r) && -1 <= Height(l) - Height(r) <= 1
    requires h == 1 + Max(Height(l), Height(r))
    ensures IsAvl(Node(d, l, r, h))
  {
  }

  /** `updateHeight` on a node whose cache is already correct changes nothing. */
  lemma UpdateHeightIdempotent(t: Tree)
    requires t.Node? && HeightsCorrect(t)
    ensures UpdateHeight(t) == t
  {
  }

  /** The cached height of a correctly cached tree is its true height, one more than its taller child's. */
  lemma HeightFormula(t: Tree)
    requires t.Node? && HeightsCorrect(t)
    ensures Height(t) == RealHeight(t) == 1 + Max(Height(t.left), Height(t.right))
  {
  }

  // ---------------------------------------------------------------------
  // The in-order sequence and the stored values
  // ---------------------------------------------------------------------

  /** Concatenation regrouped around a node's value. */
  lemma Associate(a: seq<int>, d: int, b: seq<int>)
    ensures a + [d] + b == a + ([d] + b)
  {
  }

  /** A right rotation keeps the in-order sequence. */
  lemma RotateRightInOrder(t: Tree)
    requires t.Node? && t.left.Node?
    ensures InOrder(RotateRight(t)) == InOrder(t)
  {
  }

  /** A left rotation keeps the in-order sequence. */
  lemma RotateLeftInOrder(t: Tree)
    requires t.Node? && t.right.Node?
    ensures InOrder(RotateLeft(t)) == InOrder(t)
  {
  }

  /** Rebalancing keeps the in-order sequence, whichever case applies. */
  lemma RebalanceInOrder(t: Tree)
    requires t.Node? ==> HeightsCorrect(t.left) && HeightsCorrect(t.right)
    ensures InOrder(Rebalance(t)) == InOrder(t)
  {
    if t.Node? {
      CachedHeight(t.left);
      CachedHeight(t.right);
      if Height(t.left) - Height(t.right) > 1 {
        CachedHeight(t.left.left);
        CachedHeight(t.left.right);
        if Height(t.left.left) >= Height(t.left.right) {
          RotateRightInOrder(t);
        } else {
          RotateLeftInOrder(t.left);
          RotateRightInOrder(Node(t.data, RotateLeft(t.left), t.right, t.height));
        }
      } else if Height(t.right) - Height(t.left) > 1 {
        CachedHeight(t.right.left);
        CachedHeight(t.right.right);
        if Height(t.right.right) >= Height(t.right.left) {
          RotateLeftInOrder(t);
        } else {
          RotateRightInOrder(t.right);
          RotateLeftInOrder(Node(t.data, t.left, RotateRight(t.right), t.height));
        }
      }
    }
  }

  /** Rebalancing a node and recomputing its height keeps the stored values. */
  lemma RestoreElements(s: Tree)
    requires s.Node? && HeightsCorrect(s.left) && HeightsCorrect(s.right)
    ensures Elements(UpdateHeight(Rebalance(s))) == Elements(s.left) + multiset{s.data} + Elements(s.right)
  {
    RebalanceInOrder(s);
    assert InOrder(UpdateHeight(Rebalance(s))) == InOrder(s);
  }

  /** Insertion adds exactly one occurrence of the value and loses none. */
  lemma {:induction false} InsertElements(x: int, t: Tree)
    requires HeightsCorrect(t)
    ensures Elements(Insert(x, t)) == Elements(t) + multiset{x}
  {
    match t
    case Nil =>
    case Node(d, l, r, h) =>
      if x < d {
        InsertElements(x, l);
        RestoreElements(Node(d, Insert(x, l), r, h));
      } else {
        InsertElements(x, r);
        RestoreElements(Node(d, l, Insert(x, r), h));
      }
  }

  // ---------------------------------------------------------------------
  // Rebalancing
  // ---------------------------------------------------------------------

  /** `rebalance` returns its argument when it is absent or its balance factor is within one. */
  lemma RebalanceNoOp(t: Tree)
    requires t.Node? ==> HeightsCorrect(t.left) && HeightsCorrect(t.right)
    requires t.Node? ==> -1 <= Height(t.left) - Height(t.right) <= 1
    ensures Rebalance(t) == t
  {
  }

  /** Rebalancing an AVL tree does nothing, and neither does the height update after it. */
  lemma {:induction false} RebalanceAvlNoOp(t: Tree)
    requires IsAvl(t)
    ensures Rebalance(t) == t
    ensures t.Node? ==> UpdateHeight(Rebalance(t)) == t
  {
    if t.Node? {
      AvlChildren(t);
      UpdateHeightIdempotent(t);
    }
  }

  /**
   The left-heavy cases. With `height(left.left) >= height(left.right)` the left child is
   lifted by a single right rotation; otherwise the left child's right child is lifted
   above both (double rotation) and takes its two subtrees apart.
   */
  lemma RebalanceLeftHeavy(t: Tree)
    requires t.Node? && HeightsCorrect(t.left) && HeightsCorrect(t.right)
    requires Height(t.left) - Height(t.right) > 1
    ensures t.left.Node?
    ensures Height(t.left.left) >= Height(t.left.right) ==>
      var r := Rebalance(t);
      r.Node? && r.data == t.left.data && r.left == t.left.left &&
      r.right.Node? && r.right.data == t.data && r.right.left == t.left.right && r.right.right == t.right
    ensures Height(t.left.left) < Height(t.left.right) ==>
      var r := Rebalance(t);
      t.left.right.Node? && r.Node? && r.data == t.left.right.data &&
      r.left.Node? && r.left.data == t.left.data && r.left.left == t.left.left && r.left.right == t.left.right.left &&
      r.right.Node? && r.right.data == t.data && r.right.left == t.left.right.right && r.right.right == t.right
  {
  }

  /** The right-heavy cases, mirroring `RebalanceLeftHeavy`. */
  lemma RebalanceRightHeavy(t: Tree)
    requires t.Node? && HeightsCorrect(t.left) && HeightsCorrect(t.right)
    requires Height(t.right) - Height(t.left) > 1
    ensures t.right.Node?
    ensures Height(t.right.right) >= Height(t.right.left) ==>
      var r := Rebalance(t);
      r.Node? && r.data == t.right.data && r.right == t.right.right &&
      r.left.Node? && r.left.data == t.data && r.left.left == t.left && r.left.right == t.right.left
    ensures Height(t.right.right) < Height(t.right.left) ==>
      var r := Rebalance(t);
      t.right.left.Node? && r.Node? && r.data == t.right.left.data &&
      r.right.Node? && r.right.data == t.right.data && r.right.right == t.right.right && r.right.left == t.right.left.right &&
      r.left.Node? && r.left.data == t.data && r.left.right == t.right.left.left && r.left.left == t.left
  {
  }

  /** The rotations `Rebalance` applies to a node whose left side is higher by two. */
  lemma LeftHeavyCase(t: Tree)
    requires t.Node? && HeightsCorrect(t.left) && HeightsCorrect(t.right)
    requires Height(t.left) - Height(t.right) > 1
    ensures t.left.Node?
    ensures Height(t.left.left) >= Height(t.left.right) ==> Rebalance(t) == RotateRight(t)
    ensures Height(t.left.left) < Height(t.left.right) ==>
      t.left.right.Node? &&
      Rebalance(t) == RotateRight(Node(t.data, RotateLeft(t.left), t.right, t.height))
  {
  }

  /** The rotations `Rebalance` applies to a node whose right side is higher by two. */
  lemma RightHeavyCase(t: Tree)
    requires t.Node? && HeightsCorrect(t.left) && HeightsCorrect(t.right)
    requires Height(t.left) - Height(t.right) <= 1 && Height(t.right) - Height(t.left) > 1
    ensures t.right.Node?
    ensures Height(t.right.right) >= Height(t.right.left) ==> Rebalance(t) == RotateLeft(t)
    ensures Height(t.right.right) < Height(t.right.left) ==>
      t.right.left.Node? &&
      Rebalance(t) == RotateLeft(Node(t.data, t.left, RotateRight(t.right), t.height))
  {
  }

  /** Left-left case: a single right rotation over AVL parts gives an AVL tree. */
  lemma RestoreLeftLeft(t: Tree)
    requires t.Node? && t.left.Node? && IsAvl(t.left) && IsAvl(t.right)
    requires Height(t.left) - Height(t.right) == 2 && Height(t.left.left) >= Height(t.left.right)
    ensures IsAvl(UpdateHeight(RotateRight(t)))
    ensures Height(UpdateHeight(RotateRight(t))) == Height(t.left) + (if Height(t.left.left) == Height(t.left.right) then 1 else 0)
  {
    var l, r := t.left, t.right;
    AvlChildren(l);
    var ll, lr := l.left, l.right;
    var n := UpdateHeight(Node(t.data, lr, r, t.height));
    AvlJoin(t.data, lr, r, n.height);
    var top := UpdateHeight(Node(l.data, ll, n, l.height));
    AvlJoin(l.data, ll, n, top.height);
    assert RotateRight(t) == top;
    UpdateHeightIdempotent(top);
  }

  /** Left-right case: the double rotation over AVL parts gives an AVL tree as high as the left child. */
  lemma RestoreLeftRight(t: Tree)
    requires t.Node? && t.left.Node? && t.left.right.Node? && IsAvl(t.left) && IsAvl(t.right)
    requires Height(t.left) - Height(t.right) == 2 && Height(t.left.left) < Height(t.left.right)
    ensures var u := UpdateHeight(RotateRight(Node(t.data, RotateLeft(t.left), t.right, t.height)));
      IsAvl(u) && Height(u) == Height(t.left)
  {
    var l, r := t.left, t.right;
    AvlChildren(l);
    var ll, lr := l.left, l.right;
    AvlChildren(lr);
    var a, b := lr.left, lr.right;
    var m := UpdateHeight(Node(l.data, ll, a, l.height));
    AvlJoin(l.data, ll, a, m.height);
    var n := UpdateHeight(Node(t.data, b, r, t.height));
    AvlJoin(t.data, b, r, n.height);
    var top := Node(lr.data, m, n, 1 + Max(Height(m), Height(n)));
    AvlJoin(lr.data, m, n, top.height);
    assert RotateLeft(l) == UpdateHeight(Node(lr.data, m, b, lr.height));
    assert RotateRight(Node(t.data, RotateLeft(l), r, t.height)) == top;
    UpdateHeightIdempotent(top);
  }

  /** Left-heavy by two: rebalancing and updating the height give an AVL tree. */
  lemma RestoreLeftHeavy(t: Tree)
    requires t.Node? && IsAvl(t.left) && IsAvl(t.right)
    requires Height(t.left) - Height(t.right) == 2
    ensures t.left.Node?
    ensures IsAvl(UpdateHeight(Rebalance(t)))
    ensures Height(UpdateHeight(Rebalance(t))) == Height(t.left) + (if Height(t.left.left) == Height(t.left.right) then 1 else 0)
  {
    LeftHeavyCase(t);
    if Height(t.left.left) >= Height(t.left.right) {
      RestoreLeftLeft(t);
    } else {
      RestoreLeftRight(t);
    }
  }

  /** Right-right case: the mirror of `RestoreLeftLeft`. */
  lemma RestoreRightRight(t: Tree)
    requires t.Node? && t.right.Node? && IsAvl(t.left) && IsAvl(t.right)
    requires Height(t.right) - Height(t.left) == 2 && Height(t.right.right) >= Height(t.right.left)
    ensures IsAvl(UpdateHeight(RotateLeft(t)))
    ensures Height(UpdateHeight(RotateLeft(t))) == Height(t.right) + (if Height(t.right.left) == Height(t.right.right) then 1 else 0)
  {
    var l, r := t.left, t.right;
    AvlChildren(r);
    var rl, rr := r.left, r.right;
    var n := UpdateHeight(Node(t.data, l, rl, t.height));
    AvlJoin(t.data, l, rl, n.height);
    var top := UpdateHeight(Node(r.data, n, rr, r.height));
    AvlJoin(r.data, n, rr, top.height);
    assert RotateLeft(t) == top;
    UpdateHeightIdempotent(top);
  }

  /** Right-left case: the mirror of `RestoreLeftRight`. */
  lemma RestoreRightLeft(t: Tree)
    requires t.Node? && t.right.Node? && t.right.left.Node? && IsAvl(t.left) && IsAvl(t.right)
    requires Height(t.right) - Height(t.left) == 2 && Height(t.right.right) < Height(t.right.left)
    ensures var u := UpdateHeight(RotateLeft(Node(t.data, t.left, RotateRight(t.right), t.height)));
      IsAvl(u) && Height(u) == Height(t.right)
  {
    var l, r := t.left, t.right;
    AvlChildren(r);
    var rl, rr := r.left, r.right;
    AvlChildren(rl);
    var a, b := rl.left, rl.right;
    var n := UpdateHeight(Node(t.data, l, a, t.height));
    AvlJoin(t.data, l, a, n.height);
    var m := UpdateHeight(Node(r.data, b, rr, r.height));
    AvlJoin(r.data, b, rr, m.height);
    var top := Node(rl.data, n, m, 1 + Max(Height(n), Height(m)));
    AvlJoin(rl.data, n, m, top.height);
    assert RotateRight(r) == UpdateHeight(Node(rl.data, a, m, rl.height));
    assert RotateLeft(Node(t.data, l, RotateRight(r), t.height)) == top;
    UpdateHeightIdempotent(top);
  }

  /** Right-heavy by two: the mirror of `RestoreLeftHeavy`. */
  lemma RestoreRightHeavy(t: Tree)
    requires t.Node? && IsAvl(t.left) && IsAvl(t.right)
    requires Height(t.right) - Height(t.left) == 2
    ensures t.right.Node?
    ensures IsAvl(UpdateHeight(Rebalance(t)))
    ensures Height(UpdateHeight(Rebalance(t))) == Height(t.right) + (if Height(t.right.left) == Height(t.right.right) then 1 else 0)
  {
    RightHeavyCase(t);
    if Height(t.right.right) >= Height(t.right.left) {
      RestoreRightRight(t);
    } else {
      RestoreRightLeft(t);
    }
  }

  // ---------------------------------------------------------------------
  // Insertion keeps the AVL property
  // ---------------------------------------------------------------------

  /**
   Insertion into an AVL tree gives an AVL tree whose height grew by at most one;
   when it grew (and is not a fresh leaf) its root is not perfectly balanced, which is
   why the `>=` tie-break never meets a tie during insertion.
   */
  lemma {:induction false} InsertKeepsAvl(x: int, t: Tree)
    requires IsAvl(t)
    ensures IsAvl(Insert(x, t))
    ensures var u := Insert(x, t);
            Height(u) == Height(t) ||
            (Height(u) == Height(t) + 1 && (Height(u) >= 1 ==> Height(u.left) != Height(u.right)))
  {
    match t
    case Nil =>
    case Node(d, l, r, h) =>
      AvlChildren(t);
      if x < d {
        InsertKeepsAvl(x, l);
        var l' := Insert(x, l);
        var s := Node(d, l', r, h);
        assert Insert(x, t) == UpdateHeight(Rebalance(s));
        if Height(l') - Height(r) <= 1 {
          RebalanceNoOp(s);
          AvlJoin(d, l', r, UpdateHeight(s).height);
        } else {
          RestoreLeftHeavy(s);
        }
      } else {
        InsertKeepsAvl(x, r);
        var r' := Insert(x, r);
        var s := Node(d, l, r', h);
        assert Insert(x, t) == UpdateHeight(Rebalance(s));
        if Height(r') - Height(l) <= 1 {
          RebalanceNoOp(s);
          AvlJoin(d, l, r', UpdateHeight(s).height);
        } else {
          RestoreRightHeavy(s);
        }
      }
  }

  // ---------------------------------------------------------------------
  // Order and contents
  // ---------------------------------------------------------------------

  /** Inserting `x` into a sorted sequence after every element not greater than it. */
  function InsertSorted(x: int, s: seq<int>): (r: seq<int>)
  {
    if s == [] then [x]
    else if x < s[0] then [x] + s
    else [s[0]] + InsertSorted(x, s[1..])
  }

  /** `InsertSorted` adds exactly one occurrence of `x`. */
  lemma {:induction false} InsertSortedElements(x: int, s: seq<int>)
    ensures multiset(InsertSorted(x, s)) == multiset(s) + multiset{x}
  {
    if s != [] && x >= s[0] {
      InsertSortedElements(x, s[1..]);
      assert s == [s[0]] + s[1..];
    }
  }

  /** A sorted sequence stays sorted under a new head not greater than its first element. */
  lemma SortedCons(a: int, s: seq<int>)
    requires Sorted(s) && (s != [] ==> a <= s[0])
    ensures Sorted([a] + s)
  {
    var r := [a] + s;
    forall i, j | 0 <= i < j < |r| ensures r[i] <= r[j] {
      if i == 0 && j > 1 {
        assert s[0] <= s[j - 1];
      }
    }
  }

  /** `InsertSorted` keeps a sorted sequence sorted. */
  lemma {:induction false} InsertSortedKeepsSorted(x: int, s: seq<int>)
    requires Sorted(s)
    ensures Sorted(InsertSorted(x, s))
  {
    if s == [] {
    } else if x < s[0] {
      SortedCons(x, s);
    } else {
      var t := s[1..];
      assert Sorted(t) by {
        forall i, j | 0 <= i < j < |t| ensures t[i] <= t[j] {
          assert t[i] == s[i + 1] && t[j] == s[j + 1];
        }
      }
      InsertSortedKeepsSorted(x, t);
      var rest := InsertSorted(x, t);
      assert rest[0] == if t == [] || x < t[0] then x else t[0];
      assert t != [] ==> s[0] <= t[0];
      SortedCons(s[0], rest);
    }
  }

  lemma {:induction false} InsertSortedBefore(x: int, a: seq<int>, b: seq<int>)
    requires b != [] && x < b[0]
    ensures InsertSorted(x, a + b) == InsertSorted(x, a) + b
  {
    if a == [] {
      assert a + b == b;
    } else {
      assert (a + b)[0] == a[0];
      assert (a + b)[1..] == a[1..] + b;
      if x >= a[0] {
        InsertSortedBefore(x, a[1..], b);
      }
    }
  }

  lemma {:induction false} InsertSortedAfter(x: int, a: seq<int>, b: seq<int>)
    requires forall i :: 0 <= i < |a| ==> a[i] <= x
    ensures InsertSorted(x, a + b) == a + InsertSorted(x, b)
  {
    if a == [] {
      assert a + b == b;
    } else {
      var a' := a[1..];
      assert (a + b)[0] == a[0] && (a + b)[1..] == a' + b;
      InsertSortedAfter(x, a', b);
      assert InsertSorted(x, a + b) == [a[0]] + InsertSorted(x, a' + b);
      assert a + InsertSorted(x, b) == [a[0]] + (a' + InsertSorted(x, b));
    }
  }

  /** A sequence `a + [d] + b` is sorted exactly when its two parts are and `d` lies between them. */
  lemma SortedAround(a: seq<int>, d: int, b: seq<int>)
    ensures Sorted(a + [d] + b) <==>
      Sorted(a) && Sorted(b) && (forall e :: e in a ==> e <= d) && (forall e :: e in b ==> d <= e)
  {
    var s := a + [d] + b;
    if Sorted(s) {
      forall i, j | 0 <= i < j < |a| ensures a[i] <= a[j] {
        assert s[i] == a[i] && s[j] == a[j];
      }
      forall i, j | 0 <= i < j < |b| ensures b[i] <= b[j] {
        assert s[|a| + 1 + i] == b[i] && s[|a| + 1 + j] == b[j];
      }
      forall e | e in a ensures e <= d {
        var i :| 0 <= i < |a| && a[i] == e;
        assert s[i] == e && s[|a|] == d;
      }
      forall e | e in b ensures d <= e {
        var i :| 0 <= i < |b| && b[i] == e;
        assert s[|a| + 1 + i] == e && s[|a|] == d;
      }
    }
    if Sorted(a) && Sorted(b) && (forall e :: e in a ==> e <= d) && (forall e :: e in b ==> d <= e) {
      forall i, j | 0 <= i < j < |s| ensures s[i] <= s[j] {
        if j < |a| {
          assert s[i] == a[i] && s[j] == a[j];
        } else if j == |a| {
          assert s[i] == a[i] && a[i] in a;
        } else {
          assert s[j] == b[j - |a| - 1] && b[j - |a| - 1] in b;
          if i < |a| {
            assert s[i] == a[i] && a[i] in a;
          } else if i > |a| {
            assert s[i] == b[i - |a| - 1];
          }
        }
      }
    }
  }

  /**
   BST ordering at a node: the tree is ordered exactly when both subtrees are, every
   value on the left is at most the node's and every value on the right at least it.
   */
  lemma OrderedNode(t: Tree)
    requires t.Node?
    ensures Ordered(t) <==>
      Ordered(t.left) && Ordered(t.right) &&
      (forall e :: e in Elements(t.left) ==> e <= t.data) &&
      (forall e :: e in Elements(t.right) ==> t.data <= e)
  {
    assert InOrder(t) == InOrder(t.left) + [t.data] + InOrder(t.right);
    SortedAround(InOrder(t.left), t.data, InOrder(t.right));
    assert forall e :: e in Elements(t.left) <==> e in InOrder(t.left);
    assert forall e :: e in Elements(t.right) <==> e in InOrder(t.right);
  }

  /** One step of the descent: rebalancing and the height update do not disturb the in-order sequence. */
  lemma InsertStepInOrder(x: int, t: Tree)
    requires t.Node? && HeightsCorrect(t)
    ensures InOrder(Insert(x, t)) ==
      if x < t.data then InOrder(Insert(x, t.left)) + [t.data] + InOrder(t.right)
      else InOrder(t.left) + [t.data] + InOrder(Insert(x, t.right))
  {
    var s := if x < t.data then Node(t.data, Insert(x, t.left), t.right, t.height)
             else Node(t.data, t.left, Insert(x, t.right), t.height);
    assert Insert(x, t) == UpdateHeight(Rebalance(s));
    RebalanceInOrder(s);
  }

  /** The descent step to the left, given the in-order sequence the recursive call produces. */
  lemma InsertLeftInOrder(x: int, t: Tree)
    requires t.Node? && HeightsCorrect(t) && x < t.data
    requires InOrder(Insert(x, t.left)) == InsertSorted(x, InOrder(t.left))
    ensures InOrder(Insert(x, t)) == InsertSorted(x, InOrder(t))
  {
    var d, l, r := t.data, t.left, t.right;
    var b := [d] + InOrder(r);
    Associate(InOrder(l), d, InOrder(r));
    Associate(InOrder(Insert(x, l)), d, InOrder(r));
    InsertStepInOrder(x, t);
    InsertSortedBefore(x, InOrder(l), b);
  }

  /** The descent step to the right, given the in-order sequence the recursive call produces. */
  lemma InsertRightInOrder(x: int, t: Tree)
    requires t.Node? && HeightsCorrect(t) && Ordered(t) && x >= t.data
    requires InOrder(Insert(x, t.right)) == InsertSorted(x, InOrder(t.right))
    ensures InOrder(Insert(x, t)) == InsertSorted(x, InOrder(t))
  {
    var d, l, r := t.data, t.left, t.right;
    InsertStepInOrder(x, t);
    var a := InOrder(l) + [d];
    assert InOrder(t) == a + InOrder(r);
    SortedAround(InOrder(l), d, InOrder(r));
    forall i | 0 <= i < |a| ensures a[i] <= x {
      if i < |InOrder(l)| {
        assert a[i] in InOrder(l);
      }
    }
    InsertSortedAfter(x, a, InOrder(r));
  }

  /** In an ordered tree, insertion puts `x` into the in-order sequence after every value not greater than it. */
  lemma {:induction false} InsertInOrder(x: int, t: Tree)
    requires HeightsCorrect(t) && Ordered(t)
    ensures InOrder(Insert(x, t)) == InsertSorted(x, InOrder(t))
  {
    if t.Node? {
      OrderedNode(t);
      if x < t.data {
        InsertInOrder(x, t.left);
        InsertLeftInOrder(x, t);
      } else {
        InsertInOrder(x, t.right);
        InsertRightInOrder(x, t);
      }
    }
  }

  /** Insertion keeps the in-order traversal non-decreasing. */
  lemma InsertKeepsOrdered(x: int, t: Tree)
    requires HeightsCorrect(t) && Ordered(t)
    ensures Ordered(Insert(x, t))
  {
    InsertInOrder(x, t);
    InsertSortedKeepsSorted(x, InOrder(t));
  }

  /**
   The ordering the algorithm keeps is the non-strict one. Read strictly (everything
   left of a node strictly smaller), it is broken by three equal values: the third
   insertion's left rotation puts an equal value into the new root's left subtree.
   */
  ghost predicate StrictlyOrdered(t: Tree)
  {
    match t
    case Nil => true
    case Node(d, l, r, _) =>
      StrictlyOrdered(l) && StrictlyOrdered(r) &&
      (forall e :: e in Elements(l) ==> e < d) && (forall e :: e in Elements(r) ==> d <= e)
  }

  /** Three equal values end with an equal value left of the root: only the non-strict order holds. */
  lemma EqualValuesBreakStrictOrder(x: int)
    ensures var t := Insert(x, Insert(x, Insert(x, Nil)));
            t == Node(x, Leaf(x), Leaf(x), 1) && Ordered(t) && !StrictlyOrdered(t)
  {
    AscendingInserts(x, x, x);
    assert x in Elements(Leaf(x));
  }

  // ---------------------------------------------------------------------
  // Successive insertions from the empty tree
  // ---------------------------------------------------------------------


  /** A sequence of insertions keeps the tree an ordered AVL tree. */
  lemma {:induction false} InsertAllKeepsAvl(xs: seq<int>, t: Tree)
    requires IsAvl(t) && Ordered(t)
    ensures IsAvl(InsertAll(xs, t)) && Ordered(InsertAll(xs, t))
  {
    if xs != [] {
      InsertKeepsAvl(xs[0], t);
      InsertKeepsOrdered(xs[0], t);
      InsertAllKeepsAvl(xs[1..], Insert(xs[0], t));
    }
  }

  lemma MultisetOfCons(xs: seq<int>)
    requires xs != []
    ensures multiset(xs) == multiset{xs[0]} + multiset(xs[1..])
  {
    assert xs == [xs[0]] + xs[1..];
  }

  /** A sequence of insertions stores exactly the inserted values, duplicates included. */
  lemma {:induction false} InsertAllElements(xs: seq<int>, t: Tree)
    requires HeightsCorrect(t)
    ensures Elements(InsertAll(xs, t)) == Elements(t) + multiset(xs)
  {
    if xs != [] {
      InsertElements(xs[0], t);
      InsertAllElements(xs[1..], Insert(xs[0], t));
      MultisetOfCons(xs);
    }
  }

  /** Size preservation: n insertions into the empty tree leave exactly n values. */
  lemma InsertAllSize(xs: seq<int>)
    ensures Size(InsertAll(xs, Nil)) == |xs|
  {
    var u := InsertAll(xs, Nil);
    InsertAllElements(xs, Nil);
    assert |Elements(u)| == Size(u);
  }

  /** The Fibonacci numbers: Fib(h + 3) - 1 is the size of the smallest AVL tree of height h. */
  function Fib(n: nat): nat
  {
    if n < 2 then n else Fib(n - 1) + Fib(n - 2)
  }

  lemma {:induction false} FibMonotone(a: nat, b: nat)
    requires a <= b
    ensures Fib(a) <= Fib(b)
  {
    if a < b {
      FibMonotone(a, b - 1);
      if b >= 2 {
        assert Fib(b) == Fib(b - 1) + Fib(b - 2);
      }
    }
  }

  /**
   The height is logarithmic in the number of values: an AVL tree of height h holds at
   least Fib(h + 3) - 1 values, that is, h < 1.4405 log2(n + 2) - 0.3277 for n values.
   */
  lemma {:induction false} AvlHeightBound(t: Tree)
    requires IsAvl(t)
    ensures Height(t) >= -1
    ensures Fib(Height(t) + 3) <= Size(t) + 1
  {
    CachedHeight(t);
    match t
    case Nil =>
    case Node(d, l, r, _) =>
      AvlChildren(t);
      AvlHeightBound(l);
      AvlHeightBound(r);
      var h := Height(t);
      assert Size(t) == Size(l) + 1 + Size(r);
      assert Fib(h + 3) == Fib(h + 2) + Fib(h + 1);
      if Height(l) >= Height(r) {
        FibMonotone(h + 1, Height(r) + 3);
      } else {
        FibMonotone(h + 1, Height(l) + 3);
      }
  }

  lemma FibSeventeen()
    ensures Fib(17) == 1597
  {
    assert Fib(2) == 1;
    assert Fib(3) == 2;
    assert Fib(4) == 3;
    assert Fib(5) == 5;
    assert Fib(6) == 8;
    assert Fib(7) == 13;
    assert Fib(8) == 21;
    assert Fib(9) == 34;
    assert Fib(10) == 55;
    assert Fib(11) == 89;
    assert Fib(12) == 144;
    assert Fib(13) == 233;
    assert Fib(14) == 377;
    assert Fib(15) == 610;
    assert Fib(16) == 987;
    assert Fib(17) == 1597;
  }

  /** An AVL tree of at most a thousand values is at most 13 high. */
  lemma SmallAvlHeight(t: Tree)
    requires IsAvl(t) && Size(t) <= 1000
    ensures Height(t) <= 13
  {
    AvlHeightBound(t);
    if Height(t) >= 14 {
      FibMonotone(17, Height(t) + 3);
      FibSeventeen();
      assert false;
    }
  }

  /** A thousand insertions into the empty tree leave it at most 13 high. */
  lemma ThousandInsertsHeight(xs: seq<int>)
    requires |xs| == 1000
    ensures Height(InsertAll(xs, Nil)) <= 13
  {
    InsertAllKeepsAvl(xs, Nil);
    InsertAllSize(xs);
    SmallAvlHeight(InsertAll(xs, Nil));
  }

  // ---------------------------------------------------------------------
  // The four rotation cases on three insertions from the empty tree
  // ---------------------------------------------------------------------

  /** Inserting into a single node hangs the new value on the side the comparison picks. */
  lemma InsertIntoLeaf(x: int, y: int)
    ensures Insert(x, Leaf(y)) == if x < y then Node(y, Leaf(x), Nil, 1) else Node(y, Nil, Leaf(x), 1)
  {
    assert Insert(x, Nil) == Leaf(x);
    var s := if x < y then Node(y, Leaf(x), Nil, 0) else Node(y, Nil, Leaf(x), 0);
    RebalanceNoOp(s);
  }

  /** Non-decreasing values (10, 20, 30; equal values too): right-right case, a single left rotation. */
  lemma AscendingInserts(a: int, b: int, c: int)
    requires a <= b <= c
    ensures Insert(c, Insert(b, Insert(a, Nil))) == Node(b, Leaf(a), Leaf(c), 1)
  {
    InsertIntoLeaf(b, a);
    InsertIntoLeaf(c, b);
    var s := Node(a, Nil, Node(b, Nil, Leaf(c), 1), 1);
    assert Insert(c, Node(a, Nil, Leaf(b), 1)) == UpdateHeight(Rebalance(s));
  }

  /** Decreasing values (30, 20, 10): left-left case, a single right rotation. */
  lemma DescendingInserts(a: int, b: int, c: int)
    requires c < b < a
    ensures Insert(c, Insert(b, Insert(a, Nil))) == Node(b, Leaf(c), Leaf(a), 1)
  {
    InsertIntoLeaf(b, a);
    InsertIntoLeaf(c, b);
    var s := Node(a, Node(b, Leaf(c), Nil, 1), Nil, 1);
    assert Insert(c, Node(a, Leaf(b), Nil, 1)) == UpdateHeight(Rebalance(s));
  }

  /** Largest, smallest, middle (30, 10, 20): left-right case, a double rotation. */
  lemma LeftRightInserts(a: int, b: int, c: int)
    requires b <= c < a
    ensures Insert(c, Insert(b, Insert(a, Nil))) == Node(c, Leaf(b), Leaf(a), 1)
  {
    InsertIntoLeaf(b, a);
    InsertIntoLeaf(c, b);
    var s := Node(a, Node(b, Nil, Leaf(c), 1), Nil, 1);
    assert Insert(c, Node(a, Leaf(b), Nil, 1)) == UpdateHeight(Rebalance(s));
  }

  /** Smallest, largest, middle (10, 30, 20): right-left case, a double rotation. */
  lemma RightLeftInserts(a: int, b: int, c: int)
    requires a <= c < b
    ensures Insert(c, Insert(b, Insert(a, Nil))) == Node(c, Leaf(a), Leaf(b), 1)
  {
    InsertIntoLeaf(b, a);
    InsertIntoLeaf(c, b);
    var s := Node(a, Nil, Node(b, Leaf(c), Nil, 1), 1);
    assert Insert(c, Node(a, Nil, Leaf(b), 1)) == UpdateHeight(Rebalance(s));
  }
}
