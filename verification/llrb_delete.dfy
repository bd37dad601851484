/**
  Deletion from the left-leaning red-black tree: the recursive `DelMin`,
  `DelMax` and `Delete`, which push a red link ahead of them on the way down
  and repair with `Balance` on the way up.

  The descent relies on each visited node sitting in a 3-node or a temporary
  4-node (`OneRed`); the lemmas prove that every recursive call meets that
  condition again, which is what makes the unguarded child accesses of the
  C++ functions safe, and that the result is a left-leaning subtree of the same
  black height holding the right keys.
*/
module LlrbDelete {
  import opened BinaryTree
  import opened RedBlack
  import opened Rotations
  import Queries

  /** The optional `MoveRedLeft` before descending left: borrow a red link when the left child and its left child are both black. */
  function BorrowLeft(t: RbTree): (r: RbTree)
    ensures InOrder(r) == InOrder(t) && Keys(r) == Keys(t)
    ensures r.Leaf? <==> t.Leaf?
    ensures IsSizeConsistent(t) ==> IsSizeConsistent(r)
  {
    var r := if t.Node? && t.left.Node? && !IsRed(t.left) && !IsRed(t.left.left) then MoveRedLeft(t) else t;
    SameInOrder(r, t);
    r
  }

  /** The optional `RotateRight` before looking right: a red left link is turned to lean right. */
  function LeanRight(t: RbTree): (r: RbTree)
    ensures InOrder(r) == InOrder(t) && Keys(r) == Keys(t)
    ensures r.Leaf? <==> t.Leaf?
    ensures IsSizeConsistent(t) ==> IsSizeConsistent(r)
  {
    var r := if t.Node? && IsRed(t.left) then RotateRight(t) else t;
    SameInOrder(r, t);
    r
  }

  /** The optional `MoveRedRight` before descending right: borrow a red link when the right child and its left child are both black. */
  function BorrowRight(t: RbTree): (r: RbTree)
    ensures InOrder(r) == InOrder(t) && Keys(r) == Keys(t)
    ensures r.Leaf? <==> t.Leaf?
    ensures IsSizeConsistent(t) ==> IsSizeConsistent(r)
  {
    var r := if t.Node? && t.right.Node? && !IsRed(t.right) && !IsRed(t.right.left) then MoveRedRight(t) else t;
    SameInOrder(r, t);
    r
  }

  /** `Balance` on the way back up keeps the keys and their order. */
  function Rebalance(t: RbTree): (r: RbTree)
    ensures InOrder(r) == InOrder(t) && Keys(r) == Keys(t)
    ensures IsSizeConsistent(t) ==> IsSizeConsistent(r)
  {
    SameInOrder(t, Balance(t));
    Balance(t)
  }

  /**
    The private `DelMin(node)`: removes the leftmost node. An absent node
    gives an absent result here; the C++ function dereferences it, and no
    caller passes one.
  */
  function DelMin(t: RbTree): (r: RbTree)
    ensures Keys(r) <= Keys(t)
    ensures IsSizeConsistent(t) ==> IsSizeConsistent(r)
    decreases Count(t)
  {
    if t.Leaf? then Leaf
    else if t.left.Leaf? then Leaf
    else
      var a := BorrowLeft(t);
      Rebalance(a.(left := DelMin(a.left)))
  }

  /**
    The private `DelMax(node)`: removes the rightmost node. An absent node
    gives an absent result here; the C++ function dereferences it, and no
    caller passes one.
  */
  function DelMax(t: RbTree): (r: RbTree)
    ensures Keys(r) <= Keys(t)
    ensures IsSizeConsistent(t) ==> IsSizeConsistent(r)
    decreases Count(t)
  {
    if t.Leaf? then Leaf
    else
      var a := LeanRight(t);
      if a.right.Leaf? then Leaf
      else
        var b := BorrowRight(a);
        Rebalance(b.(right := DelMax(b.right)))
  }

  /**
    The private `Delete(node, val)`: on the way down, moves a red link
    towards the side the key is on; a matching node without a right child
    is cut off, and a matching node with one takes its successor's key while
    the successor is removed with `DelMin`.
  */
  function Delete(t: RbTree, k: int): (r: RbTree)
    ensures Keys(r) <= Keys(t)
    ensures IsSizeConsistent(t) ==> IsSizeConsistent(r)
    decreases Count(t)
  {
    if t.Leaf? then Leaf
    else if k < t.key then
      var a := BorrowLeft(t);
      Rebalance(a.(left := Delete(a.left, k)))
    else
      var a := LeanRight(t);
      if k == a.key && a.right.Leaf? then Leaf
      else
        var b := BorrowRight(a);
        if k == b.key then
          var m := Queries.Min(b.right);
          if m.Some? then Rebalance(b.(key := m.value, right := DelMin(b.right)))
          else Rebalance(b)
        else Rebalance(b.(right := Delete(b.right, k)))
  }

  /** What `DelMin` needs of the node it is called on. */
  predicate DelMinReady(t: RbTree)
  {
    OneRed(t) && !IsRed(t.right)
  }

  /**
    `DelMin` on a ready, balanced subtree removes exactly the first key in
    order, and returns a left-leaning subtree of the same black height that
    is not red when the input was not.
  */
  lemma {:induction false} DelMinRestores(t: RbTree, n: int)
    requires DelMinReady(t) && IsBalancedFrom(t, n)
    ensures InOrder(DelMin(t)) == InOrder(t)[1..]
    ensures LeftLeaning(DelMin(t)) && IsBalancedFrom(DelMin(t), n)
    ensures !IsRed(t) ==> !IsRed(DelMin(t))
    decreases Count(t)
  {
    var l := t.left;
    if l.Leaf? {
      BlackLeafIffZero(l, n);
      BlackLeafIffZero(t.right, n);
    } else {
      var a := BorrowLeft(t);
      if !IsRed(l) && !IsRed(l.left) {
        MoveRedLeftShape(t, n);
      } else {
        assert LeftLeaning(l.left) && LeftLeaning(l.right) && !IsRed(l.right);
      }
      var m := BlackBelow(a, n);
      DelMinRestores(a.left, m);
      var b := a.(left := DelMin(a.left));
      BalanceRestores(b, n);
      assert DelMin(t) == Balance(b);
      DropHead(InOrder(a.left), a.key, InOrder(a.right));
    }
  }

  /**
    The first half of a `DelMax` step: after the optional right rotation and
    `MoveRedRight`, the node's right child is again ready for `DelMax`.
  */
  lemma DelMaxDescent(t: RbTree, n: int) returns (b: RbTree)
    requires OneRed(t) && IsBalancedFrom(t, n)
    requires LeanRight(t).right.Node?
    ensures b.Node? && OneRed(b.right) && LeftLeaning(b.left)
    ensures IsBalancedFrom(b.left, BlackBelow(b, n)) && IsBalancedFrom(b.right, BlackBelow(b, n))
    ensures IsRed(b) ==> !IsRed(b.left) && !IsRed(b.right)
    ensures !IsRed(t) ==> !IsRed(b) && !IsRed(b.left)
    ensures InOrder(b) == InOrder(t)
    ensures DelMax(t) == Balance(b.(right := DelMax(b.right)))
  {
    var a := LeanRight(t);
    if IsRed(t.left) {
      RotateRightShape(t, n);
      assert LeftLeaning(t.left.left) && !IsRed(t.left.left);
    }
    var cond := !IsRed(a.right) && !IsRed(a.right.left);
    b := BorrowRight(a);
    if cond {
      MoveRedRightShape(t, n);
    } else if !IsRed(t.left) {
      var rt := t.right;
      assert LeftLeaning(rt.left) && LeftLeaning(rt.right) && !IsRed(rt.right);
    }
  }

  /** `DelMax` stops at a node with no right child after the rotation: a red node without children. */
  lemma DelMaxAtBottom(t: RbTree, n: int)
    requires OneRed(t) && IsBalancedFrom(t, n)
    requires LeanRight(t).right.Leaf?
    ensures IsRed(t) && t.left.Leaf? && t.right.Leaf? && n == 0
    ensures DelMax(t) == Leaf
  {
    if IsRed(t.left) {
      RotateRightShape(t, n);
    }
    BlackLeafIffZero(t.left, n);
    BlackLeafIffZero(t.right, n);
  }

  /**
    `DelMax` on a subtree with one red among its top node and children,
    balanced, removes exactly the last key in order, and returns a
    left-leaning subtree of the same black height that is not red when the
    input was not.
  */
  lemma {:induction false} DelMaxRestores(t: RbTree, n: int)
    requires OneRed(t) && IsBalancedFrom(t, n)
    ensures InOrder(DelMax(t)) == InOrder(t)[..|InOrder(t)| - 1]
    ensures LeftLeaning(DelMax(t)) && IsBalancedFrom(DelMax(t), n)
    ensures !IsRed(t) ==> !IsRed(DelMax(t))
    decreases Count(t), 2
  {
    if LeanRight(t).right.Leaf? {
      DelMaxAtBottom(t, n);
      assert InOrder(t) == [t.key];
    } else {
      DelMaxStep(t, n);
    }
  }

  /** A `DelMax` step that descends: prepare the node, then recurse into its right child. */
  lemma {:induction false} DelMaxStep(t: RbTree, n: int)
    requires OneRed(t) && IsBalancedFrom(t, n)
    requires LeanRight(t).right.Node?
    ensures InOrder(DelMax(t)) == InOrder(t)[..|InOrder(t)| - 1]
    ensures LeftLeaning(DelMax(t)) && IsBalancedFrom(DelMax(t), n)
    ensures !IsRed(t) ==> !IsRed(DelMax(t))
    decreases Count(t), 1
  {
    var b := DelMaxDescent(t, n);
    DelMaxIntoRight(b, n);
  }

  /** The second half of a `DelMax` step: delete the maximum of the prepared right child and rebalance. */
  lemma {:induction false} DelMaxIntoRight(b: RbTree, n: int)
    requires b.Node? && OneRed(b.right) && LeftLeaning(b.left)
    requires IsBalancedFrom(b.left, BlackBelow(b, n)) && IsBalancedFrom(b.right, BlackBelow(b, n))
    requires IsRed(b) ==> !IsRed(b.left) && !IsRed(b.right)
    ensures var r := Balance(b.(right := DelMax(b.right)));
      && InOrder(r) == InOrder(b)[..|InOrder(b)| - 1]
      && LeftLeaning(r) && IsBalancedFrom(r, n)
      && (!IsRed(b) && !IsRed(b.left) ==> !IsRed(r))
    decreases Count(b), 0
  {
    var d := DelMax(b.right);
    DelMaxRestores(b.right, BlackBelow(b, n));
    var c := b.(right := d);
    BalanceRestores(c, n);
    var x, y := InOrder(b.left), InOrder(b.right);
    DropTail(x, b.key, y);
    assert InOrder(c) == x + [b.key] + y[..|y| - 1];
    assert InOrder(b) == x + [b.key] + y && |InOrder(b)| - 1 == |x| + |y|;
  }

  /**
    What `Delete` needs of the node it is called on: one red among the node
    and its children, and a red right child only when the key is not below
    the node's.
  */
  predicate DeleteReady(t: RbTree, k: int)
  {
    OneRed(t) && (IsRed(t.right) ==> t.key <= k)
  }

  /** The first half of a `Delete` step towards the left: after the optional `MoveRedLeft` the left child is ready. */
  lemma DeleteLeftDescent(t: RbTree, k: int, n: int) returns (a: RbTree)
    requires DeleteReady(t, k) && IsBalancedFrom(t, n) && Ordered(t) && k in Keys(t) && k < t.key
    ensures a.Node? && DeleteReady(a.left, k) && LeftLeaning(a.right)
    ensures IsBalancedFrom(a.left, BlackBelow(a, n)) && IsBalancedFrom(a.right, BlackBelow(a, n))
    ensures IsRed(a) ==> !IsRed(a.left) && !IsRed(a.right)
    ensures !IsRed(t) ==> !IsRed(a) && !IsRed(a.right)
    ensures InOrder(a) == InOrder(t) && Ordered(a) && Keys(a) == Keys(t) && k < a.key && k in Keys(a.left)
    ensures Delete(t, k) == Balance(a.(left := Delete(a.left, k)))
  {
    var l := t.left;
    assert k in Keys(l);
    var cond := !IsRed(l) && !IsRed(l.left);
    a := BorrowLeft(t);
    if cond {
      MoveRedLeftShape(t, n);
    } else {
      assert LeftLeaning(l.left) && LeftLeaning(l.right) && !IsRed(l.right);
    }
    SameInOrder(a, t);
  }

  /**
    The first half of a `Delete` step towards the right: after the optional
    right rotation and `MoveRedRight`, either the node holds the key and its
    right child is ready for `DelMin`, or the key lies in the right child,
    which is ready for `Delete`.
  */
  lemma DeleteRightDescent(t: RbTree, k: int, n: int) returns (b: RbTree)
    requires DeleteReady(t, k) && IsBalancedFrom(t, n) && Ordered(t) && k in Keys(t) && t.key <= k
    requires var a := LeanRight(t); !(k == a.key && a.right.Leaf?)
    ensures b.Node? && OneRed(b.right) && LeftLeaning(b.left)
    ensures IsBalancedFrom(b.left, BlackBelow(b, n)) && IsBalancedFrom(b.right, BlackBelow(b, n))
    ensures IsRed(b) ==> !IsRed(b.left) && !IsRed(b.right)
    ensures !IsRed(t) ==> !IsRed(b) && !IsRed(b.left)
    ensures InOrder(b) == InOrder(t) && Ordered(b) && Keys(b) == Keys(t) && b.key <= k
    ensures k == b.key ==> DelMinReady(b.right) && Delete(t, k) == Balance(b.(key := Queries.Min(b.right).value, right := DelMin(b.right)))
    ensures k != b.key ==> DeleteReady(b.right, k) && k in Keys(b.right) && Delete(t, k) == Balance(b.(right := Delete(b.right, k)))
  {
    b := DeleteRightShape(t, k, n);
    DeleteRightUnfold(t, k);
  }

  /** The node the right-hand `Delete` step recurses from: the optional right rotation, then the optional `MoveRedRight`. */
  function RightPrepared(t: RbTree): RbTree
    requires t.Node?
  {
    var a := LeanRight(t);
    BorrowRight(a)
  }

  /** What the right-hand `Delete` step does once the node is prepared. */
  lemma DeleteRightUnfold(t: RbTree, k: int)
    requires t.Node? && t.key <= k
    requires var a := LeanRight(t); !(k == a.key && a.right.Leaf?)
    ensures var b := RightPrepared(t);
      && (k == b.key && b.right.Node? ==> Delete(t, k) == Balance(b.(key := Queries.Min(b.right).value, right := DelMin(b.right))))
      && (k != b.key ==> Delete(t, k) == Balance(b.(right := Delete(b.right, k))))
  {
  }

  /** The shape half of the right-hand descent: the prepared node keeps the keys and hands a ready child on. */
  lemma DeleteRightShape(t: RbTree, k: int, n: int) returns (b: RbTree)
    requires DeleteReady(t, k) && IsBalancedFrom(t, n) && Ordered(t) && k in Keys(t) && t.key <= k
    requires var a := LeanRight(t); !(k == a.key && a.right.Leaf?)
    ensures b == RightPrepared(t)
    ensures b.Node? && OneRed(b.right) && LeftLeaning(b.left)
    ensures IsBalancedFrom(b.left, BlackBelow(b, n)) && IsBalancedFrom(b.right, BlackBelow(b, n))
    ensures IsRed(b) ==> !IsRed(b.left) && !IsRed(b.right)
    ensures !IsRed(t) ==> !IsRed(b) && !IsRed(b.left)
    ensures InOrder(b) == InOrder(t) && Ordered(b) && Keys(b) == Keys(t) && b.key <= k
    ensures k == b.key ==> DelMinReady(b.right)
    ensures k != b.key ==> DeleteReady(b.right, k) && k in Keys(b.right)
  {
    b := RightPrepared(t);
    if IsRed(t.left) {
      RotateRightShape(t, n);
      assert LeftLeaning(t.left.left) && !IsRed(t.left.left);
      assert t.left.key < t.key;
      assert b == RotateRight(t);
    } else if t.right.Node? && !IsRed(t.right) && !IsRed(t.right.left) {
      MoveRedRightShape(t, n);
      assert t.left.key < t.key;
      assert b == MoveRedRight(t);
    } else {
      var rt := t.right;
      assert LeftLeaning(rt.left) && LeftLeaning(rt.right) && !IsRed(rt.right);
      assert b == t;
    }
    SameInOrder(b, t);
  }

  /**
    `Delete` of a present key from a ready, balanced, ordered subtree removes
    exactly that key, keeps the order, and returns a left-leaning subtree of
    the same black height that is not red when the input was not.
  */
  lemma {:induction false} DeleteRestores(t: RbTree, k: int, n: int)
    requires DeleteReady(t, k) && IsBalancedFrom(t, n) && Ordered(t) && k in Keys(t)
    ensures Ordered(Delete(t, k)) && Keys(Delete(t, k)) == Keys(t) - {k}
    ensures LeftLeaning(Delete(t, k)) && IsBalancedFrom(Delete(t, k), n)
    ensures !IsRed(t) ==> !IsRed(Delete(t, k))
    decreases Count(t), 2
  {
    var a := LeanRight(t);
    if k < t.key {
      DeleteLeftStep(t, k, n);
    } else if a.key == k && a.right.Leaf? {
      if IsRed(t.left) {
        RotateRightShape(t, n);
      }
      BlackLeafIffZero(t.left, n);
      BlackLeafIffZero(t.right, n);
      assert t.left.Leaf?;
      assert Delete(t, k) == Leaf;
    } else {
      DeleteRightStep(t, k, n);
    }
  }

  lemma {:induction false} DeleteLeftStep(t: RbTree, k: int, n: int)
    requires DeleteReady(t, k) && IsBalancedFrom(t, n) && Ordered(t) && k in Keys(t) && k < t.key
    ensures Ordered(Delete(t, k)) && Keys(Delete(t, k)) == Keys(t) - {k}
    ensures LeftLeaning(Delete(t, k)) && IsBalancedFrom(Delete(t, k), n)
    ensures !IsRed(t) ==> !IsRed(Delete(t, k))
    decreases Count(t), 1
  {
    var a := DeleteLeftDescent(t, k, n);
    DeleteIntoLeft(a, k, n);
  }

  /** A key below the node's is deleted from the left child, which the descent has made ready. */
  lemma {:induction false} DeleteIntoLeft(a: RbTree, k: int, n: int)
    requires a.Node? && DeleteReady(a.left, k) && k in Keys(a.left) && LeftLeaning(a.right) && Ordered(a)
    requires IsBalancedFrom(a.left, BlackBelow(a, n)) && IsBalancedFrom(a.right, BlackBelow(a, n))
    requires IsRed(a) ==> !IsRed(a.left) && !IsRed(a.right)
    ensures var r := Balance(a.(left := Delete(a.left, k)));
      && Ordered(r) && Keys(r) == Keys(a) - {k}
      && LeftLeaning(r) && IsBalancedFrom(r, n)
      && (!IsRed(a) && !IsRed(a.right) ==> !IsRed(r))
    decreases Count(a), 0
  {
    var d := Delete(a.left, k);
    DeleteRestores(a.left, k, BlackBelow(a, n));
    var b := a.(left := d);
    assert k < a.key && k !in Keys(a.right);
    assert Keys(a) == Keys(a.left) + {a.key} + Keys(a.right);
    assert Keys(b) == Keys(d) + {a.key} + Keys(a.right);
    assert Ordered(b);
    BalanceRestores(b, n);
    SameInOrder(b, Balance(b));
  }

  lemma {:induction false} DeleteRightStep(t: RbTree, k: int, n: int)
    requires DeleteReady(t, k) && IsBalancedFrom(t, n) && Ordered(t) && k in Keys(t) && t.key <= k
    requires var a := LeanRight(t); !(k == a.key && a.right.Leaf?)
    ensures Ordered(Delete(t, k)) && Keys(Delete(t, k)) == Keys(t) - {k}
    ensures LeftLeaning(Delete(t, k)) && IsBalancedFrom(Delete(t, k), n)
    ensures !IsRed(t) ==> !IsRed(Delete(t, k))
    decreases Count(t), 1
  {
    var b := DeleteRightDescent(t, k, n);
    if k == b.key {
      DeleteSuccessor(b, n);
    } else {
      DeleteIntoRight(b, k, n);
    }
  }

  /** A key above the node's is deleted from the right child, which the descent has made ready. */
  lemma {:induction false} DeleteIntoRight(b: RbTree, k: int, n: int)
    requires b.Node? && DeleteReady(b.right, k) && k in Keys(b.right) && LeftLeaning(b.left) && Ordered(b)
    requires IsBalancedFrom(b.left, BlackBelow(b, n)) && IsBalancedFrom(b.right, BlackBelow(b, n))
    requires IsRed(b) ==> !IsRed(b.left) && !IsRed(b.right)
    ensures var r := Balance(b.(right := Delete(b.right, k)));
      && Ordered(r) && Keys(r) == Keys(b) - {k}
      && LeftLeaning(r) && IsBalancedFrom(r, n)
      && (!IsRed(b) && !IsRed(b.left) ==> !IsRed(r))
    decreases Count(b), 0
  {
    var d := Delete(b.right, k);
    DeleteRestores(b.right, k, BlackBelow(b, n));
    var c := b.(right := d);
    assert b.key < k && k !in Keys(b.left);
    assert Keys(b) == Keys(b.left) + {b.key} + Keys(b.right);
    assert Keys(c) == Keys(b.left) + {b.key} + Keys(d);
    assert Ordered(c);
    BalanceRestores(c, n);
    SameInOrder(c, Balance(c));
  }

  /**
    A matching node with a right child takes the key of its in-order
    successor, which `DelMin` removes from the right child.
  */
  lemma DeleteSuccessor(b: RbTree, n: int)
    requires b.Node? && DelMinReady(b.right) && LeftLeaning(b.left) && Ordered(b)
    requires IsBalancedFrom(b.left, BlackBelow(b, n)) && IsBalancedFrom(b.right, BlackBelow(b, n))
    requires IsRed(b) ==> !IsRed(b.left) && !IsRed(b.right)
    ensures var r := Balance(b.(key := Queries.Min(b.right).value, right := DelMin(b.right)));
      && Ordered(r) && Keys(r) == Keys(b) - {b.key}
      && LeftLeaning(r) && IsBalancedFrom(r, n)
      && (!IsRed(b) && !IsRed(b.left) ==> !IsRed(r))
  {
    var rt := b.right;
    var d := DelMin(rt);
    DelMinRestores(rt, BlackBelow(b, n));
    var min := Queries.Min(rt).value;
    var c := b.(key := min, right := d);
    SuccessorKeys(b, d);
    BalanceRestores(c, n);
    SameInOrder(c, Balance(c));
  }

  /** Moving the right subtree's minimum up into the node removes exactly the node's own key and keeps the order. */
  lemma SuccessorKeys(b: RbTree, d: RbTree)
    requires b.Node? && b.right.Node? && Ordered(b) && InOrder(d) == InOrder(b.right)[1..]
    ensures var c := b.(key := Queries.Min(b.right).value, right := d);
      Ordered(c) && Keys(c) == Keys(b) - {b.key}
  {
    var rt := b.right;
    DropFirstKey(rt, d);
    var min := Queries.Min(rt).value;
    var c := b.(key := min, right := d);
    assert min == InOrder(rt)[0] && min in Keys(rt);
    assert b.key !in Keys(b.left) && b.key !in Keys(rt);
    assert Keys(c) == Keys(b.left) + {min} + Keys(d);
    assert Keys(b) == Keys(b.left) + {b.key} + Keys(rt);
    assert Ordered(c);
  }
}
