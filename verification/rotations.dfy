/**
  The local restructurings of the left-leaning red-black tree: the two
  rotations, the colour flip, `Balance`, and the two moves that push a red
  link down ahead of a deletion. Each keeps the in-order key sequence and
  the subtree counters; the lemmas at the end say what each does to the
  colours in the situations the insertion and deletion descents create.
*/
module Rotations {
  import opened BinaryTree
  import opened RedBlack

  /** The tree with every colour erased: what a recolouring must leave alone. */
  function Uncoloured(t: RbTree): Tree<()>
  {
    match t
    case Leaf => Leaf
    case Node(_, l, k, s, r) => Node((), Uncoloured(l), k, s, Uncoloured(r))
  }

  function Toggle(c: Color): Color
  {
    if c == Red then Black else Red
  }

  /** `RotateRight`: lifts a red left child above its parent; any other node comes back unchanged. */
  function RotateRight(t: RbTree): (r: RbTree)
    ensures InOrder(r) == InOrder(t)
    ensures r.Leaf? <==> t.Leaf?
    ensures Size(r) == Size(t)
    ensures !(t.Node? && IsRed(t.left)) ==> r == t
    ensures t.Node? && IsRed(t.left) ==> r.tag == t.tag && r.key == t.left.key && IsRed(r.right) && r.right.key == t.key
    ensures ChildrenSizeConsistent(t) ==> ChildrenSizeConsistent(r)
    ensures IsSizeConsistent(t) ==> IsSizeConsistent(r)
  {
    if t.Leaf? || !IsRed(t.left) then t
    else
      var x := t.left;
      var lowered := Node(Red, x.right, t.key, Size(x.right) + Size(t.right) + 1, t.right);
      Node(t.tag, x.left, x.key, t.size, lowered)
  }

  /** `RotateLeft`: lifts a red right child above its parent; any other node comes back unchanged. */
  function RotateLeft(t: RbTree): (r: RbTree)
    ensures InOrder(r) == InOrder(t)
    ensures r.Leaf? <==> t.Leaf?
    ensures Size(r) == Size(t)
    ensures !(t.Node? && IsRed(t.right)) ==> r == t
    ensures t.Node? && IsRed(t.right) ==> r.tag == t.tag && r.key == t.right.key && IsRed(r.left) && r.left.key == t.key
    ensures ChildrenSizeConsistent(t) ==> ChildrenSizeConsistent(r)
    ensures IsSizeConsistent(t) ==> IsSizeConsistent(r)
  {
    if t.Leaf? || !IsRed(t.right) then t
    else
      var x := t.right;
      var lowered := Node(Red, t.left, t.key, Size(t.left) + Size(x.left) + 1, x.left);
      Node(t.tag, lowered, x.key, t.size, x.right)
  }

  /** The condition under which `FlipColor` acts: two children, and the node's colour opposite to both of theirs. */
  predicate FlipApplies(t: RbTree)
  {
    && t.Node? && t.left.Node? && t.right.Node?
    && ((!IsRed(t) && IsRed(t.left) && IsRed(t.right)) || (IsRed(t) && !IsRed(t.left) && !IsRed(t.right)))
  }

  /** `FlipColor`: inverts the colours of a node and its two children when they are opposite; nothing else changes. */
  function FlipColor(t: RbTree): (r: RbTree)
    ensures Uncoloured(r) == Uncoloured(t)
    ensures InOrder(r) == InOrder(t)
    ensures r.Node? ==> r.left.Leaf? == t.left.Leaf? && r.right.Leaf? == t.right.Leaf?
    ensures FlipApplies(t) ==> IsRed(r) != IsRed(t) && IsRed(r.left) != IsRed(t.left) && IsRed(r.right) != IsRed(t.right)
    ensures !FlipApplies(t) ==> r == t
    ensures FlipApplies(t) ==> r.key == t.key && r.left.left == t.left.left && r.left.right == t.left.right && r.right.left == t.right.left && r.right.right == t.right.right
    ensures Size(r) == Size(t)
    ensures IsSizeConsistent(t) ==> IsSizeConsistent(r)
    ensures ChildrenSizeConsistent(t) ==> ChildrenSizeConsistent(r)
  {
    if !FlipApplies(t) then t
    else
      var l, rt := t.left, t.right;
      var l', rt' := Node(Toggle(l.tag), l.left, l.key, l.size, l.right), Node(Toggle(rt.tag), rt.left, rt.key, rt.size, rt.right);
      assert IsSizeConsistent(l) ==> IsSizeConsistent(l');
      assert IsSizeConsistent(rt) ==> IsSizeConsistent(rt');
      Node(Toggle(t.tag), l', t.key, t.size, rt')
  }

  /** Flipping twice restores the original colours. */
  lemma FlipColorTwice(t: RbTree)
    ensures FlipColor(FlipColor(t)) == t
  {
    if FlipApplies(t) {
      assert FlipApplies(FlipColor(t));
    }
  }

  /**
    `Balance`: the repair run on the way back up a deletion: lift a red right
    child, then lift a doubled red left link, then split a node whose
    children are both red, and recompute the node's counter.
  */
  function Balance(t: RbTree): (r: RbTree)
    ensures InOrder(r) == InOrder(t)
    ensures r.Leaf? <==> t.Leaf?
    ensures ChildrenSizeConsistent(t) ==> IsSizeConsistent(r)
  {
    if t.Leaf? then Leaf
    else
      var a := if IsRed(t.right) then RotateLeft(t) else t;
      var b := if IsRed(a.left) && IsRed(a.left.left) then RotateRight(a) else a;
      var c := if IsRed(b.left) && IsRed(b.right) then FlipColor(b) else b;
      c.(size := Size(c.left) + Size(c.right) + 1)
  }

  /**
    `MoveRedLeft`: for a red node whose left child and left grandchild are
    black, makes the left child or one of its children red, borrowing from
    the right sibling when that has a red left child.
  */
  function MoveRedLeft(t: RbTree): (r: RbTree)
    ensures InOrder(r) == InOrder(t)
    ensures r.Leaf? <==> t.Leaf?
    ensures !(t.Node? && t.left.Node? && IsRed(t) && !IsRed(t.left) && !IsRed(t.left.left)) ==> r == t
    ensures IsSizeConsistent(t) ==> IsSizeConsistent(r)
  {
    if t.Leaf? then Leaf
    else if t.left.Leaf? then t
    else if !(IsRed(t) && !IsRed(t.left) && !IsRed(t.left.left)) then t
    else
      var a := FlipColor(t);
      if a.right.Node? && IsRed(a.right.left) then
        var b := a.(right := RotateRight(a.right));
        FlipColor(RotateLeft(b))
      else a
  }

  /**
    `MoveRedRight`: for a red node whose right child and that child's left
    child are black, makes the right child or one of its children red,
    borrowing from the left sibling when that has a red left child.
  */
  function MoveRedRight(t: RbTree): (r: RbTree)
    ensures InOrder(r) == InOrder(t)
    ensures r.Leaf? <==> t.Leaf?
    ensures !(t.Node? && t.right.Node? && IsRed(t) && !IsRed(t.right) && !IsRed(t.right.left)) ==> r == t
    ensures IsSizeConsistent(t) ==> IsSizeConsistent(r)
  {
    if t.Leaf? then Leaf
    else if t.right.Leaf? then t
    else if !(IsRed(t) && !IsRed(t.right) && !IsRed(t.right.left)) then t
    else
      var a := FlipColor(t);
      if a.left.Node? && IsRed(a.left.left) then FlipColor(RotateRight(a)) else a
  }

  /**
    Run on a node whose children are left-leaning and equally balanced (a red
    node never having a red child), `Balance` returns a left-leaning subtree
    of the same black height; it turns red only a black node whose children
    were both red.
  */
  lemma BalanceRestores(t: RbTree, n: int)
    requires t.Node? && LeftLeaning(t.left) && LeftLeaning(t.right) && IsBalancedFrom(t, n)
    requires IsRed(t) ==> !IsRed(t.left) && !IsRed(t.right)
    ensures LeftLeaning(Balance(t)) && IsBalancedFrom(Balance(t), n)
    ensures !IsRed(t) && !(IsRed(t.left) && IsRed(t.right)) ==> !IsRed(Balance(t))
  {
    var l, k, rt := t.left, t.key, t.right;
    var m := BlackBelow(t, n);
    if IsRed(rt) && IsRed(l) {
      var a := RotateLeft(t);
      assert a == Node(t.tag, Node(Red, l, k, Size(l) + Size(rt.left) + 1, rt.left), rt.key, t.size, rt.right);
      var b := RotateRight(a);
      assert b.left == l && b.right.left == rt.left && b.right.right == rt.right && !IsRed(b);
      assert FlipApplies(b);
    } else if IsRed(rt) {
      var a := RotateLeft(t);
      assert a == Node(t.tag, Node(Red, l, k, Size(l) + Size(rt.left) + 1, rt.left), rt.key, t.size, rt.right);
    }
  }

  /**
    In the deletion descent `MoveRedLeft` meets a red node with a black left
    child and black left grandchild (and, since the node is red, a black right
    child). It returns a node whose left child is ready for `DelMin` (exactly
    one red among it and its children, no red right child), whose right
    child is left-leaning, with the black height unchanged and its key not
    below the original one.
  */
  lemma MoveRedLeftShape(t: RbTree, n: int)
    requires t.Node? && t.left.Node? && IsRed(t) && !IsRed(t.left) && !IsRed(t.left.left) && !IsRed(t.right)
    requires LeftLeaning(t.left) && LeftLeaning(t.right) && IsBalancedFrom(t, n)
    ensures var r := MoveRedLeft(t);
      && r.Node? && OneRed(r.left) && !IsRed(r.left.right) && LeftLeaning(r.right)
      && IsBalancedFrom(r.left, BlackBelow(r, n)) && IsBalancedFrom(r.right, BlackBelow(r, n))
      && (IsRed(r) ==> !IsRed(r.left) && !IsRed(r.right))
      && (Ordered(t) ==> t.key <= r.key)
  {
    var l, k, rt := t.left, t.key, t.right;
    BlackLeafIffZero(l, n);
    BlackLeafIffZero(rt, n);
    var a := FlipColor(t);
    assert FlipApplies(t);
    var lr, rr0 := Node(Red, l.left, l.key, l.size, l.right), Node(Red, rt.left, rt.key, rt.size, rt.right);
    assert a == Node(Black, lr, k, t.size, rr0);
    assert LeftLeaning(l.left) && LeftLeaning(l.right) && !IsRed(l.right);
    assert LeftLeaning(rt.left) && LeftLeaning(rt.right) && !IsRed(rt.right);
    if !IsRed(rt.left) {
      assert MoveRedLeft(t) == a;
      assert LeftLeaning(lr) && LeftLeaning(rr0);
    } else {
      var rr := RotateRight(a.right);
      assert rr == Node(Red, rt.left.left, rt.left.key, rt.size, Node(Red, rt.left.right, rt.key, Size(rt.left.right) + Size(rt.right) + 1, rt.right));
      var b := a.(right := rr);
      var c := RotateLeft(b);
      assert c.left == Node(Red, a.left, k, Size(a.left) + Size(rt.left.left) + 1, rt.left.left);
      assert c.right == rr.right && !IsRed(c);
      assert FlipApplies(c);
      var rl := rt.left;
      assert LeftLeaning(rl.left) && LeftLeaning(rl.right) && !IsRed(rl.left) && !IsRed(rl.right);
      assert MoveRedLeft(t) == FlipColor(c);
      assert IsBalancedFrom(l.left, n - 1) && IsBalancedFrom(l.right, n - 1) && IsBalancedFrom(rt.right, n - 1);
      assert IsBalancedFrom(rt, n) && IsBalancedFrom(rl, n - 1);
      assert IsBalancedFrom(rl.left, n - 1) && IsBalancedFrom(rl.right, n - 1);
      assert Ordered(t) ==> rl.key in Keys(rt);
      assert FlipColor(c) == Node(Red, Node(Black, lr, k, Size(lr) + Size(rl.left) + 1, rl.left), rl.key, t.size,
                                  Node(Black, rl.right, rt.key, Size(rl.right) + Size(rt.right) + 1, rt.right));
    }
  }

  /**
    In the deletion descent `MoveRedRight` meets a red node whose right child
    and right child's left child are black. It returns a node whose right
    child has exactly one red among it and its children and whose left child
    is left-leaning, with the black height unchanged. Either the key stays
    and the right child has no red right child, or the key drops below the
    original one, which now sits in the right child.
  */
  lemma MoveRedRightShape(t: RbTree, n: int)
    requires t.Node? && t.right.Node? && IsRed(t) && !IsRed(t.left) && !IsRed(t.right) && !IsRed(t.right.left)
    requires LeftLeaning(t.left) && LeftLeaning(t.right) && IsBalancedFrom(t, n)
    ensures var r := MoveRedRight(t);
      && r.Node? && LeftLeaning(r.left) && OneRed(r.right)
      && IsBalancedFrom(r.left, BlackBelow(r, n)) && IsBalancedFrom(r.right, BlackBelow(r, n))
      && (IsRed(r) ==> !IsRed(r.left) && !IsRed(r.right))
      && (!IsRed(r.right.right) ==> r.key == t.key)
      && (IsRed(r.right.right) ==> r.right.key == t.key && r.key == t.left.key)
  {
    var l, k, rt := t.left, t.key, t.right;
    BlackLeafIffZero(l, n);
    BlackLeafIffZero(rt, n);
    var a := FlipColor(t);
    assert FlipApplies(t);
    var lr, rr0 := Node(Red, l.left, l.key, l.size, l.right), Node(Red, rt.left, rt.key, rt.size, rt.right);
    assert a == Node(Black, lr, k, t.size, rr0);
    assert LeftLeaning(l.left) && LeftLeaning(l.right) && !IsRed(l.right);
    assert LeftLeaning(rt.left) && LeftLeaning(rt.right) && !IsRed(rt.right);
    if !IsRed(l.left) {
      assert MoveRedRight(t) == a;
      assert LeftLeaning(lr);
    } else {
      var b := RotateRight(a);
      assert b == Node(Black, l.left, l.key, t.size, Node(Red, l.right, k, Size(l.right) + Size(rr0) + 1, rr0));
      assert FlipApplies(b);
      var ll := l.left;
      assert LeftLeaning(ll.left) && LeftLeaning(ll.right) && !IsRed(ll.left) && !IsRed(ll.right);
      assert MoveRedRight(t) == FlipColor(b);
      assert IsBalancedFrom(l, n) && IsBalancedFrom(ll, n - 1) && IsBalancedFrom(l.right, n - 1);
      assert IsBalancedFrom(ll.left, n - 1) && IsBalancedFrom(ll.right, n - 1);
      assert IsBalancedFrom(rt.left, n - 1) && IsBalancedFrom(rt.right, n - 1);
      assert FlipColor(b) == Node(Red, Node(Black, ll.left, ll.key, ll.size, ll.right), l.key, t.size,
                                  Node(Black, l.right, k, Size(l.right) + Size(rr0) + 1, rr0));
    }
  }

  /**
    A black node with a red left child, rotated right at the start of a
    right-hand deletion step: the new top is black, its left child
    left-leaning, and its right child (the old node, now red) has two black
    children.
  */
  lemma RotateRightShape(t: RbTree, n: int)
    requires OneRed(t) && IsRed(t.left) && IsBalancedFrom(t, n)
    ensures var r := RotateRight(t);
      && r.Node? && !IsRed(r) && LeftLeaning(r.left) && OneRed(r.right) && !IsRed(r.right.right)
      && IsBalancedFrom(r.left, n - 1) && IsBalancedFrom(r.right, n - 1)
  {
    var l := t.left;
    assert LeftLeaning(l.left) && LeftLeaning(l.right) && !IsRed(l.left) && !IsRed(l.right);
  }
}
