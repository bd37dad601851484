/**
  The colour layer of the left-leaning red-black tree: the colour bit, the
  fresh node, and the two shape checks the tree ships (`Is23Tree`,
  `IsBalanced`), each with an independent characterisation. It also names
  the intermediate shapes the insertion and deletion descents pass through.
*/
module RedBlack {
  import opened BinaryTree

  /** The colour bit of node.h, where `RED` is `true` and `BLACK` is `false`. */
  datatype Color = Red | Black

  type RbTree = Tree<Color>

  /** `IsRed`: an absent child counts as black. */
  predicate IsRed(t: RbTree)
  {
    t.Node? && t.tag == Red
  }

  /** The node constructor: one key, no children, a counter of one, coloured red. */
  function NewNode(k: int): (r: RbTree)
    ensures IsRed(r) && Keys(r) == {k} && Count(r) == 1 && IsSizeConsistent(r)
  {
    Node(Red, Leaf, k, 1, Leaf)
  }

  /** Assigning a colour to a node, as the public operations do to the root. */
  function Paint(t: RbTree, c: Color): (r: RbTree)
    ensures r.Leaf? <==> t.Leaf?
    ensures t.Node? ==> r.tag == c
    ensures InOrder(r) == InOrder(t) && Keys(r) == Keys(t)
    ensures IsSizeConsistent(r) <==> IsSizeConsistent(t)
  {
    match t
    case Leaf => Leaf
    case Node(_, l, k, s, rt) => Node(c, l, k, s, rt)
  }

  /**
    `Is23Tree(node)`: no red right child anywhere, and no red node with a red
    left child, except that the node the check started from may have one
    (`isRoot`: the C++ check compares the node against `root_`).
  */
  predicate Is23From(t: RbTree, isRoot: bool)
  {
    match t
    case Leaf => true
    case Node(c, l, _, _, r) =>
      && !IsRed(r)
      && !(!isRoot && c == Red && IsRed(l))
      && Is23From(l, false)
      && Is23From(r, false)
  }

  /** The public `Is23Tree()`, started at the root. */
  predicate Is23Tree(t: RbTree)
  {
    Is23From(t, true)
  }

  /** The left-leaning shape everywhere, the root included. */
  predicate LeftLeaning(t: RbTree)
  {
    Is23From(t, false)
  }

  /** The test `Is23Tree(node)` makes at every node: the right child is not red. */
  ghost predicate NoRedRight(s: RbTree)
  {
    s.Node? ==> !IsRed(s.right)
  }

  /** The test `Is23Tree(node)` makes at every node but the root: not a red node over a red left child. */
  ghost predicate NoRedPair(s: RbTree)
  {
    s.Node? ==> !(IsRed(s) && IsRed(s.left))
  }

  /** A subtree is left-leaning exactly when both local tests pass at every one of its nodes. */
  lemma {:induction false} LeftLeaningIff(t: RbTree)
    ensures LeftLeaning(t) <==> forall s :: s in Subtrees(t) ==> NoRedRight(s) && NoRedPair(s)
  {
    match t
    case Leaf =>
    case Node(_, l, _, _, r) =>
      LeftLeaningIff(l);
      LeftLeaningIff(r);
      assert Subtrees(t) == {t} + Subtrees(l) + Subtrees(r);
  }

  /**
    `Is23Tree()` holds exactly when no node has a red right child and no node
    below the root is a red node over a red left child: the root is exempt
    from the second test only.
  */
  lemma Is23TreeIff(t: RbTree)
    ensures Is23Tree(t) <==>
      && (forall s :: s in Subtrees(t) ==> NoRedRight(s))
      && (forall s :: s in ProperSubtrees(t) ==> NoRedPair(s))
  {
    if t.Node? {
      LeftLeaningIff(t.left);
      LeftLeaningIff(t.right);
      assert Subtrees(t) == {t} + ProperSubtrees(t);
    }
  }

  /** `IsBalanced(node, black)`: every path to an absent child meets exactly `black` black nodes. */
  predicate IsBalancedFrom(t: RbTree, black: int)
  {
    match t
    case Leaf => black == 0
    case Node(c, l, _, _, r) =>
      var b := if c == Red then black else black - 1;
      IsBalancedFrom(l, b) && IsBalancedFrom(r, b)
  }

  /** The loop of the public `IsBalanced()`: black nodes on the leftmost path. */
  function LeftBlackCount(t: RbTree): nat
  {
    match t
    case Leaf => 0
    case Node(c, l, _, _, _) => (if c == Red then 0 else 1) + LeftBlackCount(l)
  }

  /** The public `IsBalanced()`. */
  predicate IsBalanced(t: RbTree)
  {
    IsBalancedFrom(t, LeftBlackCount(t))
  }

  /** One black link less below a node that is not red. */
  function BlackBelow(t: RbTree, n: int): int
  {
    if IsRed(t) then n else n - 1
  }

  /**
    A node sitting in a 3-node or a temporary 4-node of the deletion descent:
    both children left-leaning and exactly one of the node and its two
    children red.
  */
  predicate OneRed(t: RbTree)
  {
    && t.Node?
    && LeftLeaning(t.left)
    && LeftLeaning(t.right)
    && (if IsRed(t) then !IsRed(t.left) && !IsRed(t.right) else IsRed(t.left) != IsRed(t.right))
  }

  /** The black-node counts of all paths from the node to an absent child. */
  ghost function BlackCounts(t: RbTree): set<int>
  {
    match t
    case Leaf => {0}
    case Node(c, l, _, _, r) =>
      var d := if c == Red then 0 else 1;
      set x | x in BlackCounts(l) + BlackCounts(r) :: x + d
  }

  lemma {:induction false} LeftBlackCountIsAPath(t: RbTree)
    ensures LeftBlackCount(t) in BlackCounts(t)
  {
    match t
    case Leaf =>
    case Node(c, l, _, _, r) =>
      LeftBlackCountIsAPath(l);
  }

  /** The recursive balance check holds for `n` exactly when every path meets `n` black nodes. */
  lemma {:induction false} IsBalancedFromIff(t: RbTree, n: int)
    ensures IsBalancedFrom(t, n) <==> BlackCounts(t) == {n}
  {
    match t
    case Leaf =>
    case Node(c, l, _, _, r) =>
      var d := if c == Red then 0 else 1;
      IsBalancedFromIff(l, n - d);
      IsBalancedFromIff(r, n - d);
      LeftBlackCountIsAPath(l);
      LeftBlackCountIsAPath(r);
      var u := BlackCounts(l) + BlackCounts(r);
      assert BlackCounts(t) == set x | x in u :: x + d;
      if BlackCounts(t) == {n} {
        forall x | x in u ensures x == n - d {
          assert x + d in BlackCounts(t);
        }
        assert BlackCounts(l) == {n - d} by {
          assert LeftBlackCount(l) in u;
        }
        assert BlackCounts(r) == {n - d} by {
          assert LeftBlackCount(r) in u;
        }
      }
      if BlackCounts(l) == {n - d} && BlackCounts(r) == {n - d} {
        assert u == {n - d};
        assert n - d + d in BlackCounts(t);
      }
  }

  /** The public check holds exactly when all paths from the root meet the same number of black nodes. */
  lemma IsBalancedIff(t: RbTree)
    ensures IsBalanced(t) <==> forall a, b :: a in BlackCounts(t) && b in BlackCounts(t) ==> a == b
  {
    IsBalancedFromIff(t, LeftBlackCount(t));
    LeftBlackCountIsAPath(t);
  }

  /** A balanced subtree has a non-negative black height, at least one when its top is a black node. */
  lemma {:induction false} BalancedHeightBound(t: RbTree, n: int)
    requires IsBalancedFrom(t, n)
    ensures n >= 0
    ensures t.Node? && !IsRed(t) ==> n >= 1
  {
    match t
    case Leaf =>
    case Node(c, l, _, _, r) =>
      BalancedHeightBound(l, BlackBelow(t, n));
  }

  /** Black height zero is exactly the absent node, for a subtree whose top is not red. */
  lemma BlackLeafIffZero(t: RbTree, n: int)
    requires IsBalancedFrom(t, n) && !IsRed(t)
    ensures t.Leaf? <==> n == 0
  {
    BalancedHeightBound(t, n);
  }

  /** The count the public check starts from is the black height of a balanced subtree. */
  lemma {:induction false} BalancedHeightIsLeftBlackCount(t: RbTree, n: int)
    requires IsBalancedFrom(t, n)
    ensures n == LeftBlackCount(t)
    ensures IsBalanced(t)
  {
    match t
    case Leaf =>
    case Node(c, l, _, _, r) =>
      BalancedHeightIsLeftBlackCount(l, BlackBelow(t, n));
  }

  /** Painting the root black keeps a balanced tree balanced and left-leaning trees valid for `Is23Tree`. */
  lemma PaintBlack(t: RbTree, n: int)
    requires IsBalancedFrom(t, n)
    requires Is23Tree(t) && (IsRed(t) ==> !IsRed(t.left))
    ensures IsBalancedFrom(Paint(t, Black), if IsRed(t) then n + 1 else n)
    ensures LeftLeaning(Paint(t, Black)) && Is23Tree(Paint(t, Black)) && !IsRed(Paint(t, Black))
  {
  }

  /**
    Under the invariants a node without a left child has no right child
    either, which is why `DelMin` may return null there without losing the
    right subtree.
  */
  lemma NoLeftNoRight(t: RbTree, n: int)
    requires LeftLeaning(t) && IsBalancedFrom(t, n) && t.Node? && t.left.Leaf?
    ensures t.right.Leaf?
  {
    BlackLeafIffZero(t.right, BlackBelow(t, n));
  }
}
