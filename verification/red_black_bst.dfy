/**
  The public face of `RedBlackBST`: the mutations that recolour the root
  around the recursive helpers, and the class invariant made of the four
  checks the tree ships. Each mutation is proved to keep the invariant and
  to change the key set exactly as promised.
*/
module RedBlackBst {
  import opened BinaryTree
  import opened RedBlack
  import Queries
  import LlrbPut
  import LlrbDelete
  import Rotations

  /** The four shipped checks, plus the black root every public mutation leaves behind. */
  predicate Valid(t: RbTree)
  {
    IsBST(t) && IsSizeConsistent(t) && Is23Tree(t) && IsBalanced(t) && !IsRed(t)
  }

  /** `Put(val)`: insert below the root, then paint the root black. */
  function Put(t: RbTree, k: int): (r: RbTree)
    ensures r.Node? && !IsRed(r)
    ensures Keys(r) == Keys(t) + {k}
  {
    Paint(LlrbPut.Put(t, k), Black)
  }

  /** Before a deletion descends, a root whose children are both black is turned red. */
  function RedRootIfBothBlack(t: RbTree): (r: RbTree)
    requires t.Node?
    ensures r.Node? && r.left == t.left && r.key == t.key && r.size == t.size && r.right == t.right
    ensures IsRed(r) <==> IsRed(t) || (!IsRed(t.left) && !IsRed(t.right))
  {
    if !IsRed(t.left) && !IsRed(t.right) then Paint(t, Red) else t
  }

  /** `DelMin()`: nothing on an empty tree; otherwise delete below a recoloured root and paint the new root black. */
  function DelMin(t: RbTree): (r: RbTree)
    ensures t.Leaf? ==> r.Leaf?
    ensures !IsRed(r)
    ensures Keys(r) <= Keys(t)
  {
    if t.Leaf? then t
    else Paint(LlrbDelete.DelMin(RedRootIfBothBlack(t)), Black)
  }

  /** `DelMax()`: as `DelMin()`, on the largest key. */
  function DelMax(t: RbTree): (r: RbTree)
    ensures t.Leaf? ==> r.Leaf?
    ensures !IsRed(r)
    ensures Keys(r) <= Keys(t)
  {
    if t.Leaf? then t
    else Paint(LlrbDelete.DelMax(RedRootIfBothBlack(t)), Black)
  }

  /** `Delete(val)`: nothing unless `IsExists(val)`; otherwise as `DelMin()`. */
  function Delete(t: RbTree, k: int): (r: RbTree)
    ensures Queries.Contains(t, k) ==> !IsRed(r)
    ensures Keys(r) <= Keys(t)
  {
    if !Queries.Contains(t, k) then t
    else Paint(LlrbDelete.Delete(RedRootIfBothBlack(t), k), Black)
  }

  /**
    The four checks alone accept a red root over a red left child, because
    `Is23Tree()` exempts the root from the red-pair test.
  */
  lemma FourChecksAdmitRedPair()
    ensures var t := Node(Red, Node(Red, Leaf, 1, 1, Leaf), 2, 2, Leaf);
      IsBST(t) && IsSizeConsistent(t) && Is23Tree(t) && IsBalanced(t)
  {
  }

  /**
    From such a root, `Put` of a larger key leaves a red right link under the
    new root, so the four checks alone are not kept; `Valid` also asks for
    the black root every public mutation leaves behind.
  */
  lemma RedPairRootBreaksPut(t: RbTree, k: int)
    requires t.Node? && IsRed(t) && IsRed(t.left) && !IsRed(t.left.left) && t.right.Leaf? && t.key < k
    ensures !Is23Tree(Put(t, k))
  {
    var u := t.(right := NewNode(k));
    assert LlrbPut.Put(t, k) == LlrbPut.PutFixUp(u);
    assert !Rotations.FlipApplies(u);
  }

  /** A valid tree is left-leaning all the way down, ordered, and balanced at its left black count. */
  lemma ValidUnfolds(t: RbTree)
    requires Valid(t)
    ensures LeftLeaning(t) && Ordered(t) && IsBalancedFrom(t, LeftBlackCount(t))
  {
    IsBSTIffOrdered(t);
  }

  lemma LeftLeaningIs23(t: RbTree)
    requires LeftLeaning(t)
    ensures Is23Tree(t)
  {
  }

  /** Painting the root of an ordered, size-consistent, left-leaning, balanced tree black makes it valid. */
  lemma Repaint(u: RbTree, n: int)
    requires LeftLeaning(u) && IsBalancedFrom(u, n) && Ordered(u) && IsSizeConsistent(u)
    ensures Valid(Paint(u, Black))
  {
    var p := Paint(u, Black);
    LeftLeaningIs23(u);
    PaintBlack(u, n);
    BalancedHeightIsLeftBlackCount(p, if IsRed(u) then n + 1 else n);
    SameInOrder(u, p);
    IsBSTIffOrdered(p);
  }

  /**
    The tree a deletion descends into, with its black height: the root is
    ready for the descent (one red among it and its children, and no red
    right child).
  */
  lemma RecolourForDelete(t: RbTree) returns (m: int)
    requires Valid(t) && t.Node?
    ensures LlrbDelete.DelMinReady(RedRootIfBothBlack(t))
    ensures IsBalancedFrom(RedRootIfBothBlack(t), m)
    ensures InOrder(RedRootIfBothBlack(t)) == InOrder(t) && Ordered(RedRootIfBothBlack(t))
    ensures IsSizeConsistent(RedRootIfBothBlack(t))
  {
    ValidUnfolds(t);
    var n := LeftBlackCount(t);
    var t1 := RedRootIfBothBlack(t);
    SameInOrder(t, t1);
    if !IsRed(t.left) && !IsRed(t.right) {
      assert IsBalancedFrom(t.left, n - 1) && IsBalancedFrom(t.right, n - 1);
      m := n - 1;
    } else {
      m := n;
    }
  }

  /** `Put(k)` keeps every check, adds exactly `k`, and grows the tree by one node exactly when `k` was absent. */
  lemma PutKeepsValid(t: RbTree, k: int)
    requires Valid(t)
    ensures Valid(Put(t, k))
    ensures Keys(Put(t, k)) == Keys(t) + {k}
    ensures Count(Put(t, k)) == if k in Keys(t) then Count(t) else Count(t) + 1
  {
    ValidUnfolds(t);
    var n := LeftBlackCount(t);
    LlrbPut.PutRestores(t, k, n);
    LlrbPut.PutKeepsOrder(t, k);
    LlrbPut.PutCount(t, k);
    Repaint(LlrbPut.Put(t, k), n);
  }

  /** Inserting a key that is already present leaves a valid tree exactly as it was. */
  lemma PutPresentIsIdentity(t: RbTree, k: int)
    requires Valid(t) && k in Keys(t)
    ensures Put(t, k) == t
  {
    ValidUnfolds(t);
    LlrbPut.PutPresentIsIdentity(t, k);
  }

  /** `DelMin()` keeps every check and removes exactly the key `Min()` reports. */
  lemma DelMinKeepsValid(t: RbTree)
    requires Valid(t)
    ensures Valid(DelMin(t))
    ensures t.Leaf? ==> DelMin(t) == t
    ensures t.Node? ==> InOrder(DelMin(t)) == InOrder(t)[1..]
    ensures t.Node? ==> Keys(DelMin(t)) == Keys(t) - {Queries.Min(t).value}
  {
    if t.Node? {
      ValidUnfolds(t);
      var m := RecolourForDelete(t);
      var t1 := RedRootIfBothBlack(t);
      LlrbDelete.DelMinRestores(t1, m);
      var u := LlrbDelete.DelMin(t1);
      DropFirstKey(t, u);
      Repaint(u, m);
    }
  }

  /** Deleting the maximum below a recoloured root and painting the result black gives a valid tree without the last key. */
  lemma DelMaxBelowRoot(t1: RbTree, m: int)
    requires OneRed(t1) && IsBalancedFrom(t1, m) && Ordered(t1) && IsSizeConsistent(t1)
    ensures Valid(Paint(LlrbDelete.DelMax(t1), Black))
    ensures InOrder(Paint(LlrbDelete.DelMax(t1), Black)) == InOrder(t1)[..|InOrder(t1)| - 1]
    ensures Keys(Paint(LlrbDelete.DelMax(t1), Black)) == Keys(t1) - {InOrder(t1)[|InOrder(t1)| - 1]}
  {
    LlrbDelete.DelMaxRestores(t1, m);
    var u := LlrbDelete.DelMax(t1);
    DropLastKey(t1, u);
    Repaint(u, m);
  }

  /** The wrapper paints black the result of the descent from the recoloured root. */
  lemma DelMaxUnfolds(t: RbTree)
    requires t.Node?
    ensures DelMax(t) == Paint(LlrbDelete.DelMax(RedRootIfBothBlack(t)), Black)
  {
  }

  /** What is proved of the wrapper's result, restated in terms of `Count` and `Max()`. */
  lemma DelMaxIs(t: RbTree, r: RbTree)
    requires t.Node? && DelMax(t) == r
    requires Valid(r) && InOrder(r) == InOrder(t)[..|InOrder(t)| - 1]
    requires Keys(r) == Keys(t) - {InOrder(t)[|InOrder(t)| - 1]}
    ensures Valid(DelMax(t))
    ensures InOrder(DelMax(t)) == InOrder(t)[..Count(t) - 1]
    ensures Keys(DelMax(t)) == Keys(t) - {Queries.Max(t).value}
  {
  }

  /** `DelMax()` keeps every check and removes exactly the key `Max()` reports. */
  lemma {:induction false} DelMaxKeepsValid(t: RbTree)
    requires Valid(t)
    ensures Valid(DelMax(t))
    ensures t.Leaf? ==> DelMax(t) == t
    ensures t.Node? ==> InOrder(DelMax(t)) == InOrder(t)[..Count(t) - 1]
    ensures t.Node? ==> Keys(DelMax(t)) == Keys(t) - {Queries.Max(t).value}
  {
    if t.Node? {
      var m := RecolourForDelete(t);
      var t1 := RedRootIfBothBlack(t);
      DelMaxBelowRoot(t1, m);
      DelMaxUnfolds(t);
      DelMaxIs(t, Paint(LlrbDelete.DelMax(t1), Black));
    }
  }

  /** `Delete(k)` keeps every check, removes exactly `k`, and changes nothing when `k` is absent. */
  lemma DeleteKeepsValid(t: RbTree, k: int)
    requires Valid(t)
    ensures Valid(Delete(t, k))
    ensures Keys(Delete(t, k)) == Keys(t) - {k}
    ensures k !in Keys(t) ==> Delete(t, k) == t
  {
    ValidUnfolds(t);
    Queries.GetFindsStoredKeys(t, k);
    if k in Keys(t) {
      var m := RecolourForDelete(t);
      var t1 := RedRootIfBothBlack(t);
      LlrbDelete.DeleteRestores(t1, k, m);
      Repaint(LlrbDelete.Delete(t1, k), m);
    }
  }

  /** Deleting a present key shrinks the tree by exactly one node. */
  lemma DeleteCount(t: RbTree, k: int)
    requires Valid(t)
    ensures Count(Delete(t, k)) == if k in Keys(t) then Count(t) - 1 else Count(t)
  {
    DeleteKeepsValid(t, k);
    var r := Delete(t, k);
    IsBSTIffOrdered(t);
    IsBSTIffOrdered(r);
    OrderedCountIsKeys(t);
    OrderedCountIsKeys(r);
    if k in Keys(t) {
      assert Keys(t) == Keys(r) + {k};
    }
  }
}
