/**
  The unbalanced `BinarySearchTree`: the same node record without a colour,
  insertion that recomputes the counters along the search path, removal of
  the smallest and largest key by promoting the remaining child, and Hibbard
  deletion, where a node with two children takes its successor's key. Its
  queries are those of `Queries`, instantiated with the colourless tag.
*/
module Bst {
  import opened BinaryTree
  import Queries

  type BstTree = Tree<()>

  /** The node constructor: one key, no children, a counter of one. */
  function NewNode(k: int): (r: BstTree)
    ensures r.Node? && r.left.Leaf? && r.right.Leaf? && r.key == k && r.size == 1
    ensures Keys(r) == {k} && Count(r) == 1 && IsSizeConsistent(r)
  {
    Node((), Leaf, k, 1, Leaf)
  }

  /** A node over the given children whose counter is recomputed from theirs. */
  function Join(l: BstTree, k: int, r: BstTree): BstTree
  {
    Node((), l, k, Size(l) + Size(r) + 1, r)
  }

  /** `Put(node, param)`: hangs a fresh node where the search ends and leaves an equal key where it is. */
  function Put(t: BstTree, k: int): (r: BstTree)
    ensures r.Node?
    ensures Keys(r) == Keys(t) + {k}
    ensures IsSizeConsistent(t) ==> IsSizeConsistent(r)
  {
    match t
    case Leaf => NewNode(k)
    case Node(_, l, x, _, rt) =>
      if k < x then Join(Put(l, k), x, rt)
      else if k > x then Join(l, x, Put(rt, k))
      else Join(l, x, rt)
  }

  /** `DelMin(node)`: the leftmost node is replaced by its right child. */
  function DelMin(t: BstTree): (r: BstTree)
    ensures t.Leaf? ==> r.Leaf?
    ensures Keys(r) <= Keys(t)
    ensures t.Node? ==> InOrder(r) == InOrder(t)[1..]
    ensures IsSizeConsistent(t) ==> IsSizeConsistent(r)
  {
    match t
    case Leaf => Leaf
    case Node(_, l, x, _, rt) =>
      if l.Leaf? then rt
      else
        DropHead(InOrder(l), x, InOrder(rt));
        Join(DelMin(l), x, rt)
  }

  /** `DelMax(node)`: the rightmost node is replaced by its left child. */
  function DelMax(t: BstTree): (r: BstTree)
    ensures t.Leaf? ==> r.Leaf?
    ensures t.Node? ==> InOrder(r) == InOrder(t)[..Count(t) - 1]
    ensures IsSizeConsistent(t) ==> IsSizeConsistent(r)
  {
    match t
    case Leaf => Leaf
    case Node(_, l, x, _, rt) =>
      if rt.Leaf? then
        assert InOrder(t) == InOrder(l) + [x];
        l
      else
        DropTail(InOrder(l), x, InOrder(rt));
        Join(l, x, DelMax(rt))
  }

  /**
    `Delete(node, val)`: a matching node with one child is replaced by that
    child; one with two children takes the key of its right subtree's
    minimum, which is removed from that subtree.
  */
  function Delete(t: BstTree, k: int): (r: BstTree)
    ensures Keys(r) <= Keys(t)
    ensures IsSizeConsistent(t) ==> IsSizeConsistent(r)
  {
    match t
    case Leaf => Leaf
    case Node(_, l, x, _, rt) =>
      if k < x then Join(Delete(l, k), x, rt)
      else if k > x then Join(l, x, Delete(rt, k))
      else if l.Leaf? then rt
      else if rt.Leaf? then l
      else
        Join(l, Queries.Min(rt).value, DelMin(rt))
  }

  /** `Put` keeps binary-search order. */
  lemma {:induction false} PutKeepsOrder(t: BstTree, k: int)
    requires Ordered(t)
    ensures Ordered(Put(t, k))
  {
    match t
    case Leaf =>
    case Node(_, l, x, _, rt) =>
      if k < x {
        PutKeepsOrder(l, k);
      } else if k > x {
        PutKeepsOrder(rt, k);
      }
  }

  /** In an ordered tree the node count grows by one exactly when the key was absent. */
  lemma {:induction false} PutCount(t: BstTree, k: int)
    requires Ordered(t)
    ensures Count(Put(t, k)) == if k in Keys(t) then Count(t) else Count(t) + 1
  {
    PutKeepsOrder(t, k);
    InsertCount(t, Put(t, k), k);
  }

  /** Putting a key that is already present into an ordered, size-consistent tree changes nothing. */
  lemma {:induction false} PutPresentIsIdentity(t: BstTree, k: int)
    requires Ordered(t) && IsSizeConsistent(t) && k in Keys(t)
    ensures Put(t, k) == t
  {
    match t
    case Node(u, l, x, _, rt) =>
      assert u == ();
      if k < x {
        PutPresentIsIdentity(l, k);
      } else if k > x {
        PutPresentIsIdentity(rt, k);
      }
  }

  /** `DelMin` on an ordered tree keeps the order and removes exactly the key `Min` reports. */
  lemma {:induction false} DelMinRemovesMin(t: BstTree)
    requires Ordered(t) && t.Node?
    ensures Ordered(DelMin(t))
    ensures Keys(DelMin(t)) == Keys(t) - {Queries.Min(t).value}
  {
    DropFirstKey(t, DelMin(t));
  }

  /** `DelMax` on an ordered tree keeps the order and removes exactly the key `Max` reports. */
  lemma {:induction false} DelMaxRemovesMax(t: BstTree)
    requires Ordered(t) && t.Node?
    ensures Ordered(DelMax(t))
    ensures Keys(DelMax(t)) == Keys(t) - {Queries.Max(t).value}
  {
    DropLastKey(t, DelMax(t));
  }

  /** `Delete` on an ordered tree keeps the order and removes exactly `k`. */
  lemma {:induction false} DeleteRemovesKey(t: BstTree, k: int)
    requires Ordered(t)
    ensures Ordered(Delete(t, k))
    ensures Keys(Delete(t, k)) == Keys(t) - {k}
  {
    match t
    case Leaf =>
    case Node(_, l, x, _, rt) =>
      if k < x {
        DeleteRemovesKey(l, k);
      } else if k > x {
        DeleteRemovesKey(rt, k);
      } else if l.Node? && rt.Node? {
        DelMinRemovesMin(rt);
        DropFirstKey(rt, DelMin(rt));
      }
  }

  /**
    Deleting the key of a node with two children keeps its left subtree,
    replaces its key by the successor (the least stored key above `k`) and
    removes that successor from the right subtree.
  */
  lemma DeleteTakesSuccessor(t: BstTree, k: int)
    requires Ordered(t) && t.Node? && t.key == k && t.left.Node? && t.right.Node?
    ensures Delete(t, k).Node?
    ensures Delete(t, k).left == t.left && Delete(t, k).right == DelMin(t.right)
    ensures Delete(t, k).key in Keys(t) && k < Delete(t, k).key
    ensures forall x :: x in Keys(t) && k < x ==> Delete(t, k).key <= x
  {
    var Node(_, l, _, _, rt) := t;
    var m := Queries.Min(rt).value;
    assert Delete(t, k) == Join(l, m, DelMin(rt));
    Queries.MinMaxAreExtremes(rt);
    assert Keys(t) == Keys(l) + {k} + Keys(rt);
    forall x | x in Keys(t) && k < x
      ensures m <= x
    {
      assert x !in Keys(l);
    }
  }

  /** Deleting an absent key from an ordered, size-consistent tree changes nothing. */
  lemma {:induction false} DeleteAbsentIsIdentity(t: BstTree, k: int)
    requires Ordered(t) && IsSizeConsistent(t) && k !in Keys(t)
    ensures Delete(t, k) == t
  {
    match t
    case Leaf =>
    case Node(u, l, x, _, rt) =>
      assert u == ();
      if k < x {
        DeleteAbsentIsIdentity(l, k);
      } else {
        DeleteAbsentIsIdentity(rt, k);
      }
  }

  /** Deleting a present key from an ordered tree removes exactly one node. */
  lemma {:induction false} DeleteCount(t: BstTree, k: int)
    requires Ordered(t)
    ensures Count(Delete(t, k)) == if k in Keys(t) then Count(t) - 1 else Count(t)
  {
    DeleteRemovesKey(t, k);
    OrderedCountIsKeys(t);
    OrderedCountIsKeys(Delete(t, k));
    if k in Keys(t) {
      assert Keys(t) == Keys(Delete(t, k)) + {k};
    }
  }
}
