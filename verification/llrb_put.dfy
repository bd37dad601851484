/**
  Insertion into the left-leaning red-black tree: the recursive `Put` with
  its bottom-up repair, and what it preserves.
*/
module LlrbPut {
  import opened BinaryTree
  import opened RedBlack
  import opened Rotations

  /**
    The repair `Put` runs at every node on the way back up: lift a red right
    child whose sibling is black, lift a doubled red left link, split a node
    whose children are both red, and recompute the node's counter.
  */
  function PutFixUp(t: RbTree): (r: RbTree)
    ensures InOrder(r) == InOrder(t)
    ensures r.Leaf? <==> t.Leaf?
    ensures ChildrenSizeConsistent(t) ==> IsSizeConsistent(r)
  {
    if t.Leaf? then Leaf
    else
      var a := if IsRed(t.right) && !IsRed(t.left) then RotateLeft(t) else t;
      var b := if IsRed(a.left) && IsRed(a.left.left) then RotateRight(a) else a;
      var c := if IsRed(b.left) && IsRed(b.right) then FlipColor(b) else b;
      c.(size := Size(c.left) + Size(c.right) + 1)
  }

  /**
    The private `Put(node, param)`: descends by comparison, hangs a fresh red
    node where the search ends, leaves an equal key where it is, and repairs
    each node on the way back. The result holds exactly the old keys and `k`.
  */
  function Put(t: RbTree, k: int): (r: RbTree)
    ensures r.Node?
    ensures Keys(r) == Keys(t) + {k}
    ensures IsSizeConsistent(t) ==> IsSizeConsistent(r)
  {
    match t
    case Leaf => NewNode(k)
    case Node(c, l, key, s, rt) =>
      var u := if k < key then Node(c, Put(l, k), key, s, rt)
               else if k > key then Node(c, l, key, s, Put(rt, k))
               else t;
      SameInOrder(u, PutFixUp(u));
      PutFixUp(u)
  }

  /** `Put` keeps binary-search order. */
  lemma {:induction false} PutKeepsOrder(t: RbTree, k: int)
    requires Ordered(t)
    ensures Ordered(Put(t, k))
  {
    match t
    case Leaf =>
    case Node(c, l, key, s, rt) =>
      var u := if k < key then Node(c, Put(l, k), key, s, rt)
               else if k > key then Node(c, l, key, s, Put(rt, k))
               else t;
      if k < key {
        PutKeepsOrder(l, k);
      } else if k > key {
        PutKeepsOrder(rt, k);
      }
      assert Ordered(u);
      SameInOrder(u, PutFixUp(u));
  }

  /** In an ordered tree the node count grows by one exactly when the key was absent. */
  lemma {:induction false} PutCount(t: RbTree, k: int)
    requires Ordered(t)
    ensures Count(Put(t, k)) == if k in Keys(t) then Count(t) else Count(t) + 1
  {
    PutKeepsOrder(t, k);
    InsertCount(t, Put(t, k), k);
  }

  /**
    The repair at one node: given children that are left-leaning (the left one
    possibly a red node with a red left child, under a black node whose right
    child is black) and equally balanced, with a red node never having two
    red children, the result keeps the black height, is left-leaning when the
    node was black, and is a red node whose only possible fault is a red left
    child when the node was red.
  */
  lemma PutFixUpRestores(t: RbTree, n: int)
    requires t.Node? && LeftLeaning(t.right) && IsBalancedFrom(t, n)
    requires LeftLeaning(t.left) || (!IsRed(t) && IsRed(t.left) && Is23Tree(t.left) && !IsRed(t.right))
    requires IsRed(t) ==> !(IsRed(t.left) && IsRed(t.right))
    ensures IsBalancedFrom(PutFixUp(t), n)
    ensures !IsRed(t) ==> LeftLeaning(PutFixUp(t))
    ensures IsRed(t) ==> IsRed(PutFixUp(t)) && Is23Tree(PutFixUp(t))
  {
    var l, k, rt := t.left, t.key, t.right;
    if IsRed(rt) && !IsRed(l) {
      var a := RotateLeft(t);
      assert a == Node(t.tag, Node(Red, l, k, Size(l) + Size(rt.left) + 1, rt.left), rt.key, t.size, rt.right);
    } else if IsRed(l) && IsRed(l.left) {
      var b := RotateRight(t);
      assert b == Node(t.tag, l.left, l.key, t.size, Node(Red, l.right, k, Size(l.right) + Size(rt) + 1, rt));
      assert FlipApplies(b);
      var ll := l.left;
      assert IsBalancedFrom(l, n - 1) && IsBalancedFrom(ll, n - 1) && IsBalancedFrom(l.right, n - 1);
      assert IsBalancedFrom(ll.left, n - 1) && IsBalancedFrom(ll.right, n - 1);
      assert LeftLeaning(ll);
      assert LeftLeaning(ll.left) && LeftLeaning(ll.right) && LeftLeaning(l.right);
      assert PutFixUp(t) == Node(Red, Node(Black, ll.left, ll.key, ll.size, ll.right), l.key, Size(ll) + Size(b.right) + 1,
                                 Node(Black, l.right, k, Size(l.right) + Size(rt) + 1, rt));
    }
  }

  /**
    `Put` into a left-leaning balanced subtree keeps its black height; the
    result is left-leaning when the subtree's top was black or absent, and a
    red node whose only possible fault is a red left child when it was red.
  */
  lemma {:induction false} PutRestores(t: RbTree, k: int, n: int)
    requires LeftLeaning(t) && IsBalancedFrom(t, n)
    ensures IsBalancedFrom(Put(t, k), n)
    ensures !IsRed(t) ==> LeftLeaning(Put(t, k))
    ensures IsRed(t) ==> IsRed(Put(t, k)) && Is23Tree(Put(t, k))
  {
    match t
    case Leaf =>
    case Node(c, l, key, s, rt) =>
      var m := BlackBelow(t, n);
      if k < key {
        PutRestores(l, k, m);
        PutFixUpRestores(Node(c, Put(l, k), key, s, rt), n);
      } else if k > key {
        PutRestores(rt, k, m);
        PutFixUpRestores(Node(c, l, key, s, Put(rt, k)), n);
      } else {
        PutFixUpRestores(t, n);
      }
  }

  /** On a left-leaning, size-consistent node the repair has nothing to do. */
  lemma PutFixUpIdentity(t: RbTree)
    requires t.Node? && LeftLeaning(t) && IsSizeConsistent(t)
    ensures PutFixUp(t) == t
  {
    assert !IsRed(t.right);
    assert !(IsRed(t.left) && IsRed(t.left.left));
  }

  /** Putting a key that is already present into a valid subtree changes nothing. */
  lemma {:induction false} PutPresentIsIdentity(t: RbTree, k: int)
    requires LeftLeaning(t) && Ordered(t) && IsSizeConsistent(t) && k in Keys(t)
    ensures Put(t, k) == t
  {
    match t
    case Node(c, l, key, s, rt) =>
      assert Keys(t) == Keys(l) + {key} + Keys(rt);
      assert k in Keys(l) ==> k < key;
      assert k in Keys(rt) ==> key < k;
      if k < key {
        PutPresentIsIdentity(l, k);
        assert Node(c, Put(l, k), key, s, rt) == t;
      } else if k > key {
        PutPresentIsIdentity(rt, k);
        assert Node(c, l, key, s, Put(rt, k)) == t;
      }
      PutFixUpIdentity(t);
  }
}
