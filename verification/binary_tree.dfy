/**
  The node record shared by both trees of the library, the orderings and
  counts defined over it, and the two structural checks both trees ship
  (binary-search order and subtree-size consistency).

  A subtree is an immutable value: `Leaf` stands for the null child pointer
  and `Node` for an owned node. `tag` is the per-node state that differs
  between the two trees: the colour bit of the red-black tree, nothing (the
  unit type) for the plain binary search tree. `size` is the stored
  `sub_node_num` counter, which the mutations recompute and which may be
  stale in intermediate states; `Count` is the true number of nodes.
*/
module BinaryTree {

  datatype Option<T> = None | Some(value: T)

  datatype Tree<C> = Leaf | Node(tag: C, left: Tree<C>, key: int, size: int, right: Tree<C>)

  /** `Size(node)`: the stored counter, 0 for an absent node. */
  function Size<C>(t: Tree<C>): int
  {
    if t.Leaf? then 0 else t.size
  }

  /** The number of nodes actually present. */
  function Count<C>(t: Tree<C>): nat
  {
    match t
    case Leaf => 0
    case Node(_, l, _, _, r) => Count(l) + 1 + Count(r)
  }

  /** The set of keys stored in a subtree. */
  ghost function Keys<C>(t: Tree<C>): set<int>
  {
    match t
    case Leaf => {}
    case Node(_, l, k, _, r) => Keys(l) + {k} + Keys(r)
  }

  /** The subtrees rooted at the nodes of `t`, `t` itself included when it is a node. */
  ghost function Subtrees<C>(t: Tree<C>): set<Tree<C>>
  {
    match t
    case Leaf => {}
    case Node(_, l, _, _, r) => {t} + Subtrees(l) + Subtrees(r)
  }

  /** The subtrees rooted strictly below the top node. */
  ghost function ProperSubtrees<C>(t: Tree<C>): set<Tree<C>>
  {
    if t.Leaf? then {} else Subtrees(t.left) + Subtrees(t.right)
  }

  /** `MiddleOrderWithRecursion`: the keys in the order the visitor sees them. */
  function InOrder<C>(t: Tree<C>): (s: seq<int>)
    ensures |s| == Count(t)
  {
    match t
    case Leaf => []
    case Node(_, l, k, _, r) => InOrder(l) + [k] + InOrder(r)
  }

  /** `PreOrderWithRecursion`. */
  function PreOrder<C>(t: Tree<C>): (s: seq<int>)
    ensures |s| == Count(t)
  {
    match t
    case Leaf => []
    case Node(_, l, k, _, r) => [k] + PreOrder(l) + PreOrder(r)
  }

  /** `LastOrderWithRecursion`. */
  function PostOrder<C>(t: Tree<C>): (s: seq<int>)
    ensures |s| == Count(t)
  {
    match t
    case Leaf => []
    case Node(_, l, k, _, r) => PostOrder(l) + PostOrder(r) + [k]
  }

  /** `IsSizeConsistent`: every stored counter equals its children's counters plus one. */
  predicate IsSizeConsistent<C>(t: Tree<C>)
  {
    match t
    case Leaf => true
    case Node(_, l, _, s, r) => s == Size(l) + Size(r) + 1 && IsSizeConsistent(l) && IsSizeConsistent(r)
  }

  /** Both children are size-consistent; only the node's own counter may be stale. */
  ghost predicate ChildrenSizeConsistent<C>(t: Tree<C>)
  {
    t.Leaf? || (IsSizeConsistent(t.left) && IsSizeConsistent(t.right))
  }

  /** `IsBST(node, min_val, max_val)`: every key lies strictly between the bounds inherited on the path. */
  predicate IsBSTWithin<C>(t: Tree<C>, lo: Option<int>, hi: Option<int>)
  {
    match t
    case Leaf => true
    case Node(_, l, k, _, r) =>
      && (lo.None? || lo.value < k)
      && (hi.None? || k < hi.value)
      && IsBSTWithin(l, lo, Some(k))
      && IsBSTWithin(r, Some(k), hi)
  }

  /** The public `IsBST()`: the range check started without bounds. */
  predicate IsBST<C>(t: Tree<C>)
  {
    IsBSTWithin(t, None, None)
  }

  /** Binary-search order stated on key sets, the form the proofs work with. */
  ghost predicate Ordered<C>(t: Tree<C>)
  {
    match t
    case Leaf => true
    case Node(_, l, k, _, r) =>
      && (forall x :: x in Keys(l) ==> x < k)
      && (forall x :: x in Keys(r) ==> k < x)
      && Ordered(l)
      && Ordered(r)
  }

  ghost predicate Within(x: int, lo: Option<int>, hi: Option<int>)
  {
    (lo.None? || lo.value < x) && (hi.None? || x < hi.value)
  }

  predicate StrictlyIncreasing(s: seq<int>)
  {
    forall i, j :: 0 <= i < j < |s| ==> s[i] < s[j]
  }

  lemma {:induction false} InOrderHasKeys<C>(t: Tree<C>)
    ensures |InOrder(t)| == Count(t)
    ensures forall x :: x in InOrder(t) <==> x in Keys(t)
  {
    match t
    case Leaf =>
    case Node(_, l, k, _, r) =>
      InOrderHasKeys(l);
      InOrderHasKeys(r);
  }

  /** The stored counter of a size-consistent subtree is its node count. */
  lemma {:induction false} SizeIsCount<C>(t: Tree<C>)
    requires IsSizeConsistent(t)
    ensures Size(t) == Count(t)
  {
    match t
    case Leaf =>
    case Node(_, l, _, _, r) =>
      SizeIsCount(l);
      SizeIsCount(r);
  }

  /** `IsSizeConsistent` holds exactly when the counter of every node is the number of nodes in its subtree. */
  lemma {:induction false} IsSizeConsistentIff<C>(t: Tree<C>)
    ensures IsSizeConsistent(t) <==> forall s :: s in Subtrees(t) ==> s.Node? && s.size == Count(s)
  {
    match t
    case Leaf =>
    case Node(_, l, _, _, r) =>
      IsSizeConsistentIff(l);
      IsSizeConsistentIff(r);
      assert Subtrees(t) == {t} + Subtrees(l) + Subtrees(r);
      if IsSizeConsistent(t) {
        SizeIsCount(t);
      } else if IsSizeConsistent(l) && IsSizeConsistent(r) {
        SizeIsCount(l);
        SizeIsCount(r);
        assert t.size != Count(t);
      }
  }

  /** The bounded range check holds exactly when the subtree is ordered and all its keys lie within the bounds. */
  lemma {:induction false} IsBSTWithinIffOrdered<C>(t: Tree<C>, lo: Option<int>, hi: Option<int>)
    ensures IsBSTWithin(t, lo, hi) <==> Ordered(t) && forall x :: x in Keys(t) ==> Within(x, lo, hi)
  {
    match t
    case Leaf =>
    case Node(_, l, k, _, r) =>
      IsBSTWithinIffOrdered(l, lo, Some(k));
      IsBSTWithinIffOrdered(r, Some(k), hi);
      if IsBSTWithin(t, lo, hi) {
        forall x | x in Keys(t) ensures Within(x, lo, hi) {
          if x in Keys(l) { assert Within(x, lo, Some(k)); } else if x in Keys(r) { assert Within(x, Some(k), hi); }
        }
        forall x | x in Keys(l) ensures x < k { assert Within(x, lo, Some(k)); }
        forall x | x in Keys(r) ensures k < x { assert Within(x, Some(k), hi); }
        assert Ordered(t);
      }
      if Ordered(t) && forall x :: x in Keys(t) ==> Within(x, lo, hi) {
        assert k in Keys(t);
        forall x | x in Keys(l) ensures Within(x, lo, Some(k)) { assert x in Keys(t); }
        forall x | x in Keys(r) ensures Within(x, Some(k), hi) { assert x in Keys(t); }
        assert IsBSTWithin(t, lo, hi);
      }
  }

  /** The shipped `IsBST` check is exactly binary-search order. */
  lemma IsBSTIffOrdered<C>(t: Tree<C>)
    ensures IsBST(t) <==> Ordered(t)
  {
    IsBSTWithinIffOrdered(t, None, None);
  }

  lemma ConcatIncreasing(a: seq<int>, k: int, b: seq<int>)
    ensures StrictlyIncreasing(a + [k] + b) <==>
      && StrictlyIncreasing(a) && StrictlyIncreasing(b)
      && (forall x :: x in a ==> x < k) && (forall x :: x in b ==> k < x)
  {
    var s := a + [k] + b;
    if StrictlyIncreasing(a) && StrictlyIncreasing(b) && (forall x :: x in a ==> x < k) && (forall x :: x in b ==> k < x) {
      forall i, j | 0 <= i < j < |s|
        ensures s[i] < s[j]
      {
        if j < |a| {
        } else if i < |a| {
          assert s[i] in a;
          if j > |a| { assert s[j] == b[j - |a| - 1]; assert s[j] in b; }
        } else if i == |a| {
          assert s[j] == b[j - |a| - 1];
          assert s[j] in b;
        } else {
          assert s[i] == b[i - |a| - 1] && s[j] == b[j - |a| - 1];
        }
      }
    }
    if StrictlyIncreasing(s) {
      forall i, j | 0 <= i < j < |a| ensures a[i] < a[j] { assert a[i] == s[i] && a[j] == s[j]; }
      forall i, j | 0 <= i < j < |b| ensures b[i] < b[j] {
        assert b[i] == s[|a| + 1 + i] && b[j] == s[|a| + 1 + j];
      }
      forall x | x in a ensures x < k {
        var i :| 0 <= i < |a| && a[i] == x;
        assert s[i] == x && s[|a|] == k;
      }
      forall x | x in b ensures k < x {
        var i :| 0 <= i < |b| && b[i] == x;
        assert s[|a| + 1 + i] == x && s[|a|] == k;
      }
    }
  }

  /** `IsBST` holds exactly when the in-order traversal visits keys in strictly ascending order. */
  lemma {:induction false} OrderedIffInOrderIncreasing<C>(t: Tree<C>)
    ensures Ordered(t) <==> StrictlyIncreasing(InOrder(t))
  {
    match t
    case Leaf =>
    case Node(_, l, k, _, r) =>
      OrderedIffInOrderIncreasing(l);
      OrderedIffInOrderIncreasing(r);
      InOrderHasKeys(l);
      InOrderHasKeys(r);
      ConcatIncreasing(InOrder(l), k, InOrder(r));
  }

  /** Every traversal order visits the same keys, each as often as the in-order traversal does. */
  lemma {:induction false} TraversalsArePermutations<C>(t: Tree<C>)
    ensures multiset(PreOrder(t)) == multiset(InOrder(t))
    ensures multiset(PostOrder(t)) == multiset(InOrder(t))
  {
    match t
    case Leaf =>
    case Node(_, l, k, _, r) =>
      TraversalsArePermutations(l);
      TraversalsArePermutations(r);
  }

  /** In an ordered tree the number of nodes is the number of distinct keys. */
  lemma {:induction false} OrderedCountIsKeys<C>(t: Tree<C>)
    requires Ordered(t)
    ensures Count(t) == |Keys(t)|
  {
    match t
    case Leaf =>
    case Node(_, l, k, _, r) =>
      OrderedCountIsKeys(l);
      OrderedCountIsKeys(r);
      forall x | x in Keys(l) ensures x !in Keys(r) { assert x < k; }
      assert Keys(l) !! Keys(r);
      assert k !in Keys(l) + Keys(r);
      assert Keys(t) == (Keys(l) + Keys(r)) + {k};
  }

  /** Adding one key to an ordered tree's keys adds a node exactly when the key is new. */
  lemma InsertCount<C, D>(t: Tree<C>, r: Tree<D>, k: int)
    requires Ordered(t) && Ordered(r) && Keys(r) == Keys(t) + {k}
    ensures Count(r) == if k in Keys(t) then Count(t) else Count(t) + 1
  {
    OrderedCountIsKeys(t);
    OrderedCountIsKeys(r);
    if k !in Keys(t) {
      assert |Keys(t) + {k}| == |Keys(t)| + 1;
    } else {
      assert Keys(t) + {k} == Keys(t);
    }
  }

  /** Two subtrees listing the same keys in the same order hold the same keys and are ordered alike. */
  lemma SameInOrder<C, D>(a: Tree<C>, b: Tree<D>)
    requires InOrder(a) == InOrder(b)
    ensures Keys(a) == Keys(b)
    ensures Ordered(a) <==> Ordered(b)
  {
    InOrderHasKeys(a);
    InOrderHasKeys(b);
    OrderedIffInOrderIncreasing(a);
    OrderedIffInOrderIncreasing(b);
    forall x ensures x in Keys(a) <==> x in Keys(b) {
      assert x in InOrder(a) <==> x in InOrder(b);
    }
  }

  /** Dropping the first element of a strictly increasing sequence keeps it increasing and removes exactly that value, the least one. */
  lemma IncreasingTail(s: seq<int>, p: seq<int>)
    requires StrictlyIncreasing(s) && |s| > 0 && p == s[1..]
    ensures StrictlyIncreasing(p)
    ensures forall x :: x in p <==> x in s && x != s[0]
    ensures forall x :: x in p ==> s[0] < x
  {
    forall x | x in p ensures x in s && s[0] < x {
      var i :| 0 <= i < |p| && p[i] == x;
      assert s[i + 1] == x;
    }
    forall x | x in s && x != s[0] ensures x in p {
      var i :| 0 <= i < |s| && s[i] == x;
      assert p[i - 1] == x;
    }
  }

  /** Dropping the last element of a strictly increasing sequence keeps it increasing and removes exactly that value, the greatest one. */
  lemma IncreasingInit(s: seq<int>, p: seq<int>)
    requires StrictlyIncreasing(s) && |s| > 0 && p == s[..|s| - 1]
    ensures StrictlyIncreasing(p)
    ensures forall x :: x in p <==> x in s && x != s[|s| - 1]
    ensures forall x :: x in p ==> x < s[|s| - 1]
  {
    var last := |s| - 1;
    forall x | x in p ensures x in s && x < s[last] {
      var i :| 0 <= i < |p| && p[i] == x;
      assert s[i] == x;
    }
    forall x | x in s && x != s[last] ensures x in p {
      var i :| 0 <= i < |s| && s[i] == x;
      assert p[i] == x;
    }
  }

  /** Key sets listed by two sequences, one of which is the other without `v`, differ by exactly `v`. */
  lemma KeysWithout(a: set<int>, b: set<int>, p: seq<int>, s: seq<int>, v: int)
    requires forall x :: x in a <==> x in p
    requires forall x :: x in b <==> x in s
    requires forall x :: x in p <==> x in s && x != v
    ensures a == b - {v}
  {
    assert forall x :: x in a <==> x in b - {v};
  }

  /** A subtree listing all but the first key of an ordered subtree is ordered and lacks exactly that key, which lies below all it keeps. */
  lemma DropFirstKey<C, D>(t: Tree<C>, u: Tree<D>)
    requires Ordered(t) && t.Node? && InOrder(u) == InOrder(t)[1..]
    ensures Ordered(u)
    ensures Keys(u) == Keys(t) - {InOrder(t)[0]}
    ensures forall x :: x in Keys(u) ==> InOrder(t)[0] < x
  {
    var s, p := InOrder(t), InOrder(u);
    OrderedIffInOrderIncreasing(t);
    IncreasingTail(s, p);
    OrderedIffInOrderIncreasing(u);
    InOrderHasKeys(t);
    InOrderHasKeys(u);
    KeysWithout(Keys(u), Keys(t), p, s, s[0]);
  }

  /** A subtree listing all but the last key of an ordered subtree is ordered and lacks exactly that key, which lies above all it keeps. */
  lemma DropLastKey<C, D>(t: Tree<C>, u: Tree<D>)
    requires Ordered(t) && t.Node? && InOrder(u) == InOrder(t)[..|InOrder(t)| - 1]
    ensures Ordered(u)
    ensures Keys(u) == Keys(t) - {InOrder(t)[|InOrder(t)| - 1]}
    ensures forall x :: x in Keys(u) ==> x < InOrder(t)[|InOrder(t)| - 1]
  {
    var s, p := InOrder(t), InOrder(u);
    OrderedIffInOrderIncreasing(t);
    IncreasingInit(s, p);
    OrderedIffInOrderIncreasing(u);
    InOrderHasKeys(t);
    InOrderHasKeys(u);
    KeysWithout(Keys(u), Keys(t), p, s, s[|s| - 1]);
  }

  lemma DropHead(x: seq<int>, k: int, y: seq<int>)
    requires |x| > 0
    ensures (x + [k] + y)[1..] == x[1..] + [k] + y
  {
  }

  lemma DropTail(x: seq<int>, k: int, y: seq<int>)
    requires |y| > 0
    ensures (x + [k] + y)[..|x| + |y|] == x + [k] + y[..|y| - 1]
  {
  }
}
