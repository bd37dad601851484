/**
  The read-only queries both trees implement with the same top-down
  descent: `Get`, `Min`, `Max`, `Floor`, `Ceiling`, `Rank`, `Select` and
  `Height`. Balancing changes only the depth of the tree, never these
  algorithms, so they are defined once over the shared node record.

  A query that returns a node pointer in the C++ code returns here the key
  that node carries (`Get` returns the node itself), with `None` for null.
*/
module Queries {
  import opened BinaryTree

  /** `Get`: the node holding `x`, found by descending on comparisons. */
  function Get<C>(t: Tree<C>, x: int): (r: Option<Tree<C>>)
    ensures r.Some? ==> r.value.Node? && r.value.key == x && x in Keys(r.value) && x in Keys(t)
  {
    match t
    case Leaf => None
    case Node(_, l, k, _, rt) =>
      if x < k then Get(l, x)
      else if x > k then Get(rt, x)
      else Some(t)
  }

  /** `IsExists`: `Get` finds a node. */
  function Contains<C>(t: Tree<C>, x: int): (r: bool)
    ensures r ==> x in Keys(t)
  {
    Get(t, x).Some?
  }

  /** `Min`: the leftmost key, or `None` for an empty tree. */
  function Min<C>(t: Tree<C>): (r: Option<int>)
    ensures r.None? <==> t.Leaf?
    ensures r.Some? ==> r.value == InOrder(t)[0] && r.value in Keys(t)
  {
    match t
    case Leaf => None
    case Node(_, l, k, _, _) =>
      var m := Min(l);
      if m.None? then Some(k) else m
  }

  /** `Max`: the rightmost key, or `None` for an empty tree. */
  function Max<C>(t: Tree<C>): (r: Option<int>)
    ensures r.None? <==> t.Leaf?
    ensures r.Some? ==> r.value == InOrder(t)[|InOrder(t)| - 1] && r.value in Keys(t)
  {
    match t
    case Leaf => None
    case Node(_, _, k, _, rt) =>
      var m := Max(rt);
      if m.None? then Some(k) else m
  }

  /** `Floor`: as written, `x <= key` always descends left, so the result is strictly below `x`. */
  function Floor<C>(t: Tree<C>, x: int): (r: Option<int>)
    ensures r.Some? ==> r.value in Keys(t) && r.value < x
  {
    match t
    case Leaf => None
    case Node(_, l, k, _, rt) =>
      if x <= k then Floor(l, x)
      else
        var f := Floor(rt, x);
        if f.None? then Some(k) else f
  }

  /** `Ceiling`: as written, `x >= key` always descends right, so the result is strictly above `x`. */
  function Ceiling<C>(t: Tree<C>, x: int): (r: Option<int>)
    ensures r.Some? ==> r.value in Keys(t) && x < r.value
  {
    match t
    case Leaf => None
    case Node(_, l, k, _, rt) =>
      if x >= k then Ceiling(rt, x)
      else
        var c := Ceiling(l, x);
        if c.None? then Some(k) else c
  }

  /** `Rank`: the 1-based position of a present key; a failed search anywhere yields 0. */
  function Rank<C>(t: Tree<C>, x: int): (r: int)
    ensures x !in Keys(t) ==> r == 0
  {
    match t
    case Leaf => 0
    case Node(_, l, k, _, rt) =>
      if x < k then Rank(l, x)
      else if x > k then
        var rank := Rank(rt, x);
        if rank == 0 then rank else 1 + Size(l) + rank
      else Size(l) + 1
  }

  /** `Select`: the key at 1-based position `ranking`, steered by the stored counters. */
  function Select<C>(t: Tree<C>, ranking: int): (r: Option<int>)
    ensures r.Some? ==> r.value in Keys(t)
  {
    match t
    case Leaf => None
    case Node(_, l, k, _, rt) =>
      var num := Size(l) + 1;
      if num > ranking then Select(l, ranking)
      else if num < ranking then Select(rt, ranking - num)
      else Some(k)
  }

  function Pow2(n: nat): nat
  {
    if n == 0 then 1 else 2 * Pow2(n - 1)
  }

  /** `Height`: the number of nodes on a longest root-to-leaf path. */
  function Height<C>(t: Tree<C>): (r: nat)
    ensures r == 0 <==> t.Leaf?
    ensures r <= Count(t) < Pow2(r)
  {
    match t
    case Leaf => 0
    case Node(_, l, _, _, rt) =>
      var hl := Height(l);
      var hr := Height(rt);
      var h := if hl >= hr then hl else hr;
      PowMonotone(hl, h);
      PowMonotone(hr, h);
      1 + h
  }

  lemma {:induction false} PowMonotone(a: nat, b: nat)
    requires a <= b
    ensures Pow2(a) <= Pow2(b)
    decreases b
  {
    if a < b {
      PowMonotone(a, b - 1);
    }
  }

  /** In an ordered tree `Get` succeeds exactly for the stored keys. */
  lemma {:induction false} GetFindsStoredKeys<C>(t: Tree<C>, x: int)
    requires Ordered(t)
    ensures Get(t, x).Some? <==> x in Keys(t)
  {
    match t
    case Leaf =>
    case Node(_, l, k, _, rt) =>
      if x < k {
        GetFindsStoredKeys(l, x);
      } else if x > k {
        GetFindsStoredKeys(rt, x);
      }
  }

  /** In an ordered tree `Min` and `Max` are the least and the greatest stored key. */
  /** On an ordered tree `IsExists` is exactly membership. */
  lemma ContainsIsMembership<C>(t: Tree<C>, x: int)
    requires Ordered(t)
    ensures Contains(t, x) <==> x in Keys(t)
  {
    GetFindsStoredKeys(t, x);
  }

  lemma {:induction false} MinMaxAreExtremes<C>(t: Tree<C>)
    requires Ordered(t) && t.Node?
    ensures forall y :: y in Keys(t) ==> Min(t).value <= y <= Max(t).value
  {
    var Node(_, l, k, _, rt) := t;
    if l.Node? {
      MinMaxAreExtremes(l);
    }
    if rt.Node? {
      MinMaxAreExtremes(rt);
    }
  }

  /** No element of `s` lies strictly below `x`. */
  ghost predicate NoneBelow(s: set<int>, x: int)
  {
    forall y :: y in s ==> x <= y
  }

  /** No element of `s` lies strictly above `x`. */
  ghost predicate NoneAbove(s: set<int>, x: int)
  {
    forall y :: y in s ==> y <= x
  }

  /** `f` is the greatest element of `s` strictly below `x`. */
  ghost predicate GreatestBelow(f: int, s: set<int>, x: int)
  {
    f in s && f < x && forall y :: y in s && y < x ==> y <= f
  }

  /** `c` is the least element of `s` strictly above `x`. */
  ghost predicate LeastAbove(c: int, s: set<int>, x: int)
  {
    c in s && x < c && forall y :: y in s && x < y ==> c <= y
  }

  /** `Floor(x)` is the greatest stored key strictly less than `x`, and `None` when there is none. */
  lemma {:induction false} FloorIsStrictPredecessor<C>(t: Tree<C>, x: int)
    requires Ordered(t)
    ensures Floor(t, x).None? <==> NoneBelow(Keys(t), x)
    ensures Floor(t, x).Some? ==> GreatestBelow(Floor(t, x).value, Keys(t), x)
  {
    match t
    case Leaf =>
    case Node(_, l, k, _, rt) =>
      FloorIsStrictPredecessor(l, x);
      FloorIsStrictPredecessor(rt, x);
      if x <= k {
        assert NoneBelow(Keys(rt), x);
        assert NoneBelow(Keys(t), x) <==> NoneBelow(Keys(l), x);
        if Floor(l, x).Some? {
          var f := Floor(l, x).value;
          assert GreatestBelow(f, Keys(l), x);
          forall y | y in Keys(t) && y < x ensures y <= f {
            assert y in Keys(l);
          }
        }
      } else {
        assert !NoneBelow(Keys(t), x) by { assert k in Keys(t); }
        var f := Floor(t, x).value;
        if Floor(rt, x).Some? {
          assert GreatestBelow(f, Keys(rt), x);
          forall y | y in Keys(t) && y < x ensures y <= f {
            if y in Keys(l) { assert y < k && k < f; }
          }
        } else {
          assert f == k && NoneBelow(Keys(rt), x);
          forall y | y in Keys(t) && y < x ensures y <= f {
            if y in Keys(l) { assert y < k; }
          }
        }
      }
  }

  /** `Ceiling(x)` is the least stored key strictly greater than `x`, and `None` when there is none. */
  lemma {:induction false} CeilingIsStrictSuccessor<C>(t: Tree<C>, x: int)
    requires Ordered(t)
    ensures Ceiling(t, x).None? <==> NoneAbove(Keys(t), x)
    ensures Ceiling(t, x).Some? ==> LeastAbove(Ceiling(t, x).value, Keys(t), x)
  {
    match t
    case Leaf =>
    case Node(_, l, k, _, rt) =>
      CeilingIsStrictSuccessor(l, x);
      CeilingIsStrictSuccessor(rt, x);
      if x >= k {
        assert NoneAbove(Keys(l), x);
        assert NoneAbove(Keys(t), x) <==> NoneAbove(Keys(rt), x);
        if Ceiling(rt, x).Some? {
          var c := Ceiling(rt, x).value;
          assert LeastAbove(c, Keys(rt), x);
          forall y | y in Keys(t) && x < y ensures c <= y {
            assert y in Keys(rt);
          }
        }
      } else {
        assert !NoneAbove(Keys(t), x) by { assert k in Keys(t); }
        var c := Ceiling(t, x).value;
        if Ceiling(l, x).Some? {
          assert LeastAbove(c, Keys(l), x);
          forall y | y in Keys(t) && x < y ensures c <= y {
            if y in Keys(rt) { assert c < k && k < y; }
          }
        } else {
          assert c == k && NoneAbove(Keys(l), x);
          forall y | y in Keys(t) && x < y ensures c <= y {
            if y in Keys(rt) { assert k < y; }
          }
        }
      }
  }

  /** With consistent counters, `Select(i)` is the i-th key of the in-order sequence, and `None` outside `[1, Count]`. */
  lemma {:induction false} SelectIsPosition<C>(t: Tree<C>, i: int)
    requires IsSizeConsistent(t)
    ensures 1 <= i <= Count(t) ==> Select(t, i) == Some(InOrder(t)[i - 1])
    ensures !(1 <= i <= Count(t)) ==> Select(t, i).None?
  {
    match t
    case Leaf =>
    case Node(_, l, k, _, rt) =>
      SizeIsCount(l);
      InOrderHasKeys(l);
      InOrderHasKeys(rt);
      InOrderHasKeys(t);
      var num := Size(l) + 1;
      if num > i {
        SelectIsPosition(l, i);
      } else if num < i {
        SelectIsPosition(rt, i - num);
      }
  }

  /** In an ordered tree with consistent counters, a stored key's rank is its 1-based in-order position; an absent key ranks 0. */
  lemma {:induction false} RankIsPosition<C>(t: Tree<C>, x: int)
    requires Ordered(t) && IsSizeConsistent(t)
    ensures x in Keys(t) ==> 1 <= Rank(t, x) <= Count(t) && InOrder(t)[Rank(t, x) - 1] == x
    ensures x !in Keys(t) ==> Rank(t, x) == 0
  {
    match t
    case Leaf =>
    case Node(_, l, k, _, rt) =>
      SizeIsCount(l);
      var s := InOrder(t);
      assert Keys(t) == Keys(l) + {k} + Keys(rt);
      assert x in Keys(l) ==> x < k;
      assert x in Keys(rt) ==> k < x;
      if x < k {
        RankIsPosition(l, x);
        if x in Keys(t) {
          assert x in Keys(l);
          assert s[Rank(l, x) - 1] == InOrder(l)[Rank(l, x) - 1];
        }
      } else if x > k {
        RankIsPosition(rt, x);
        if x in Keys(t) {
          assert x in Keys(rt);
          var r := Rank(rt, x);
          assert Rank(t, x) == Count(l) + 1 + r;
          assert s[Count(l) + r] == InOrder(rt)[r - 1];
        }
      } else {
        assert s[Count(l)] == k;
      }
  }

  /** `Rank(Select(i)) == i` for every position of an ordered, size-consistent tree. */
  lemma RankOfSelect<C>(t: Tree<C>, i: int)
    requires Ordered(t) && IsSizeConsistent(t) && 1 <= i <= Count(t)
    ensures Select(t, i).Some? && Rank(t, Select(t, i).value) == i
  {
    SelectIsPosition(t, i);
    InOrderHasKeys(t);
    var x := InOrder(t)[i - 1];
    RankIsPosition(t, x);
    OrderedIffInOrderIncreasing(t);
    var j := Rank(t, x);
    assert InOrder(t)[j - 1] == InOrder(t)[i - 1];
  }

  /** `Select(Rank(x)) == x` for every stored key of an ordered, size-consistent tree. */
  lemma SelectOfRank<C>(t: Tree<C>, x: int)
    requires Ordered(t) && IsSizeConsistent(t) && x in Keys(t)
    ensures Select(t, Rank(t, x)) == Some(x)
  {
    RankIsPosition(t, x);
    SelectIsPosition(t, Rank(t, x));
  }
}
