/**
  The explicit-stack traversals (`MiddleOrderWithStack`, `PreOrderWithStack`,
  `LastOrderWithStack`). Each is proved to hand the visitor exactly the key
  sequence of the corresponding recursive traversal. A node stack is a
  sequence whose first element is the top; the visitor is modelled by
  returning the sequence of keys it would receive.
*/
module Traversal {
  import opened BinaryTree

  /** Only present nodes are ever pushed. */
  ghost predicate AllNodes<C>(stack: seq<Tree<C>>)
  {
    |stack| == 0 || (stack[0].Node? && AllNodes(stack[1..]))
  }

  /** What the in-order loop still has to emit for the nodes waiting on the stack. */
  ghost function InOrderPending<C>(stack: seq<Tree<C>>): seq<int>
  {
    if |stack| == 0 then []
    else (if stack[0].Node? then [stack[0].key] + InOrder(stack[0].right) else []) + InOrderPending(stack[1..])
  }

  /** What the pre-order loop still has to emit for the nodes waiting on the stack. */
  ghost function PreOrderPending<C>(stack: seq<Tree<C>>): seq<int>
  {
    if |stack| == 0 then []
    else (if stack[0].Node? then PreOrder(stack[0].right) else []) + PreOrderPending(stack[1..])
  }

  /** The order in which the two-stack post-order loop moves nodes to its output stack. */
  ghost function ReversePostOrder<C>(t: Tree<C>): seq<int>
  {
    match t
    case Leaf => []
    case Node(_, l, k, _, r) => [k] + ReversePostOrder(r) + ReversePostOrder(l)
  }

  ghost function ReversePostOrderPending<C>(stack: seq<Tree<C>>): seq<int>
  {
    if |stack| == 0 then []
    else ReversePostOrder(stack[0]) + ReversePostOrderPending(stack[1..])
  }

  function Reverse(s: seq<int>): (r: seq<int>)
    ensures |r| == |s|
  {
    if |s| == 0 then [] else [s[|s| - 1]] + Reverse(s[..|s| - 1])
  }

  lemma {:induction false} ReverseConcat(a: seq<int>, b: seq<int>)
    ensures Reverse(a + b) == Reverse(b) + Reverse(a)
    decreases |b|
  {
    if |b| == 0 {
      assert a + b == a;
    } else {
      var init := b[..|b| - 1];
      assert (a + b)[..|a + b| - 1] == a + init;
      ReverseConcat(a, init);
    }
  }

  lemma {:induction false} ReverseTwice(s: seq<int>)
    ensures Reverse(Reverse(s)) == s
    decreases |s|
  {
    if |s| > 0 {
      var init := s[..|s| - 1];
      ReverseConcat([s[|s| - 1]], Reverse(init));
      ReverseTwice(init);
      assert Reverse([s[|s| - 1]]) == [s[|s| - 1]];
      assert s == init + [s[|s| - 1]];
    }
  }

  lemma {:induction false} ReversePostOrderIsReversed<C>(t: Tree<C>)
    ensures ReversePostOrder(t) == Reverse(PostOrder(t))
  {
    match t
    case Leaf =>
    case Node(_, l, k, _, r) =>
      ReversePostOrderIsReversed(l);
      ReversePostOrderIsReversed(r);
      ReverseConcat(PostOrder(l) + PostOrder(r), [k]);
      ReverseConcat(PostOrder(l), PostOrder(r));
  }

  /** Pushing a node on the in-order stack and descending left postpones its key and right subtree. */
  lemma InOrderPush<C>(out: seq<int>, node: Tree<C>, stack: seq<Tree<C>>)
    requires node.Node?
    ensures out + InOrder(node) + InOrderPending(stack) == out + InOrder(node.left) + InOrderPending([node] + stack)
  {
    assert ([node] + stack)[1..] == stack;
  }

  /** Popping a node from the in-order stack emits its key and continues with its right subtree. */
  lemma InOrderPop<C>(out: seq<int>, node: Tree<C>, stack: seq<Tree<C>>)
    requires node.Leaf? && |stack| > 0 && stack[0].Node?
    ensures out + InOrder(node) + InOrderPending(stack) == (out + [stack[0].key]) + InOrder(stack[0].right) + InOrderPending(stack[1..])
  {
  }

  lemma PreOrderPush<C>(out: seq<int>, node: Tree<C>, stack: seq<Tree<C>>)
    requires node.Node?
    ensures out + PreOrder(node) + PreOrderPending(stack) == (out + [node.key]) + PreOrder(node.left) + PreOrderPending([node] + stack)
  {
    assert ([node] + stack)[1..] == stack;
  }

  lemma PreOrderPop<C>(out: seq<int>, node: Tree<C>, stack: seq<Tree<C>>)
    requires node.Leaf? && |stack| > 0 && stack[0].Node?
    ensures out + PreOrder(node) + PreOrderPending(stack) == out + PreOrder(stack[0].right) + PreOrderPending(stack[1..])
  {
  }

  /** Pushes a child only when it is present, as the C++ loops' null checks do. */
  function PushIfPresent<C>(t: Tree<C>, stack: seq<Tree<C>>): (r: seq<Tree<C>>)
    ensures AllNodes(stack) ==> AllNodes(r)
  {
    if t.Node? then
      assert ([t] + stack)[1..] == stack;
      [t] + stack
    else stack
  }

  lemma PushIfPresentPending<C>(t: Tree<C>, stack: seq<Tree<C>>)
    ensures ReversePostOrderPending(PushIfPresent(t, stack)) == ReversePostOrder(t) + ReversePostOrderPending(stack)
  {
    if t.Node? {
      assert ([t] + stack)[1..] == stack;
    }
  }

  lemma Regroup(o: seq<int>, k: seq<int>, a: seq<int>, b: seq<int>, c: seq<int>)
    ensures o + (k + a + b + c) == (o + k) + (a + (b + c))
  {
  }

  /** One step of the first post-order loop: pop a node, record it, push its left then its right child. */
  lemma ReversePostOrderStep<C>(outStack: seq<int>, stack: seq<Tree<C>>)
    requires |stack| > 0 && stack[0].Node?
    ensures outStack + ReversePostOrderPending(stack) ==
      (outStack + [stack[0].key]) + ReversePostOrderPending(PushIfPresent(stack[0].right, PushIfPresent(stack[0].left, stack[1..])))
  {
    var curr, rest := stack[0], stack[1..];
    var a, b, c := ReversePostOrder(curr.right), ReversePostOrder(curr.left), ReversePostOrderPending(rest);
    PushIfPresentPending(curr.left, rest);
    PushIfPresentPending(curr.right, PushIfPresent(curr.left, rest));
    assert ReversePostOrderPending(PushIfPresent(curr.right, PushIfPresent(curr.left, rest))) == a + (b + c);
    assert ReversePostOrder(curr) == [curr.key] + a + b;
    assert ReversePostOrderPending(stack) == ReversePostOrder(curr) + c;
    Regroup(outStack, [curr.key], a, b, c);
  }

  /**
    `MiddleOrderWithStack`: emits the same keys, in the same order, as
    `MiddleOrderWithRecursion`. The stack's top is the first element.
  */
  method MiddleOrderWithStack<C>(root: Tree<C>) returns (out: seq<int>)
    ensures out == InOrder(root)
  {
    out := [];
    if root.Leaf? {
      return;
    }
    var node := root;
    var stack: seq<Tree<C>> := [];
    while node.Node? || |stack| > 0
      invariant AllNodes(stack)
      invariant out + InOrder(node) + InOrderPending(stack) == InOrder(root)
      decreases |InOrder(root)| - |out|, Count(node)
    {
      if node.Node? {
        InOrderPush(out, node, stack);
        stack := [node] + stack;
        node := node.left;
      } else {
        var top := stack[0];
        InOrderPop(out, node, stack);
        out := out + [top.key];
        stack := stack[1..];
        node := top.right;
      }
    }
  }

  /**
    `PreOrderWithStack`: emits the same keys, in the same order, as
    `PreOrderWithRecursion`. The stack's top is the first element.
  */
  method PreOrderWithStack<C>(root: Tree<C>) returns (out: seq<int>)
    ensures out == PreOrder(root)
  {
    out := [];
    if root.Leaf? {
      return;
    }
    var node := root;
    var stack: seq<Tree<C>> := [];
    while node.Node? || |stack| > 0
      invariant AllNodes(stack)
      invariant out + PreOrder(node) + PreOrderPending(stack) == PreOrder(root)
      decreases |PreOrder(root)| - |out|, |stack|
    {
      if node.Node? {
        PreOrderPush(out, node, stack);
        out := out + [node.key];
        stack := [node] + stack;
        node := node.left;
      } else {
        var top := stack[0];
        PreOrderPop(out, node, stack);
        stack := stack[1..];
        node := top.right;
      }
    }
  }

  /** The first loop of `LastOrderWithStack`: the keys in the order they are pushed onto the output stack. */
  method FillOutputStack<C>(root: Tree<C>) returns (outStack: seq<int>)
    requires root.Node?
    ensures outStack == ReversePostOrder(root)
  {
    var tmpStack: seq<Tree<C>> := [root];
    outStack := [];
    assert ReversePostOrderPending(tmpStack) == ReversePostOrder(root);
    while |tmpStack| > 0
      invariant AllNodes(tmpStack)
      invariant outStack + ReversePostOrderPending(tmpStack) == ReversePostOrder(root)
      decreases |ReversePostOrder(root)| - |outStack|
    {
      var curr := tmpStack[0];
      ReversePostOrderStep(outStack, tmpStack);
      outStack := outStack + [curr.key];
      tmpStack := PushIfPresent(curr.right, PushIfPresent(curr.left, tmpStack[1..]));
    }
    assert outStack + [] == outStack;
  }

  /**
    `LastOrderWithStack`: emits the same keys, in the same order, as
    `LastOrderWithRecursion`. The working stack's top is its first element;
    the output stack is modelled by the keys of the nodes pushed onto it
    (its top is the last element), which is all the final loop reads.
  */
  method LastOrderWithStack<C>(root: Tree<C>) returns (out: seq<int>)
    ensures out == PostOrder(root)
  {
    out := [];
    if root.Leaf? {
      return;
    }
    var outStack := FillOutputStack(root);
    ReversePostOrderIsReversed(root);
    ReverseTwice(PostOrder(root));
    assert [] + Reverse(outStack) == Reverse(outStack);
    while |outStack| > 0
      invariant out + Reverse(outStack) == PostOrder(root)
    {
      var last := outStack[|outStack| - 1];
      var below := outStack[..|outStack| - 1];
      assert Reverse(outStack) == [last] + Reverse(below);
      assert out + Reverse(outStack) == (out + [last]) + Reverse(below);
      out := out + [last];
      outStack := below;
    }
  }
}
