/** B_Tree.breadth_first_search and B_Tree.depth_first_search. Both walk
    the tree with one list used as a stack: the last node of the list is
    popped and emitted, and its children are appended in order, so the
    rightmost child is popped first. The walk therefore emits a node and
    then the whole subtree of its last child before its other children: a
    pre-order that visits children from right to left, not a level order.
    The depth-first walk emits the reverse of that list, which is the
    left-to-right post-order. */
module BTreeTraversal {
  import opened BTreeNode

  /** The order in which the stack walk emits the subtree of n: n first,
      then the subtrees of its children from the last to the first. */
  function StackOrder(n: Node): seq<Node>
    decreases n, 1
  {
    [n] + StackOrders(n.children)
  }

  /** What the stack walk emits from the stack cs: the subtree of the top
      (last) node, then the rest of the stack. */
  function StackOrders(cs: seq<Node>): seq<Node>
    decreases cs, 0
  {
    if cs == [] then [] else StackOrder(cs[|cs| - 1]) + StackOrders(cs[..|cs| - 1])
  }

  /** The subtree of n in post-order: the subtrees of its children from the
      first to the last, then n itself. */
  function Postorder(n: Node): seq<Node>
    decreases n, 1
  {
    Postorders(n.children) + [n]
  }

  /** The post-orders of the subtrees of cs, first to last. */
  function Postorders(cs: seq<Node>): seq<Node>
    decreases cs, 0
  {
    if cs == [] then [] else Postorder(cs[0]) + Postorders(cs[1..])
  }

  /** s back to front. */
  function Reverse<T>(s: seq<T>): (r: seq<T>)
    ensures |r| == |s|
  {
    if s == [] then [] else Reverse(s[1..]) + [s[0]]
  }

  lemma {:induction false} ReverseAppend<T>(a: seq<T>, b: seq<T>)
    ensures Reverse(a + b) == Reverse(b) + Reverse(a)
    decreases |a|
  {
    if a == [] {
      assert a + b == b;
    } else {
      assert (a + b)[1..] == a[1..] + b;
      ReverseAppend(a[1..], b);
    }
  }

  /** Pushing b on top of a stack a: everything b leads to is emitted
      before anything a leads to. */
  lemma {:induction false} StackOrdersAppend(a: seq<Node>, b: seq<Node>)
    ensures StackOrders(a + b) == StackOrders(b) + StackOrders(a)
    decreases |b|
  {
    if b == [] {
      assert a + b == a;
    } else {
      var c := a + b;
      assert c[|c| - 1] == b[|b| - 1];
      assert c[..|c| - 1] == a + b[..|b| - 1];
      StackOrdersAppend(a, b[..|b| - 1]);
    }
  }

  /** The post-order of a list of subtrees ends with the post-order of the
      last one. */
  lemma {:induction false} PostordersLast(cs: seq<Node>)
    requires cs != []
    ensures Postorders(cs) == Postorders(cs[..|cs| - 1]) + Postorder(cs[|cs| - 1])
    decreases |cs|
  {
    if |cs| > 1 {
      var t := cs[1..];
      assert t[|t| - 1] == cs[|cs| - 1];
      assert t[..|t| - 1] == cs[..|cs| - 1][1..];
      PostordersLast(t);
    }
  }

  /** Reversing what the stack walk emits gives the post-order. */
  lemma {:induction false} StackOrderReversed(n: Node)
    ensures Reverse(StackOrder(n)) == Postorder(n)
    decreases n, 1
  {
    ReverseAppend([n], StackOrders(n.children));
    StackOrdersReversed(n.children);
  }

  lemma {:induction false} StackOrdersReversed(cs: seq<Node>)
    ensures Reverse(StackOrders(cs)) == Postorders(cs)
    decreases cs, 0
  {
    if cs != [] {
      var l, i := cs[|cs| - 1], cs[..|cs| - 1];
      ReverseAppend(StackOrder(l), StackOrders(i));
      StackOrdersReversed(i);
      StackOrderReversed(l);
      PostordersLast(cs);
    }
  }

  /** The stack walk is not level by level: when the last child of n has
      children, its last child (two levels down) is emitted right after
      it, before the first child of n (one level down). */
  lemma DeeperFirst(n: Node)
    requires 2 <= |n.children|
    requires n.children[|n.children| - 1].children != []
    ensures var c := n.children[|n.children| - 1];
      && 3 <= |StackOrder(n)|
      && StackOrder(n)[2] == c.children[|c.children| - 1]
      && n.children[0] in StackOrder(n)[3..]
  {
    var cs := n.children;
    var c := cs[|cs| - 1];
    var g := c.children[|c.children| - 1];
    var rest := cs[..|cs| - 1];
    var below := StackOrders(c.children[..|c.children| - 1]);
    assert StackOrders(c.children) == StackOrder(g) + below;
    assert StackOrders(cs) == StackOrder(c) + StackOrders(rest);
    assert StackOrder(n) == [n, c, g] + (StackOrders(g.children) + below + StackOrders(rest));
    StackOrdersAppend([cs[0]], rest[1..]);
    assert [cs[0]] + rest[1..] == rest;
    assert StackOrders([cs[0]]) == StackOrder(cs[0]) by { assert [cs[0]][..0] == []; }
    assert n.children[0] in StackOrders(rest);
  }

  /** The loop of breadth_first_search: pop the last node of the stack,
      emit it, push its children. */
  method StackWalk(root: Node) returns (r: seq<Node>)
    ensures r == StackOrder(root)
  {
    var stack := [root];
    r := [];
    assert StackOrders(stack) == StackOrder(root) by { assert stack[..0] == []; }
    while stack != []
      invariant r + StackOrders(stack) == StackOrder(root)
      decreases |StackOrders(stack)|
    {
      var node := stack[|stack| - 1];
      var rest := stack[..|stack| - 1];
      StackOrdersAppend(rest, node.children);
      assert StackOrders(stack) == [node] + (StackOrders(rest + node.children));
      stack := rest + node.children;
      r := r + [node];
    }
  }

  /** depth_first_search: the stack walk collects every node, and the
      collected list is then popped from the end. */
  method ReversedStackWalk(root: Node) returns (r: seq<Node>)
    ensures r == Reverse(StackOrder(root))
    ensures r == Postorder(root)
  {
    var ordered := StackWalk(root);
    r := [];
    while ordered != []
      invariant r + Reverse(ordered) == Reverse(StackOrder(root))
    {
      var rest := ordered[..|ordered| - 1];
      ReverseAppend(rest, [ordered[|ordered| - 1]]);
      assert rest + [ordered[|ordered| - 1]] == ordered;
      r := r + [ordered[|ordered| - 1]];
      ordered := rest;
    }
    StackOrderReversed(root);
  }
}
