/** The read-only walks of B_Tree: search, predecessor and successor go
    down one path from the root, and inorder walks the whole tree with an
    explicit stack. Each is a loop over the root node, proved against the
    in-order key sequence of the tree. */
module BTreeQueries {
  import opened KeySeq
  import opened BTreeNode
  import opened BTreeDescent

  /** B_Tree.search: the node and position of an occurrence of key, found
      exactly when the tree holds key. */
  method SearchTree(root: Node, key: int, ghost t: nat, ghost h: nat) returns (r: Option<(Node, nat)>)
    requires Shaped(root, t, h, true) && Sorted(Inorder(root))
    ensures r.Some? <==> key in Inorder(root)
    ensures r.Some? ==> ContainsKeyAt(r.value.0, key, r.value.1)
  {
    ghost var g, top := h, true;
    var node := root;
    NodeKeysSorted(node);
    var index := BTreeNode.Search(node, key);
    while !ContainsKeyAt(node, key, index) && !node.IsLeaf()
      invariant Shaped(node, t, g, top) && Sorted(Inorder(node))
      invariant index == LowerBound(node.keys, key)
      invariant key in Inorder(root) <==> key in Inorder(node)
      decreases g
    {
      LowerBoundGap(node, key);
      GapLocates(node, index, key);
      SortedAroundChild(node, index);
      node, g, top := node.children[index], g - 1, false;
      NodeKeysSorted(node);
      index := BTreeNode.Search(node, key);
    }
    if ContainsKeyAt(node, key, index) {
      KeyInInorder(node, index);
      r := Some((node, index));
    } else {
      ContainsKeyAtLowerBound(node, key);
      r := None;
    }
  }

  /** r is the predecessor of key among keys: the largest key below key,
      or None when there is none. */
  ghost predicate PredecessorOf(keys: seq<int>, key: int, r: Option<int>) {
    && (r.None? <==> forall x :: x in keys ==> key <= x)
    && (r.Some? ==> r.value in keys && r.value < key)
    && (r.Some? ==> forall x :: x in keys && x < key ==> x <= r.value)
  }

  /** r is the successor of key among keys: the smallest key above key,
      or None when there is none. */
  ghost predicate SuccessorOf(keys: seq<int>, key: int, r: Option<int>) {
    && (r.None? <==> forall x :: x in keys ==> x <= key)
    && (r.Some? ==> r.value in keys && key < r.value)
    && (r.Some? ==> forall x :: x in keys && key < x ==> r.value <= x)
  }

  /** B_Tree.predecessor: the largest key of the tree below key, or None
      when there is none. */
  method PredecessorTree(root: Node, key: int, ghost t: nat, ghost h: nat) returns (r: Option<int>)
    requires Shaped(root, t, h, true) && Sorted(Inorder(root))
    ensures PredecessorOf(Inorder(root), key, r)
  {
    ghost var g, top := h, true;
    var node: Option<Node> := Some(root);
    r := None;
    while node.Some?
      invariant node.Some? ==>
        Shaped(node.value, t, g, top) && Sorted(Inorder(node.value)) && BelowPending(Inorder(root), node.value, key, r)
      invariant node.None? ==> PredecessorOf(Inorder(root), key, r)
      decreases if node.Some? then g + 1 else 0
    {
      var n := node.value;
      PredecessorStep(Inorder(root), n, key, r, t, g, top);
      var index := LocatePredecessor(n, key);
      if index >= 0 {
        r := Some(n.keys[index]);
      }
      if n.IsLeaf() {
        node := None;
      } else {
        node, g, top := Some(n.children[index + 1]), g - 1, false;
      }
    }
  }

  /** The predecessor walk standing at node n with candidate r: the keys
      of n are keys of the tree, r is a key of the tree below key and at
      most every key of n, and every key of the tree below key is in n or
      at most r. */
  ghost predicate BelowPending(keys: seq<int>, n: Node, key: int, r: Option<int>) {
    && (forall x :: x in Inorder(n) ==> x in keys)
    && (r.Some? ==> r.value in keys && r.value < key && AllAtLeast(Inorder(n), r.value))
    && (forall x :: x in keys && x < key ==> x in Inorder(n) || (r.Some? && x <= r.value))
  }

  /** One round of the predecessor walk: the key just before the search
      position becomes the candidate, and the walk either ends at a leaf
      with the predecessor or goes on into the child at that position. */
  lemma PredecessorStep(keys: seq<int>, n: Node, key: int, r: Option<int>, t: nat, h: nat, isRoot: bool)
    requires Shaped(n, t, h, isRoot) && Sorted(Inorder(n)) && BelowPending(keys, n, key, r)
    ensures Sorted(n.keys) && (n.children == [] <==> h == 0)
    ensures var i := LowerBound(n.keys, key);
      var r' := if 0 < i then Some(n.keys[i - 1]) else r;
      && (h == 0 ==> PredecessorOf(keys, key, r'))
      && (0 < h ==> Shaped(n.children[i], t, h - 1, false) && Sorted(Inorder(n.children[i]))
                    && BelowPending(keys, n.children[i], key, r'))
  {
    NodeKeysSorted(n);
    var i := LowerBound(n.keys, key);
    LowerBoundSorted(n.keys, key, i);
    if 0 < i {
      KeyInInorder(n, i - 1);
    }
    if h == 0 {
      PredecessorLeaf(keys, n, key, r);
    } else {
      SortedAroundChild(n, i);
      PredecessorInner(keys, n, key, r, i);
    }
  }

  lemma PredecessorLeaf(keys: seq<int>, n: Node, key: int, r: Option<int>)
    requires n.children == [] && Sorted(n.keys) && BelowPending(keys, n, key, r)
    ensures var i := LowerBound(n.keys, key);
      PredecessorOf(keys, key, if 0 < i then Some(n.keys[i - 1]) else r)
  {
    var i := LowerBound(n.keys, key);
    LowerBoundSorted(n.keys, key, i);
    assert Inorder(n) == n.keys;
    forall x | x in keys && x < key
      ensures (0 < i && x <= n.keys[i - 1]) || (r.Some? && x <= r.value)
    {
      if x in n.keys {
        var j :| 0 <= j < |n.keys| && n.keys[j] == x;
      }
    }
    if 0 < i {
      assert n.keys[i - 1] in Inorder(n);
    }
  }

  lemma PredecessorInner(keys: seq<int>, n: Node, key: int, r: Option<int>, i: nat)
    requires Internal(n) && Sorted(Inorder(n)) && Sorted(n.keys) && BelowPending(keys, n, key, r)
    requires i == LowerBound(n.keys, key)
    ensures BelowPending(keys, n.children[i], key, if 0 < i then Some(n.keys[i - 1]) else r)
  {
    LowerBoundSorted(n.keys, key, i);
    InorderAround(n, i);
    SortedAroundChild(n, i);
    var c, b, a := n.children[i], BeforeChild(n, i), AfterChild(n, i);
    var r' := if 0 < i then Some(n.keys[i - 1]) else r;
    if 0 < i {
      KeyInInorder(n, i - 1);
    }
    forall x | x in Inorder(c)
      ensures x in keys
    {
      assert x in Inorder(n);
    }
    forall x | x in keys && x < key
      ensures x in Inorder(c) || (r'.Some? && x <= r'.value)
    {
      if x in b {
        assert 0 < i;
      } else if x !in a && x !in Inorder(n) && 0 < i {
        assert r.value <= n.keys[i - 1];
      }
    }
    if r'.Some? {
      forall x | x in Inorder(c)
        ensures r'.value <= x
      {
        assert x in Inorder(n);
      }
    }
  }

  /** B_Tree.successor: the smallest key of the tree above key, or None
      when there is none. */
  method SuccessorTree(root: Node, key: int, ghost t: nat, ghost h: nat) returns (r: Option<int>)
    requires Shaped(root, t, h, true) && Sorted(Inorder(root))
    ensures SuccessorOf(Inorder(root), key, r)
  {
    ghost var g, top := h, true;
    var node: Option<Node> := Some(root);
    r := None;
    while node.Some?
      invariant node.Some? ==>
        Shaped(node.value, t, g, top) && Sorted(Inorder(node.value)) && AbovePending(Inorder(root), node.value, key, r)
      invariant node.None? ==> SuccessorOf(Inorder(root), key, r)
      decreases if node.Some? then g + 1 else 0
    {
      var n := node.value;
      SuccessorStep(Inorder(root), n, key, r, t, g, top);
      var index := LocateSuccessor(n, key);
      if index < |n.keys| {
        r := Some(n.keys[index]);
      }
      if n.IsLeaf() {
        node := None;
      } else {
        node, g, top := Some(n.children[index]), g - 1, false;
      }
    }
  }

  /** The successor walk standing at node n with candidate r, the mirror
      image of BelowPending. */
  ghost predicate AbovePending(keys: seq<int>, n: Node, key: int, r: Option<int>) {
    && (forall x :: x in Inorder(n) ==> x in keys)
    && (r.Some? ==> r.value in keys && key < r.value && AllAtMost(Inorder(n), r.value))
    && (forall x :: x in keys && key < x ==> x in Inorder(n) || (r.Some? && r.value <= x))
  }

  /** One round of the successor walk. */
  lemma SuccessorStep(keys: seq<int>, n: Node, key: int, r: Option<int>, t: nat, h: nat, isRoot: bool)
    requires Shaped(n, t, h, isRoot) && Sorted(Inorder(n)) && AbovePending(keys, n, key, r)
    ensures n.children == [] <==> h == 0
    ensures var i := UpperBound(n.keys, key);
      var r' := if i < |n.keys| then Some(n.keys[i]) else r;
      && (h == 0 ==> SuccessorOf(keys, key, r'))
      && (0 < h ==> Shaped(n.children[i], t, h - 1, false) && Sorted(Inorder(n.children[i]))
                    && AbovePending(keys, n.children[i], key, r'))
  {
    NodeKeysSorted(n);
    var i := UpperBound(n.keys, key);
    if i < |n.keys| {
      KeyInInorder(n, i);
    }
    if h == 0 {
      SuccessorLeaf(keys, n, key, r);
    } else {
      SortedAroundChild(n, i);
      SuccessorInner(keys, n, key, r, i);
    }
  }

  lemma SuccessorLeaf(keys: seq<int>, n: Node, key: int, r: Option<int>)
    requires n.children == [] && Sorted(n.keys) && AbovePending(keys, n, key, r)
    ensures var i := UpperBound(n.keys, key);
      SuccessorOf(keys, key, if i < |n.keys| then Some(n.keys[i]) else r)
  {
    var i := UpperBound(n.keys, key);
    UpperBoundSorted(n.keys, key);
    assert Inorder(n) == n.keys;
    forall x | x in keys && key < x
      ensures (i < |n.keys| && n.keys[i] <= x) || (r.Some? && r.value <= x)
    {
      if x in n.keys {
        var j :| 0 <= j < |n.keys| && n.keys[j] == x;
      }
    }
    if i < |n.keys| {
      assert n.keys[i] in Inorder(n);
    }
  }

  lemma SuccessorInner(keys: seq<int>, n: Node, key: int, r: Option<int>, i: nat)
    requires Internal(n) && Sorted(Inorder(n)) && Sorted(n.keys) && AbovePending(keys, n, key, r)
    requires i == UpperBound(n.keys, key)
    ensures AbovePending(keys, n.children[i], key, if i < |n.keys| then Some(n.keys[i]) else r)
  {
    UpperBoundSorted(n.keys, key);
    InorderAround(n, i);
    SortedAroundChild(n, i);
    var c, b, a := n.children[i], BeforeChild(n, i), AfterChild(n, i);
    var r' := if i < |n.keys| then Some(n.keys[i]) else r;
    if i < |n.keys| {
      KeyInInorder(n, i);
    }
    forall x | x in Inorder(c)
      ensures x in keys
    {
      assert x in Inorder(n);
    }
    forall x | x in keys && key < x
      ensures x in Inorder(c) || (r'.Some? && r'.value <= x)
    {
      if x in a {
        assert i < |n.keys|;
      } else if x !in b && x !in Inorder(n) && i < |n.keys| {
        assert n.keys[i] <= r.value;
      }
    }
    if r'.Some? {
      forall x | x in Inorder(c)
        ensures x <= r'.value
      {
        assert x in Inorder(n);
      }
    }
  }

  /** B_Tree.inorder: the generator that walks the tree with an explicit
      stack of (node, index) pairs, each standing for key index of node
      and everything after it. It yields the keys of the tree in order,
      each exactly once. */
  method InorderWalk(root: Node) returns (r: seq<int>)
    requires Formed(root)
    ensures r == Inorder(root)
  {
    var stack: seq<(Node, nat)> := [];
    var node: Option<Node> := Some(root);
    var index: nat := 0;
    r := [];
    ghost var all := Inorder(root);
    TodoStart(root, []);
    while node.Some?
      invariant Stacked(stack)
      invariant node.Some? ==> Formed(node.value) && (node.value.children != [] ==> index < |node.value.children|)
      invariant node.Some? ==> r + Todo(node.value, index, stack) == all
      invariant node.None? ==> r == all
      decreases if node.Some? then |Todo(node.value, index, stack)| + 1 else 0,
        if node.Some? then node.value else root
    {
      ghost var todo := Todo(node.value, index, stack);
      var yielded;
      node, index, stack, yielded := WalkStep(node.value, index, stack);
      if node.Some? {
        assert r + yielded + Todo(node.value, index, stack) == r + todo;
      }
      r := r + yielded;
    }
  }

  /** One round of B_Tree.inorder at node n: a leaf yields its keys and
      then the key on top of the stack, and the walk goes on after that
      key (or ends with an empty stack); an internal node is pushed when
      a key of it is still to come, and the walk enters child index. */
  method WalkStep(n: Node, index: nat, stack: seq<(Node, nat)>)
    returns (node': Option<Node>, index': nat, stack': seq<(Node, nat)>, yielded: seq<int>)
    requires Formed(n) && (n.children != [] ==> index < |n.children|) && Stacked(stack)
    ensures Stacked(stack')
    ensures node'.Some? ==> Formed(node'.value) && (node'.value.children != [] ==> index' < |node'.value.children|)
    ensures node'.Some? ==> yielded + Todo(node'.value, index', stack') == Todo(n, index, stack)
    ensures node'.None? ==> yielded == Todo(n, index, stack)
    ensures node'.Some? && yielded == [] ==> node'.value in n.children
  {
    if n.IsLeaf() {
      if stack == [] {
        node', index', stack', yielded := None, index, stack, n.keys;
      } else {
        var (p, i) := stack[|stack| - 1];
        WalkPop(n, index, stack, p, i);
        node', index', stack', yielded := Some(p), i + 1, stack[..|stack| - 1], n.keys + [p.keys[i]];
      }
    } else {
      WalkDescend(n, index, stack);
      stack' := if index < |n.keys| then stack + [(n, index)] else stack;
      node', index', yielded := Some(n.children[index]), 0, [];
    }
  }

  /** At a leaf, the walk yields the leaf's keys and then the key the top
      of the stack stands for, and goes on after it. */
  lemma WalkPop(n: Node, index: nat, stack: seq<(Node, nat)>, p: Node, i: nat)
    requires Formed(n) && n.children == [] && Stacked(stack) && stack != [] && stack[|stack| - 1] == (p, i)
    ensures Stacked(stack[..|stack| - 1]) && Formed(p) && Internal(p) && i + 1 < |p.children|
    ensures Todo(n, index, stack) == n.keys + [p.keys[i]] + Todo(p, i + 1, stack[..|stack| - 1])
  {
    var rest := stack[..|stack| - 1];
    PendingPop(stack);
    AfterChildStep(p, i);
    var a, b, c := Inorder(p.children[i + 1]), AfterChild(p, i + 1), Pending(rest);
    assert Todo(n, index, stack) == n.keys + (([p.keys[i]] + a + b) + c);
    Regroup(n.keys, p.keys[i], a, b, c);
  }

  lemma Regroup(k: seq<int>, x: int, a: seq<int>, b: seq<int>, c: seq<int>)
    ensures k + (([x] + a + b) + c) == k + [x] + (a + b + c)
  {
  }

  /** At an internal node, the walk enters child index, first pushing the
      node when a key of it is still to come. */
  lemma WalkDescend(n: Node, index: nat, stack: seq<(Node, nat)>)
    requires Formed(n) && Internal(n) && index < |n.children| && Stacked(stack)
    ensures var stack' := if index < |n.keys| then stack + [(n, index)] else stack;
      && Stacked(stack') && Formed(n.children[index])
      && Todo(n.children[index], 0, stack') == Todo(n, index, stack)
  {
    if index < |n.keys| {
      PendingPush(stack, n, index);
    } else {
      assert AfterChild(n, index) == [];
    }
    TodoStart(n.children[index], if index < |n.keys| then stack + [(n, index)] else stack);
  }

  /** Every node is a leaf or has one child more than keys; what the
      in-order walk needs to know about the tree. */
  ghost predicate Formed(n: Node)
    decreases n
  {
    n.children == [] || (Internal(n) && forall i :: 0 <= i < |n.children| ==> Formed(n.children[i]))
  }

  lemma {:induction false} ShapedFormed(n: Node, t: nat, h: nat, isRoot: bool)
    requires Shaped(n, t, h, isRoot)
    ensures Formed(n)
    decreases n
  {
    if 0 < h {
      forall i | 0 <= i < |n.children|
        ensures Formed(n.children[i])
      {
        ShapedFormed(n.children[i], t, h - 1, false);
      }
    }
  }

  /** The stack of the in-order walk: internal nodes, each with the
      position of a key it has still to yield. */
  ghost predicate Stacked(stack: seq<(Node, nat)>) {
    forall j :: 0 <= j < |stack| ==> Formed(stack[j].0) && Internal(stack[j].0) && stack[j].1 < |stack[j].0.keys|
  }

  /** The keys the stack stands for, top of the stack first. */
  ghost function Pending(stack: seq<(Node, nat)>): seq<int>
    requires Stacked(stack)
    decreases |stack|
  {
    if stack == [] then []
    else
      var (p, i) := stack[|stack| - 1];
      AfterChild(p, i) + Pending(stack[..|stack| - 1])
  }

  /** The keys the walk has still to yield when it stands at node n, about
      to enter child index of it when it is internal. */
  ghost function Todo(n: Node, index: nat, stack: seq<(Node, nat)>): seq<int>
    requires Formed(n) && (n.children != [] ==> index < |n.children|) && Stacked(stack)
  {
    (if n.children == [] then n.keys else Inorder(n.children[index]) + AfterChild(n, index)) + Pending(stack)
  }

  lemma PendingPush(stack: seq<(Node, nat)>, n: Node, i: nat)
    requires Stacked(stack) && Formed(n) && Internal(n) && i < |n.keys|
    ensures Stacked(stack + [(n, i)])
    ensures Pending(stack + [(n, i)]) == AfterChild(n, i) + Pending(stack)
  {
    assert (stack + [(n, i)])[..|stack|] == stack;
  }

  lemma PendingPop(stack: seq<(Node, nat)>)
    requires Stacked(stack) && stack != []
    ensures Stacked(stack[..|stack| - 1])
    ensures Pending(stack) == AfterChild(stack[|stack| - 1].0, stack[|stack| - 1].1) + Pending(stack[..|stack| - 1])
  {
  }

  /** What follows child i of p: key i, child i + 1 and what follows it. */
  lemma AfterChildStep(p: Node, i: nat)
    requires Internal(p) && i < |p.keys|
    ensures AfterChild(p, i) == [p.keys[i]] + Inorder(p.children[i + 1]) + AfterChild(p, i + 1)
  {
    JoinSuffix(p.keys, Inorders(p.children), i + 1);
  }

  /** Entering a node at its first child yields its keys in order. */
  lemma TodoStart(c: Node, stack: seq<(Node, nat)>)
    requires Formed(c) && Stacked(stack)
    ensures Todo(c, 0, stack) == Inorder(c) + Pending(stack)
  {
    if c.children != [] {
      InorderAround(c, 0);
    }
  }
}
