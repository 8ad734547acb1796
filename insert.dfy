/** B_Tree.insert (b_tree.py) as a recursive specification: the single
    top-down pass that splits every full child before entering it, so that
    the key always lands in a leaf with room for it. B_Tree.Insert in
    btree.dfy runs the same pass as the source's loop and is proved equal
    to Insert below; the lemmas here prove what the pass preserves. */
module BTreeInsert {
  import opened KeySeq
  import opened BTreeNode
  import opened BTreeSurgery
  import opened BTreeDescent
  import opened BTreePath

  /** The child of SplitChild(n, i) the pass continues in: the upper half
      when the median moved up is below key, else the lower half. */
  function SplitTarget(n: Node, i: nat, key: int): (j: nat)
    requires i < |n.keys|
    ensures j == i || j == i + 1
  {
    if n.keys[i] < key then i + 1 else i
  }

  /** At a leaf the key goes into the node's own keys. */
  lemma InsertLeaf(n: Node, key: int, t: nat, isRoot: bool)
    requires Shaped(n, t, 0, isRoot) && |n.keys| < 2 * t - 1
    ensures Shaped(InsertKey(n, key), t, 0, isRoot)
    ensures Sorted(Inorder(n)) ==>
      (Sorted(Inorder(InsertKey(n, key))) && multiset(Inorder(InsertKey(n, key))) == multiset(Inorder(n)) + multiset{key})
  {
    assert Inorder(n) == n.keys && Inorder(InsertKey(n, key)) == InsertKey(n, key).keys;
  }

  /** Putting back a child into which key went, when key fits its gap,
      keeps the node's invariant and order and adds key to it. */
  lemma InsertBelow(p: Node, j: nat, r: Node, key: int, t: nat, h: nat, isRoot: bool)
    requires Shaped(p, t, h, isRoot) && 0 < h && j < |p.children| && Shaped(r, t, h - 1, false)
    requires Sorted(Inorder(p.children[j])) ==>
      (Sorted(Inorder(r)) && multiset(Inorder(r)) == multiset(Inorder(p.children[j])) + multiset{key})
    requires 0 < j ==> p.keys[j - 1] <= key
    requires j < |p.keys| ==> key <= p.keys[j]
    ensures Shaped(Replace(p, j, r), t, h, isRoot)
    ensures Sorted(Inorder(p)) ==>
      (Sorted(Inorder(Replace(p, j, r))) && multiset(Inorder(Replace(p, j, r))) == multiset(Inorder(p)) + multiset{key})
  {
    ReplaceShape(p, j, r, t, h, isRoot);
    if Sorted(Inorder(p)) {
      SortedAroundChild(p, j);
      DescendInsert(p, j, r, key);
    }
  }

  /** The first step of B_Tree.insert: a full root is pushed down under a
      new root and split, so the pass always starts at a root with room. */
  function Lift(root: Node, t: nat): Node
    requires 1 <= t
  {
    if |root.keys| == 2 * t - 1 then GrowRoot(root) else root
  }

  /** The height of Lift(root, t) when root has height h. */
  function LiftHeight(root: Node, t: nat, h: nat): nat
    requires 1 <= t
  {
    if |root.keys| == 2 * t - 1 then h + 1 else h
  }

  /** Lift keeps a root valid, keeps its keys and leaves room in it. */
  lemma LiftCorrect(root: Node, t: nat, h: nat)
    requires 2 <= t && Shaped(root, t, h, true)
    ensures Shaped(Lift(root, t), t, LiftHeight(root, t, h), true)
    ensures |Lift(root, t).keys| < 2 * t - 1
    ensures Inorder(Lift(root, t)) == Inorder(root)
  {
    if |root.keys| == 2 * t - 1 {
      GrowRootCorrect(root, t, h);
    }
  }

  /** B_Tree.insert on a tree of height h. */
  function Insert(root: Node, key: int, t: nat, h: nat): Node
    requires 1 <= t
  {
    InsertPass(Lift(root, t), key, t, LiftHeight(root, t, h))
  }

  /** After the split, key still fits the gap of the child the pass enters. */
  lemma SplitTargetFits(n: Node, i: nat, key: int)
    requires i < |n.children| && i <= |n.keys| && n.children[i].keys != []
    requires 0 < i ==> n.keys[i - 1] < key
    requires i < |n.keys| ==> key <= n.keys[i]
    ensures var n', j := SplitChild(n, i), SplitTarget(SplitChild(n, i), i, key);
      (0 < j ==> n'.keys[j - 1] <= key) && (j < |n'.keys| ==> key <= n'.keys[j])
  {
    var n' := SplitChild(n, i);
    if 0 < i {
      assert n'.keys[i - 1] == n'.keys[..i][i - 1];
    }
    if i + 1 < |n'.keys| {
      assert n'.keys[i + 1] == n'.keys[i + 1..][0];
    }
  }

  /** Splitting the full child the search leads to leaves a node that
      keeps the invariant and the key sequence, and a child with room that
      key fits below. */
  lemma SplitStep(n: Node, key: int, t: nat, h: nat, isRoot: bool, n': Node, j: nat)
    requires 2 <= t && Shaped(n, t, h, isRoot) && 0 < h && |n.keys| < 2 * t - 1
    requires |n.children[LowerBound(n.keys, key)].keys| == 2 * t - 1
    requires n' == SplitChild(n, LowerBound(n.keys, key))
    requires j == SplitTarget(n', LowerBound(n.keys, key), key)
    ensures Shaped(n', t, h, isRoot) && Internal(n') && Inorder(n') == Inorder(n)
    ensures j < |n'.children| && Shaped(n'.children[j], t, h - 1, false) && |n'.children[j].keys| < 2 * t - 1
    ensures 0 < j ==> n'.keys[j - 1] <= key
    ensures j < |n'.keys| ==> key <= n'.keys[j]
  {
    var i := LowerBound(n.keys, key);
    var c := n.children[i];
    SplitChildShape(n, i, t, h, isRoot);
    SplitChildInorder(n, i, t, h - 1);
    SplitTargetFits(n, i, key);
  }

  /** B_Tree.insert keeps a valid tree valid, adds exactly one occurrence
      of key to its keys, and makes it one level higher exactly when the
      root was full. */
  lemma InsertCorrect(root: Node, key: int, t: nat, h: nat)
    requires ValidSubtree(root, t, h, true)
    ensures ValidSubtree(Insert(root, key, t, h), t, Height(Insert(root, key, t, h)), true)
    ensures multiset(Inorder(Insert(root, key, t, h))) == multiset(Inorder(root)) + multiset{key}
    ensures Height(Insert(root, key, t, h)) == if |root.keys| == 2 * t - 1 then h + 1 else h
  {
    LiftCorrect(root, t, h);
    InsertAtRoot(Lift(root, t), key, t, LiftHeight(root, t, h));
  }

  lemma InsertAtRoot(n: Node, key: int, t: nat, h: nat)
    requires 2 <= t && Shaped(n, t, h, true) && |n.keys| < 2 * t - 1 && Sorted(Inorder(n))
    ensures ValidSubtree(InsertPass(n, key, t, h), t, h, true)
    ensures Height(InsertPass(n, key, t, h)) == h
    ensures multiset(Inorder(InsertPass(n, key, t, h))) == multiset(Inorder(n)) + multiset{key}
  {
    InsertPassCorrect(n, key, t, h, true);
    ShapedHeight(InsertPass(n, key, t, h), t, h, true);
  }

  /** Seen from its key sequence, inserting into a valid tree is inserting
      into a sorted list: key goes in before the first key not below it. */
  lemma InsertInorder(root: Node, key: int, t: nat, h: nat)
    requires ValidSubtree(root, t, h, true)
    ensures Inorder(Insert(root, key, t, h)) == InsertSorted(Inorder(root), key)
  {
    InsertCorrect(root, key, t, h);
    SortedUnique(Inorder(Insert(root, key, t, h)), InsertSorted(Inorder(root), key));
  }
  /** One level of the pass at an internal node n, as the loop of
      B_Tree.insert takes it: n with the child the search leads to split
      when that child is full, and the child the pass goes on into. */
  function InsertRound(n: Node, key: int, t: nat): (f: Frame)
    requires 1 <= t && Internal(n)
    ensures f.index < |f.parent.children|
  {
    var i := LowerBound(n.keys, key);
    if |n.children[i].keys| == 2 * t - 1 then
      var n' := SplitChild(n, i);
      Frame(n', SplitTarget(n', i, key))
    else
      Frame(n, i)
  }

  /** A round keeps the node valid with the same keys, and enters a child
      one level lower that has room for key, that key fits below, and that
      is in order when n is. */
  lemma RoundFits(n: Node, key: int, t: nat, h: nat, isRoot: bool)
    requires 2 <= t && Shaped(n, t, h, isRoot) && |n.keys| < 2 * t - 1 && 0 < h
    ensures var f := InsertRound(n, key, t);
      && Shaped(f.parent, t, h, isRoot) && Inorder(f.parent) == Inorder(n)
      && Shaped(Entered(f), t, h - 1, false) && |Entered(f).keys| < 2 * t - 1
      && (0 < f.index ==> f.parent.keys[f.index - 1] <= key)
      && (f.index < |f.parent.keys| ==> key <= f.parent.keys[f.index])
      && (Sorted(Inorder(n)) ==> Sorted(Inorder(Entered(f))))
  {
    var i := LowerBound(n.keys, key);
    var f := InsertRound(n, key, t);
    if |n.children[i].keys| == 2 * t - 1 {
      SplitStep(n, key, t, h, isRoot, f.parent, f.index);
    } else {
      assert Shaped(n.children[i], t, h - 1, false);
    }
    if Sorted(Inorder(n)) {
      SortedAroundChild(f.parent, f.index);
    }
  }

  /** The pass as the loop of B_Tree.insert runs it, round by round, from
      any node: down to a leaf, where key goes in, and back up through the
      rounds. h bounds the number of rounds. */
  function InsertPass(n: Node, key: int, t: nat, h: nat): Node
    requires 1 <= t
    decreases h, 1
  {
    if h == 0 || !Internal(n) then InsertKey(n, key)
    else PassBelow(InsertRound(n, key, t), key, t, h)
  }

  /** The rest of the pass from the child f enters, put back into f. */
  function PassBelow(f: Frame, key: int, t: nat, h: nat): Node
    requires 1 <= t && 0 < h && f.index < |f.parent.children|
    decreases h, 0
  {
    Replace(f.parent, f.index, InsertPass(Entered(f), key, t, h - 1))
  }

  /** Below a node that is not full the pass keeps the degree invariant at
      the same height and, on a node whose keys are in order, keeps them in
      order and adds exactly one occurrence of key. */
  lemma {:induction false} InsertPassCorrect(n: Node, key: int, t: nat, h: nat, isRoot: bool)
    requires 2 <= t && Shaped(n, t, h, isRoot) && |n.keys| < 2 * t - 1
    ensures Shaped(InsertPass(n, key, t, h), t, h, isRoot)
    ensures Sorted(Inorder(n)) ==>
      (Sorted(Inorder(InsertPass(n, key, t, h))) && multiset(Inorder(InsertPass(n, key, t, h))) == multiset(Inorder(n)) + multiset{key})
    decreases h
  {
    if h == 0 {
      InsertLeaf(n, key, t, isRoot);
    } else {
      var f := InsertRound(n, key, t);
      RoundFits(n, key, t, h, isRoot);
      InsertPassCorrect(Entered(f), key, t, h - 1, false);
      InsertBelow(f.parent, f.index, InsertPass(Entered(f), key, t, h - 1), key, t, h, isRoot);
    }
  }

  /** The loop of B_Tree.insert after one more round: the child it goes
      on into keeps the loop's invariant, and the tree rebuilt from the
      pass at that child is still the whole pass. */
  lemma InsertAdvance(path: seq<Frame>, n: Node, f: Frame, key: int, t: nat, h: nat, isRoot: bool, goal: Node)
    requires 2 <= t && Shaped(n, t, h, isRoot) && |n.keys| < 2 * t - 1 && Sorted(Inorder(n)) && 0 < h
    requires f == InsertRound(n, key, t)
    requires Plug(path, InsertPass(n, key, t, h)) == goal
    ensures f.index < |f.parent.children|
    ensures Shaped(f.parent.children[f.index], t, h - 1, false) && |f.parent.children[f.index].keys| < 2 * t - 1
    ensures Sorted(Inorder(f.parent.children[f.index]))
    ensures Plug(path + [f], InsertPass(f.parent.children[f.index], key, t, h - 1)) == goal
  {
    RoundFits(n, key, t, h, isRoot);
    PlugAppend(path, f, InsertPass(Entered(f), key, t, h - 1));
  }

  /** One round of the loop of B_Tree.insert at an internal node: the
      search for key, the split of the child it leads to when that child
      is full, and the choice of the half key belongs to. */
  method TakeRound(n: Node, key: int, t: nat) returns (parent: Node, index: nat)
    requires 1 <= t && Internal(n) && Sorted(n.keys)
    ensures Frame(parent, index) == InsertRound(n, key, t)
  {
    index := BTreeNode.Search(n, key);
    parent := n;
    if |n.children[index].keys| == 2 * t - 1 {
      parent := SplitChild(n, index);
      if parent.keys[index] < key {
        index := index + 1;
      }
    }
  }

  /** The loop of B_Tree.insert from a root with room for key: round by
      round down to a leaf, where key goes in. The tree it builds is the
      pass. */
  method InsertDown(n: Node, key: int, t: nat, ghost h: nat) returns (r: Node)
    requires 2 <= t && Shaped(n, t, h, true) && |n.keys| < 2 * t - 1 && Sorted(Inorder(n))
    ensures r == InsertPass(n, key, t, h)
  {
    var node := n;
    var path: seq<Frame> := [];
    ghost var g, top := h, true;
    while !node.IsLeaf()
      invariant Shaped(node, t, g, top) && |node.keys| < 2 * t - 1 && Sorted(Inorder(node))
      invariant Plug(path, InsertPass(node, key, t, g)) == InsertPass(n, key, t, h)
      decreases g
    {
      NodeKeysSorted(node);
      var parent, index := TakeRound(node, key, t);
      InsertAdvance(path, node, Frame(parent, index), key, t, g, top, InsertPass(n, key, t, h));
      path := path + [Frame(parent, index)];
      node, g, top := parent.children[index], g - 1, false;
    }
    assert InsertPass(node, key, t, g) == InsertKey(node, key);
    r := Plug(path, InsertKey(node, key));
  }

  /** B_Tree.insert from the root: a full root is first pushed under a new
      root and split, then the loop of InsertDown runs from the root. The
      tree it builds is the one Insert specifies, one level higher exactly
      when the root was full. */
  method InsertTree(root: Node, key: int, t: nat, ghost h: nat) returns (r: Node, ghost h': nat)
    requires 2 <= t && Shaped(root, t, h, true) && Sorted(Inorder(root))
    ensures r == Insert(root, key, t, h) && h' == LiftHeight(root, t, h)
  {
    LiftCorrect(root, t, h);
    var node := root;
    h' := h;
    if |root.keys| == 2 * t - 1 {
      node := SplitChild(Node([], [root]), 0);
      h' := h + 1;
    }
    r := InsertDown(node, key, t, h');
  }
}
