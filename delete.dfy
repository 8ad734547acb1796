/** B_Tree.delete (b_tree.py) as a recursive specification: the single
    top-down pass that, before it enters a child, makes sure the child has
    a key to spare. A key found in an internal node is overwritten by its
    predecessor or successor, which is then deleted below, or is merged
    down together with the two children around it. DeleteDown runs the
    same pass as the source's loop and is proved equal to DeletePass. */
module BTreeDelete {
  import opened KeySeq
  import opened BTreeNode
  import opened BTreeSurgery
  import opened BTreeDescent
  import opened BTreePath

  /** Where the pass goes on after one round, and the key it goes on to
      delete there. */
  datatype Resume = Resume(next: Grown, key: int)

  /** One round of the pass at an internal node n, as the loop of
      B_Tree.delete takes it. When n holds key at the search position i,
      key is overwritten by its predecessor when the left child has a key
      to spare and the pass goes on to delete that predecessor there, else
      likewise with the successor and the right child, else the two
      children are merged around key; when n does not hold key, child i is
      grown first when it has no key to spare. */
  function DeleteRound(n: Node, key: int, t: nat): (s: Resume)
    requires 1 <= t && Internal(n) && 1 <= |n.keys|
    ensures s.next.Child? ==> s.next.index < |s.next.parent.children|
  {
    var i := LowerBound(n.keys, key);
    if ContainsKeyAt(n, key, i) then
      if |n.children[i].keys| > t - 1 then
        InorderNonEmpty(n.children[i]);
        var p := Last(Inorder(n.children[i]));
        Resume(Child(n.(keys := n.keys[i := p]), i), p)
      else if |n.children[i + 1].keys| > t - 1 then
        InorderNonEmpty(n.children[i + 1]);
        var q := Inorder(n.children[i + 1])[0];
        Resume(Child(n.(keys := n.keys[i := q]), i + 1), q)
      else
        Resume(MergeChildren(n, i), key)
    else if |n.children[i].keys| <= t - 1 then
      Resume(GrowChild(n, i, t - 1), key)
    else
      Resume(Child(n, i), key)
  }

  /** The deletion pass from n, round by round down to a leaf, where the
      key it has come to delete is removed. h bounds the number of rounds.
      An internal node without keys, which the degree invariant rules out,
      ends the pass like a leaf. */
  function DeletePass(n: Node, key: int, t: nat, h: nat): Node
    requires 1 <= t
    decreases h, 1
  {
    if h == 0 || !Internal(n) || n.keys == [] then DeleteKey(n, key)
    else DeleteOn(DeleteRound(n, key, t), t, h)
  }

  /** The rest of the pass where a round leaves it: in the child it
      enters, put back into its parent, or in the merged node that took
      the place of a single-key root. */
  function DeleteOn(s: Resume, t: nat, h: nat): Node
    requires 1 <= t && 0 < h && (s.next.Child? ==> s.next.index < |s.next.parent.children|)
    decreases h, 0
  {
    match s.next
    case Absorbed(m) => DeletePass(m, s.key, t, h - 1)
    case Child(p, j) => Replace(p, j, DeletePass(p.children[j], s.key, t, h - 1))
  }

  /** What the deletion pass promises about its result r below n: the
      degree invariant at the same height, except that a root with a
      single key may give way to the merged child below it; and, on a
      subtree whose keys are in order, keys still in order with exactly one
      occurrence of key removed, when there is one. */
  ghost predicate Deleted(n: Node, r: Node, key: int, t: nat, h: nat, isRoot: bool) {
    && (Shaped(r, t, h, isRoot) || (isRoot && 0 < h && |n.keys| == 1 && Shaped(r, t, h - 1, true)))
    && (Sorted(Inorder(n)) ==>
          (Sorted(Inorder(r)) && multiset(Inorder(r)) == multiset(Inorder(n)) - multiset{key}))
  }

  /** The pass below n, which is the root or holds at least t keys, keeps
      its promise. */
  lemma {:induction false} DeletePassCorrect(n: Node, key: int, t: nat, h: nat, isRoot: bool)
    requires 2 <= t && Shaped(n, t, h, isRoot) && (isRoot || t <= |n.keys|)
    ensures Deleted(n, DeletePass(n, key, t, h), key, t, h, isRoot)
    decreases h, 2
  {
    if h == 0 {
      DeleteLeaf(n, key, t, isRoot);
    } else if ContainsKeyAt(n, key, LowerBound(n.keys, key)) {
      DeleteFoundCorrect(n, key, t, h, isRoot);
    } else {
      DeleteMissingCorrect(n, key, t, h, isRoot);
    }
  }

  /** The pass at an internal node that holds key where the search ends. */
  lemma {:induction false} DeleteFoundCorrect(n: Node, key: int, t: nat, h: nat, isRoot: bool)
    requires 2 <= t && Shaped(n, t, h, isRoot) && (isRoot || t <= |n.keys|) && 0 < h
    requires ContainsKeyAt(n, key, LowerBound(n.keys, key))
    ensures Deleted(n, DeletePass(n, key, t, h), key, t, h, isRoot)
    decreases h, 1
  {
    var i := LowerBound(n.keys, key);
    var s := DeleteRound(n, key, t);
    assert DeletePass(n, key, t, h) == DeleteOn(s, t, h);
    if |n.children[i].keys| > t - 1 {
      var l := n.children[i];
      InorderNonEmpty(l);
      var p := Last(Inorder(l));
      assert s == Resume(Child(n.(keys := n.keys[i := p]), i), p);
      PredecessorCorrect(n, key, t, h, isRoot, i, p);
    } else if |n.children[i + 1].keys| > t - 1 {
      var rt := n.children[i + 1];
      InorderNonEmpty(rt);
      var q := Inorder(rt)[0];
      assert s == Resume(Child(n.(keys := n.keys[i := q]), i + 1), q);
      SuccessorCorrect(n, key, t, h, isRoot, i, q);
    } else {
      MergePrep(n, i, s.next, t, h, isRoot);
      DeleteOnCorrect(n, s, t, h, isRoot);
    }
  }

  /** Key found at i, left child with a key to spare: key is overwritten
      by its predecessor p, which the pass deletes in that child. */
  lemma {:induction false} PredecessorCorrect(n: Node, key: int, t: nat, h: nat, isRoot: bool, i: nat, p: int)
    requires 2 <= t && Shaped(n, t, h, isRoot) && (isRoot || t <= |n.keys|) && 0 < h
    requires i == LowerBound(n.keys, key) && ContainsKeyAt(n, key, i) && |n.children[i].keys| > t - 1
    requires Inorder(n.children[i]) != [] && p == Last(Inorder(n.children[i]))
    ensures Deleted(n, Replace(n.(keys := n.keys[i := p]), i, DeletePass(n.children[i], p, t, h - 1)), key, t, h, isRoot)
    decreases h, 0
  {
    PredecessorPrep(n, i, t, h, isRoot);
    var r := DeletePass(n.children[i], p, t, h - 1);
    DeletePassCorrect(n.children[i], p, t, h - 1, false);
    PredecessorPost(n, i, r, t, h, isRoot);
  }

  /** Key found at i, only the right child with a key to spare: key is
      overwritten by its successor q, which the pass deletes in that child. */
  lemma {:induction false} SuccessorCorrect(n: Node, key: int, t: nat, h: nat, isRoot: bool, i: nat, q: int)
    requires 2 <= t && Shaped(n, t, h, isRoot) && (isRoot || t <= |n.keys|) && 0 < h
    requires i == LowerBound(n.keys, key) && ContainsKeyAt(n, key, i)
    requires |n.children[i].keys| <= t - 1 && |n.children[i + 1].keys| > t - 1
    requires Inorder(n.children[i + 1]) != [] && q == Inorder(n.children[i + 1])[0]
    ensures Deleted(n, Replace(n.(keys := n.keys[i := q]), i + 1, DeletePass(n.children[i + 1], q, t, h - 1)), key, t, h, isRoot)
    decreases h, 0
  {
    SuccessorPrep(n, i, t, h, isRoot);
    var r := DeletePass(n.children[i + 1], q, t, h - 1);
    DeletePassCorrect(n.children[i + 1], q, t, h - 1, false);
    SuccessorPost(n, i, r, t, h, isRoot);
  }

  /** The pass at an internal node that does not hold key where the search
      ends. */
  lemma {:induction false} DeleteMissingCorrect(n: Node, key: int, t: nat, h: nat, isRoot: bool)
    requires 2 <= t && Shaped(n, t, h, isRoot) && (isRoot || t <= |n.keys|) && 0 < h
    requires !ContainsKeyAt(n, key, LowerBound(n.keys, key))
    ensures Deleted(n, DeletePass(n, key, t, h), key, t, h, isRoot)
    decreases h, 1
  {
    var i := LowerBound(n.keys, key);
    var s := DeleteRound(n, key, t);
    assert DeletePass(n, key, t, h) == DeleteOn(s, t, h);
    if |n.children[i].keys| <= t - 1 {
      GrowPrep(n, key, s.next, t, h, isRoot);
      DeleteOnCorrect(n, s, t, h, isRoot);
    } else {
      assert s == Resume(Child(n, i), key);
      DirectCorrect(n, key, t, h, isRoot, i);
    }
  }

  /** The pass goes straight on into a child with a key to spare. */
  lemma {:induction false} DirectCorrect(n: Node, key: int, t: nat, h: nat, isRoot: bool, i: nat)
    requires 2 <= t && Shaped(n, t, h, isRoot) && (isRoot || t <= |n.keys|) && 0 < h
    requires i == LowerBound(n.keys, key) && !ContainsKeyAt(n, key, i) && |n.children[i].keys| > t - 1
    ensures Deleted(n, Replace(n, i, DeletePass(n.children[i], key, t, h - 1)), key, t, h, isRoot)
    decreases h, 0
  {
    DirectPrep(n, key, t, h, isRoot);
    var r := DeletePass(n.children[i], key, t, h - 1);
    DeletePassCorrect(n.children[i], key, t, h - 1, false);
    DeleteBelow(n, i, r, key, t, h, isRoot);
  }

  /** The pass continued after a child was grown or merged: in the child
      where the search goes on, or in the merged node that took the place
      of a single-key root. */
  lemma {:induction false} DeleteOnCorrect(n: Node, s: Resume, t: nat, h: nat, isRoot: bool)
    requires 2 <= t && 0 < h
    requires s.next.Absorbed? ==>
      && isRoot && |n.keys| == 1 && Shaped(s.next.node, t, h - 1, true) && 2 <= |s.next.node.keys|
      && Inorder(s.next.node) == Inorder(n)
    requires s.next.Child? ==>
      && Shaped(s.next.parent, t, h, isRoot) && s.next.index < |s.next.parent.children|
      && Shaped(s.next.parent.children[s.next.index], t, h - 1, false)
      && t <= |s.next.parent.children[s.next.index].keys|
      && Inorder(s.next.parent) == Inorder(n)
      && (Sorted(Inorder(n)) ==> (s.key in Inorder(n) ==> s.key in Inorder(s.next.parent.children[s.next.index])))
    ensures Deleted(n, DeleteOn(s, t, h), s.key, t, h, isRoot)
    decreases h, 0
  {
    match s.next
    case Absorbed(m) =>
      DeletePassCorrect(m, s.key, t, h - 1, true);
    case Child(p, j) =>
      var r := DeletePass(p.children[j], s.key, t, h - 1);
      DeletePassCorrect(p.children[j], s.key, t, h - 1, false);
      DeleteBelow(p, j, r, s.key, t, h, isRoot);
  }

  /** B_Tree.delete keeps a valid tree valid and removes exactly one
      occurrence of key from its keys when there is one; the tree loses a
      level only when its root held a single key. */
  lemma DeleteCorrect(root: Node, key: int, t: nat, h: nat)
    requires ValidSubtree(root, t, h, true)
    ensures var r := DeletePass(root, key, t, h);
      && ValidSubtree(r, t, Height(r), true)
      && multiset(Inorder(r)) == multiset(Inorder(root)) - multiset{key}
      && (Height(r) == h || (Height(r) == h - 1 && 0 < h && |root.keys| == 1))
  {
    DeletePassCorrect(root, key, t, h, true);
    DeletedRoot(root, DeletePass(root, key, t, h), key, t, h);
  }

  /** What Deleted says about a whole tree. */
  lemma DeletedRoot(root: Node, r: Node, key: int, t: nat, h: nat)
    requires ValidSubtree(root, t, h, true) && Deleted(root, r, key, t, h, true)
    ensures ValidSubtree(r, t, Height(r), true)
    ensures multiset(Inorder(r)) == multiset(Inorder(root)) - multiset{key}
    ensures Height(r) == h || (Height(r) == h - 1 && 0 < h && |root.keys| == 1)
  {
    if Shaped(r, t, h, true) {
      ShapedHeight(r, t, h, true);
    } else {
      ShapedHeight(r, t, h - 1, true);
    }
  }

  /** Seen from its key sequence, deleting from a valid tree is deleting
      from a sorted list: one occurrence of key goes, and a key the tree
      does not hold changes nothing. */
  lemma DeleteInorder(root: Node, key: int, t: nat, h: nat)
    requires ValidSubtree(root, t, h, true)
    ensures Inorder(DeletePass(root, key, t, h)) == RemoveSorted(Inorder(root), key)
    ensures key !in Inorder(root) ==> Inorder(DeletePass(root, key, t, h)) == Inorder(root)
  {
    DeleteCorrect(root, key, t, h);
    SortedUnique(Inorder(DeletePass(root, key, t, h)), RemoveSorted(Inorder(root), key));
  }

  /** At a leaf the key is removed from the node's own keys. */
  lemma DeleteLeaf(n: Node, key: int, t: nat, isRoot: bool)
    requires Shaped(n, t, 0, isRoot) && (isRoot || t <= |n.keys|)
    ensures Shaped(DeleteKey(n, key), t, 0, isRoot)
    ensures Sorted(Inorder(n)) ==>
      (Sorted(Inorder(DeleteKey(n, key))) && multiset(Inorder(DeleteKey(n, key))) == multiset(Inorder(n)) - multiset{key})
  {
    assert Inorder(n) == n.keys && Inorder(DeleteKey(n, key)) == DeleteKey(n, key).keys;
  }

  /** Putting back a child from which key was deleted, when every
      occurrence of key in the node lay below that child, keeps the node's
      invariant and order and removes one occurrence of key from it. */
  lemma DeleteBelow(p: Node, j: nat, r: Node, key: int, t: nat, h: nat, isRoot: bool)
    requires Shaped(p, t, h, isRoot) && 0 < h && j < |p.children| && Shaped(r, t, h - 1, false)
    requires Sorted(Inorder(p.children[j])) ==>
      (Sorted(Inorder(r)) && multiset(Inorder(r)) == multiset(Inorder(p.children[j])) - multiset{key})
    requires Sorted(Inorder(p)) ==> (key in Inorder(p) ==> key in Inorder(p.children[j]))
    ensures Shaped(Replace(p, j, r), t, h, isRoot)
    ensures Sorted(Inorder(p)) ==>
      (Sorted(Inorder(Replace(p, j, r))) && multiset(Inorder(Replace(p, j, r))) == multiset(Inorder(p)) - multiset{key})
  {
    ReplaceShape(p, j, r, t, h, isRoot);
    if Sorted(Inorder(p)) {
      SortedAroundChild(p, j);
      DescendDelete(p, j, r, key);
    }
  }

  /** A child with a key to spare that the search for key passes through. */
  lemma DirectPrep(n: Node, key: int, t: nat, h: nat, isRoot: bool)
    requires Shaped(n, t, h, isRoot) && 0 < h
    requires !ContainsKeyAt(n, key, LowerBound(n.keys, key))
    ensures var c := n.children[LowerBound(n.keys, key)];
      Shaped(c, t, h - 1, false) && (Sorted(Inorder(n)) ==> (key in Inorder(n) ==> key in Inorder(c)))
  {
    var i := LowerBound(n.keys, key);
    LowerBoundGap(n, key);
    if Sorted(Inorder(n)) {
      GapLocates(n, i, key);
    }
  }

  /** The left child around key i has a key to spare and a predecessor. */
  lemma PredecessorPrep(n: Node, i: nat, t: nat, h: nat, isRoot: bool)
    requires Shaped(n, t, h, isRoot) && 0 < h && i < |n.keys| && t - 1 < |n.children[i].keys|
    ensures Shaped(n.children[i], t, h - 1, false) && Inorder(n.children[i]) != []
  {
    InorderNonEmpty(n.children[i]);
  }

  /** The right child around key i has a key to spare and a successor. */
  lemma SuccessorPrep(n: Node, i: nat, t: nat, h: nat, isRoot: bool)
    requires Shaped(n, t, h, isRoot) && 0 < h && i < |n.keys| && t - 1 < |n.children[i + 1].keys|
    ensures Shaped(n.children[i + 1], t, h - 1, false) && Inorder(n.children[i + 1]) != []
  {
    InorderNonEmpty(n.children[i + 1]);
  }

  /** Key i overwritten by its predecessor p, and p deleted from the left
      child: the invariant is kept and exactly key i is gone. */
  lemma PredecessorPost(n: Node, i: nat, r: Node, t: nat, h: nat, isRoot: bool)
    requires Shaped(n, t, h, isRoot) && 0 < h && i < |n.keys| && Inorder(n.children[i]) != []
    requires Shaped(r, t, h - 1, false)
    requires var l := Inorder(n.children[i]);
      Sorted(l) ==> (Sorted(Inorder(r)) && multiset(Inorder(r)) == multiset(l) - multiset{Last(l)})
    ensures var n' := Replace(n.(keys := n.keys[i := Last(Inorder(n.children[i]))]), i, r);
      && Shaped(n', t, h, isRoot)
      && (Sorted(Inorder(n)) ==>
            (Sorted(Inorder(n')) && multiset(Inorder(n')) == multiset(Inorder(n)) - multiset{n.keys[i]}))
  {
    var p := Last(Inorder(n.children[i]));
    RekeyShape(n, n.keys[i := p], t, h, isRoot);
    ReplaceShape(n.(keys := n.keys[i := p]), i, r, t, h, isRoot);
    if Sorted(Inorder(n)) {
      SortedAroundChild(n, i);
      PredecessorOrder(n, i, r);
    }
  }

  lemma PredecessorOrder(n: Node, i: nat, r: Node)
    requires Internal(n) && i < |n.keys| && Inorder(n.children[i]) != [] && Sorted(Inorder(n))
    requires var l := Inorder(n.children[i]);
      Sorted(Inorder(r)) && multiset(Inorder(r)) == multiset(l) - multiset{Last(l)}
    ensures var n' := Replace(n.(keys := n.keys[i := Last(Inorder(n.children[i]))]), i, r);
      Sorted(Inorder(n')) && multiset(Inorder(n')) == multiset(Inorder(n)) - multiset{n.keys[i]}
  {
    var b, l, rt, a := BeforeChild(n, i), Inorder(n.children[i]), Inorder(n.children[i + 1]), AfterChild(n, i + 1);
    var l2, k, p := Inorder(r), n.keys[i], Last(Inorder(n.children[i]));
    PredecessorInorder(n, i, r);
    assert b + l + [k] + rt + a == b + l + [k] + (rt + a);
    assert b + l2 + [p] + rt + a == b + l2 + [p] + (rt + a);
    SwapLast(b, l, k, rt + a, l2);
  }

  /** The key sequences around key i before and after it is overwritten by
      the last key p of child i and child i is replaced by r. */
  lemma PredecessorInorder(n: Node, i: nat, r: Node)
    requires Internal(n) && i < |n.keys| && Inorder(n.children[i]) != []
    ensures var p := Last(Inorder(n.children[i]));
      var n' := Replace(n.(keys := n.keys[i := p]), i, r);
      var b, rt, a := BeforeChild(n, i), Inorder(n.children[i + 1]), AfterChild(n, i + 1);
      && Inorder(n) == b + Inorder(n.children[i]) + [n.keys[i]] + rt + a
      && Inorder(n') == b + Inorder(r) + [p] + rt + a
  {
    var p := Last(Inorder(n.children[i]));
    var n' := Replace(n.(keys := n.keys[i := p]), i, r);
    InorderWindow(n, i);
    InorderWindow(n', i);
    assert n'.keys[..i] == n.keys[..i] && n'.children[..i] == n.children[..i];
    BeforeChildSame(n', n, i);
    assert n'.keys[i + 1..] == n.keys[i + 1..] && n'.children[i + 2..] == n.children[i + 2..];
    AfterChildSame(n', i + 1, n, i + 1);
  }

  /** Key i overwritten by its successor q, and q deleted from the right
      child: the invariant is kept and exactly key i is gone. */
  lemma SuccessorPost(n: Node, i: nat, r: Node, t: nat, h: nat, isRoot: bool)
    requires Shaped(n, t, h, isRoot) && 0 < h && i < |n.keys| && Inorder(n.children[i + 1]) != []
    requires Shaped(r, t, h - 1, false)
    requires var rt := Inorder(n.children[i + 1]);
      Sorted(rt) ==> (Sorted(Inorder(r)) && multiset(Inorder(r)) == multiset(rt) - multiset{rt[0]})
    ensures var n' := Replace(n.(keys := n.keys[i := Inorder(n.children[i + 1])[0]]), i + 1, r);
      && Shaped(n', t, h, isRoot)
      && (Sorted(Inorder(n)) ==>
            (Sorted(Inorder(n')) && multiset(Inorder(n')) == multiset(Inorder(n)) - multiset{n.keys[i]}))
  {
    var q := Inorder(n.children[i + 1])[0];
    RekeyShape(n, n.keys[i := q], t, h, isRoot);
    ReplaceShape(n.(keys := n.keys[i := q]), i + 1, r, t, h, isRoot);
    if Sorted(Inorder(n)) {
      SortedAroundChild(n, i + 1);
      SuccessorOrder(n, i, r);
    }
  }

  lemma SuccessorOrder(n: Node, i: nat, r: Node)
    requires Internal(n) && i < |n.keys| && Inorder(n.children[i + 1]) != [] && Sorted(Inorder(n))
    requires var rt := Inorder(n.children[i + 1]);
      Sorted(Inorder(r)) && multiset(Inorder(r)) == multiset(rt) - multiset{rt[0]}
    ensures var n' := Replace(n.(keys := n.keys[i := Inorder(n.children[i + 1])[0]]), i + 1, r);
      Sorted(Inorder(n')) && multiset(Inorder(n')) == multiset(Inorder(n)) - multiset{n.keys[i]}
  {
    var rt := Inorder(n.children[i + 1]);
    var q := rt[0];
    var n1 := n.(keys := n.keys[i := q]);
    var n' := Replace(n1, i + 1, r);
    var b, l, a := BeforeChild(n, i), Inorder(n.children[i]), AfterChild(n, i + 1);
    InorderWindow(n, i);
    InorderWindow(n', i);
    assert n'.keys[..i] == n.keys[..i] && n'.children[..i] == n.children[..i];
    BeforeChildSame(n', n, i);
    assert n'.keys[i + 1..] == n.keys[i + 1..] && n'.children[i + 2..] == n.children[i + 2..];
    AfterChildSame(n', i + 1, n, i + 1);
    SwapFirst(b + l, n.keys[i], rt, a, Inorder(r));
  }

  /** Key i, found in the node, with two children that have no key to
      spare: after the merge the pass continues in the merged child, which
      holds key, or in the merged node that replaced a single-key root. */
  lemma MergePrep(n: Node, i: nat, g: Grown, t: nat, h: nat, isRoot: bool)
    requires 2 <= t && Shaped(n, t, h, isRoot) && 0 < h && (isRoot || t <= |n.keys|) && i < |n.keys|
    requires |n.children[i].keys| <= t - 1 && |n.children[i + 1].keys| <= t - 1
    requires g == MergeChildren(n, i)
    ensures g.Absorbed? ==>
      && isRoot && |n.keys| == 1 && Shaped(g.node, t, h - 1, true) && 2 <= |g.node.keys|
      && Inorder(g.node) == Inorder(n)
    ensures g.Child? ==>
      && Shaped(g.parent, t, h, isRoot) && g.index < |g.parent.children|
      && Shaped(g.parent.children[g.index], t, h - 1, false) && t <= |g.parent.children[g.index].keys|
      && Inorder(g.parent) == Inorder(n) && n.keys[i] in Inorder(g.parent.children[g.index])
  {
    assert Shaped(n.children[i], t, h - 1, false) && Shaped(n.children[i + 1], t, h - 1, false);
    MergeChildrenShape(n, i, t, h, isRoot);
    SiblingsSameKind(n, i, t, h, isRoot);
    MergeChildrenInorder(n, i);
    MergedInorder(n.children[i], n.keys[i], n.children[i + 1]);
  }

  /** A child without a key to spare on the way to key: after growing it
      the pass continues in the grown child, below which every occurrence
      of key lies, or in the merged node that replaced a single-key root. */
  lemma GrowPrep(n: Node, key: int, g: Grown, t: nat, h: nat, isRoot: bool)
    requires 2 <= t && Shaped(n, t, h, isRoot) && 0 < h && (isRoot || t <= |n.keys|)
    requires !ContainsKeyAt(n, key, LowerBound(n.keys, key))
    requires |n.children[LowerBound(n.keys, key)].keys| <= t - 1
    requires g == GrowChild(n, LowerBound(n.keys, key), t - 1)
    ensures g.Absorbed? ==>
      && isRoot && |n.keys| == 1 && Shaped(g.node, t, h - 1, true) && 2 <= |g.node.keys|
      && Inorder(g.node) == Inorder(n)
    ensures g.Child? ==>
      && Shaped(g.parent, t, h, isRoot) && g.index < |g.parent.children|
      && Shaped(g.parent.children[g.index], t, h - 1, false) && t <= |g.parent.children[g.index].keys|
      && Inorder(g.parent) == Inorder(n)
      && (Sorted(Inorder(n)) ==> (key in Inorder(n) ==> key in Inorder(g.parent.children[g.index])))
  {
    var i := LowerBound(n.keys, key);
    assert Shaped(n.children[i], t, h - 1, false);
    GrowChildShape(n, i, t, h, isRoot);
    GrowChildInorder(n, i, t, h, isRoot);
    if g.Child? && Sorted(Inorder(n)) {
      LowerBoundGap(n, key);
      GrowChildBounds(n, i, key, t);
      GapLocates(g.parent, g.index, key);
    }
  }

  /** Growing the child in whose gap key lies leaves key in the gap of the
      child where the pass continues. */
  lemma GrowChildBounds(n: Node, i: nat, key: int, t: nat)
    requires Internal(n) && 1 <= t && i < |n.children| && 1 <= |n.keys|
    requires Sorted(Inorder(n)) && Gap(n, i, key)
    ensures var g := GrowChild(n, i, t - 1);
      g.Child? ==> Gap(g.parent, g.index, key)
  {
    if 0 < i && |n.children[i - 1].keys| > t - 1 {
      ClockwiseBounds(n, i, key);
    } else if i < |n.keys| && |n.children[i + 1].keys| > t - 1 {
      CounterClockwiseBounds(n, i, key);
    } else if 1 < |n.keys| {
      NodeKeysSorted(n);
      if 0 < i {
        MergeLeftBounds(n, i, key);
      } else {
        MergeRightBounds(n, key);
      }
    }
  }

  lemma ClockwiseBounds(n: Node, i: nat, key: int)
    requires Internal(n) && 0 < i < |n.children| && n.children[i - 1].keys != []
    requires Sorted(Inorder(n)) && Gap(n, i, key)
    ensures Gap(TransferKeyClockwise(n, i - 1), i, key)
  {
    var l := n.children[i - 1];
    KeyInInorder(l, |l.keys| - 1);
    SortedAroundChild(n, i - 1);
  }

  lemma CounterClockwiseBounds(n: Node, i: nat, key: int)
    requires Internal(n) && i < |n.keys| && n.children[i + 1].keys != []
    requires Sorted(Inorder(n)) && Gap(n, i, key)
    ensures Gap(TransferKeyCounterClockwise(n, i), i, key)
  {
    var x := n.children[i + 1].keys[0];
    KeyInInorder(n.children[i + 1], 0);
    SortedAroundChild(n, i + 1);
    assert n.keys[i] <= x;
    var r := TransferKeyCounterClockwise(n, i);
    assert r.keys == n.keys[i := x];
  }

  lemma MergeLeftBounds(n: Node, i: nat, key: int)
    requires Internal(n) && 0 < i <= |n.keys| && 1 < |n.keys| && Sorted(n.keys) && Gap(n, i, key)
    ensures MergeChildren(n, i - 1).Child? && Gap(MergeChildren(n, i - 1).parent, i - 1, key)
  {
    var p := MergeChildren(n, i - 1).parent;
    assert p.keys == n.keys[..i - 1] + n.keys[i..];
    if 1 < i {
      assert p.keys[i - 2] == n.keys[i - 2];
    }
    if i - 1 < |p.keys| {
      assert p.keys[i - 1] == n.keys[i];
    }
  }

  lemma MergeRightBounds(n: Node, key: int)
    requires Internal(n) && 1 < |n.keys| && Sorted(n.keys) && Gap(n, 0, key)
    ensures MergeChildren(n, 0).Child? && Gap(MergeChildren(n, 0).parent, 0, key)
  {
    var p := MergeChildren(n, 0).parent;
    assert p.keys == n.keys[1..];
  }
  /** A round of the loop of B_Tree.delete leaves the pass in a node that
      keeps the loop's invariant: the merged node that replaced the root,
      or a child with a key to spare, one level lower, in order. */
  lemma DeleteRoundFits(n: Node, key: int, t: nat, h: nat, isRoot: bool, s: Resume)
    requires 2 <= t && Shaped(n, t, h, isRoot) && (isRoot || t <= |n.keys|) && 0 < h && Sorted(Inorder(n))
    requires s == DeleteRound(n, key, t)
    ensures s.next.Absorbed? ==> isRoot && Shaped(s.next.node, t, h - 1, true) && Sorted(Inorder(s.next.node))
    ensures s.next.Child? ==>
      && Shaped(s.next.parent.children[s.next.index], t, h - 1, false)
      && t <= |s.next.parent.children[s.next.index].keys|
      && Sorted(Inorder(s.next.parent.children[s.next.index]))
  {
    var i := LowerBound(n.keys, key);
    if ContainsKeyAt(n, key, i) {
      if |n.children[i].keys| > t - 1 {
        PredecessorPrep(n, i, t, h, isRoot);
        SortedAroundChild(n, i);
      } else if |n.children[i + 1].keys| > t - 1 {
        SuccessorPrep(n, i, t, h, isRoot);
        SortedAroundChild(n, i + 1);
      } else {
        MergePrep(n, i, s.next, t, h, isRoot);
        if s.next.Child? {
          SortedAroundChild(s.next.parent, s.next.index);
        }
      }
    } else if |n.children[i].keys| <= t - 1 {
      GrowPrep(n, key, s.next, t, h, isRoot);
      if s.next.Child? {
        SortedAroundChild(s.next.parent, s.next.index);
      }
    } else {
      SortedAroundChild(n, i);
    }
  }

  /** One round of the loop of B_Tree.delete at an internal node n: the
      search for key and the restructuring the source does before it goes
      on, with the predecessor or successor found by walking down. */
  method TakeDeleteRound(n: Node, key: int, t: nat, ghost h: nat, ghost isRoot: bool) returns (s: Resume)
    requires 2 <= t && Shaped(n, t, h, isRoot) && (isRoot || t <= |n.keys|) && 0 < h && Sorted(n.keys)
    ensures s == DeleteRound(n, key, t)
  {
    var index := BTreeNode.Search(n, key);
    if ContainsKeyAt(n, key, index) {
      var left, right := n.children[index], n.children[index + 1];
      if |left.keys| > t - 1 {
        var p := DeepPredecessor(n, index, t, h, isRoot);
        s := Resume(Child(n.(keys := n.keys[index := p.value]), index), p.value);
      } else if |right.keys| > t - 1 {
        var q := DeepSuccessor(n, index, t, h, isRoot);
        s := Resume(Child(n.(keys := n.keys[index := q.value]), index + 1), q.value);
      } else {
        s := Resume(MergeChildren(n, index), key);
      }
    } else {
      var child := n.children[index];
      if |child.keys| <= t - 1 {
        s := Resume(GrowChild(n, index, t - 1), key);
      } else {
        s := Resume(Child(n, index), key);
      }
    }
  }

  /** The node where the pass goes on after round s. */
  function Below(s: Resume): Node
    requires s.next.Child? ==> s.next.index < |s.next.parent.children|
  {
    match s.next
    case Absorbed(m) => m
    case Child(p, j) => p.children[j]
  }

  /** The path from the root to Below(s): a merged root takes the old
      root's place, a child adds its parent to the path. */
  function PathBelow(path: seq<Frame>, s: Resume): seq<Frame> {
    match s.next
    case Absorbed(_) => path
    case Child(p, j) => path + [Frame(p, j)]
  }

  /** The loop of B_Tree.delete after one more round: the node where the
      pass goes on keeps the loop's invariant, and the tree rebuilt from
      the pass there is still the whole pass. */
  /** A node the delete loop may enter: it keeps the degree invariant,
      has a key to spare unless it is the root, and its keys are in order. */
  ghost predicate Enterable(n: Node, t: nat, h: nat, isRoot: bool) {
    Shaped(n, t, h, isRoot) && (isRoot || t <= |n.keys|) && Sorted(Inorder(n))
  }

  lemma DeleteAdvance(path: seq<Frame>, n: Node, key: int, t: nat, h: nat, isRoot: bool, s: Resume, goal: Node)
    requires 2 <= t && Shaped(n, t, h, isRoot) && (isRoot || t <= |n.keys|) && 0 < h && Sorted(Inorder(n))
    requires s == DeleteRound(n, key, t) && Plug(path, DeletePass(n, key, t, h)) == goal
    ensures Enterable(Below(s), t, h - 1, s.next.Absorbed?)
    ensures Plug(PathBelow(path, s), DeletePass(Below(s), s.key, t, h - 1)) == goal
  {
    DeleteRoundFits(n, key, t, h, isRoot, s);
    if s.next.Child? {
      PlugAppend(path, Frame(s.next.parent, s.next.index), DeletePass(Below(s), s.key, t, h - 1));
    }
  }

  /** One round of the loop of B_Tree.delete: the pass moves one level
      down, and the tree rebuilt from where it now stands is still the
      whole pass. */
  method DeleteStep(path: seq<Frame>, node: Node, key: int, t: nat, ghost h: nat, ghost isRoot: bool, ghost goal: Node)
    returns (path': seq<Frame>, node': Node, key': int, ghost h': nat, ghost isRoot': bool)
    requires 2 <= t && Enterable(node, t, h, isRoot)
    requires node.children != [] && Plug(path, DeletePass(node, key, t, h)) == goal
    ensures h' < h && Enterable(node', t, h', isRoot')
    ensures Plug(path', DeletePass(node', key', t, h')) == goal
  {
    assert 0 < h && Internal(node) && 1 <= |node.keys|;
    NodeKeysSorted(node);
    var s := TakeDeleteRound(node, key, t, h, isRoot);
    DeleteAdvance(path, node, key, t, h, isRoot, s, goal);
    path', node', key', h', isRoot' := PathBelow(path, s), Below(s), s.key, h - 1, s.next.Absorbed?;
  }

  /** The loop of B_Tree.delete from the root: round by round down to a
      leaf, where the key it has come to delete is removed. The tree it
      builds is the pass. */
  method DeleteDown(root: Node, key: int, t: nat, ghost h: nat) returns (r: Node)
    requires 2 <= t && Shaped(root, t, h, true) && Sorted(Inorder(root))
    ensures r == DeletePass(root, key, t, h)
  {
    var node := root;
    var k := key;
    var path: seq<Frame> := [];
    ghost var g, top := h, true;
    while !node.IsLeaf()
      invariant Enterable(node, t, g, top)
      invariant Plug(path, DeletePass(node, k, t, g)) == DeletePass(root, key, t, h)
      decreases g
    {
      path, node, k, g, top := DeleteStep(path, node, k, t, g, top, DeletePass(root, key, t, h));
    }
    assert DeletePass(node, k, t, g) == DeleteKey(node, k);
    r := Plug(path, DeleteKey(node, k));
  }
}
