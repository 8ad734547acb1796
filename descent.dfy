/** What B_Tree.insert and B_Tree.delete rely on when they descend from a
    node into one of its children and later put the changed child back:
    the degree invariant of the rebuilt node, and the order and the key
    multiset of its key sequence. */
module BTreeDescent {
  import opened KeySeq
  import opened BTreeNode

  /** Putting back a child that keeps the degree invariant one level down
      keeps the node's degree invariant. */
  lemma ReplaceShape(n: Node, i: nat, c: Node, t: nat, h: nat, isRoot: bool)
    requires Shaped(n, t, h, isRoot) && 0 < h && i < |n.children| && Shaped(c, t, h - 1, false)
    ensures Shaped(Replace(n, i, c), t, h, isRoot)
  {
    var r := Replace(n, i, c);
    forall j | 0 <= j < |r.children|
      ensures Shaped(r.children[j], t, h - 1, false)
    {
      if j != i {
        assert r.children[j] == n.children[j];
      }
    }
  }

  /** Overwriting keys in place does not touch the degree invariant. */
  lemma RekeyShape(n: Node, keys: seq<int>, t: nat, h: nat, isRoot: bool)
    requires Shaped(n, t, h, isRoot) && |keys| == |n.keys|
    ensures Shaped(n.(keys := keys), t, h, isRoot)
  {
    var r := n.(keys := keys);
    if 0 < h {
      assert forall j :: 0 <= j < |r.children| ==> r.children[j] == n.children[j];
    }
  }

  /** key lies strictly between the keys around child j: the search for
      key cannot end before or after that child. */
  predicate Gap(n: Node, j: nat, key: int) {
    && j <= |n.keys|
    && (0 < j ==> n.keys[j - 1] < key)
    && (j < |n.keys| ==> key < n.keys[j])
  }

  /** In a sorted subtree, a key in the gap of child j occurs only below child j. */
  lemma GapLocates(n: Node, j: nat, key: int)
    requires Internal(n) && Sorted(Inorder(n)) && Gap(n, j, key)
    ensures key in Inorder(n) <==> key in Inorder(n.children[j])
  {
    InorderAround(n, j);
    SortedAroundChild(n, j);
  }

  /** The position LowerBound finds for a key the node does not hold at
      that position is the gap of the key. */
  lemma LowerBoundGap(n: Node, key: int)
    requires !ContainsKeyAt(n, key, LowerBound(n.keys, key))
    ensures Gap(n, LowerBound(n.keys, key), key)
  {
  }

  /** Putting back a sorted child that lost one occurrence of key, where
      every occurrence of key in the node lies below that child, keeps the
      node sorted and removes one occurrence of key from it. */
  lemma DescendDelete(n: Node, j: nat, c: Node, key: int)
    requires Internal(n) && j < |n.children| && Sorted(Inorder(n)) && Sorted(Inorder(c))
    requires multiset(Inorder(c)) == multiset(Inorder(n.children[j])) - multiset{key}
    requires key in Inorder(n) ==> key in Inorder(n.children[j])
    ensures Sorted(Inorder(Replace(n, j, c)))
    ensures multiset(Inorder(Replace(n, j, c))) == multiset(Inorder(n)) - multiset{key}
  {
    InSmaller(Inorder(c), Inorder(n.children[j]), key);
    ReplaceSorted(n, j, c);
    ReplaceMultiset(n, j, c);
    CancelRemoved(multiset(Inorder(Replace(n, j, c))), multiset(Inorder(n.children[j])), multiset(Inorder(n)), key);
  }

  /** Putting back a sorted child that gained key, where key fits the gap
      of that child, keeps the node sorted and adds key to it. */
  lemma DescendInsert(n: Node, j: nat, c: Node, key: int)
    requires Internal(n) && j < |n.children| && Sorted(Inorder(n)) && Sorted(Inorder(c))
    requires multiset(Inorder(c)) == multiset(Inorder(n.children[j])) + multiset{key}
    requires 0 < j ==> n.keys[j - 1] <= key
    requires j < |n.keys| ==> key <= n.keys[j]
    ensures Sorted(Inorder(Replace(n, j, c)))
    ensures multiset(Inorder(Replace(n, j, c))) == multiset(Inorder(n)) + multiset{key}
  {
    var oc := Inorder(n.children[j]);
    forall v | v in Inorder(c)
      ensures v == key || v in oc
    {
      assert v in multiset(Inorder(c));
    }
    SortedAroundChild(n, j);
    ReplaceSorted(n, j, c);
    ReplaceMultiset(n, j, c);
    CancelAdded(multiset(Inorder(Replace(n, j, c))), multiset(Inorder(n.children[j])), multiset(Inorder(n)), key);
  }

  /** A sorted child whose keys still lie between the keys around it keeps
      the node sorted. */
  lemma ReplaceSorted(n: Node, j: nat, c: Node)
    requires Internal(n) && j < |n.children| && Sorted(Inorder(n)) && Sorted(Inorder(c))
    requires forall v :: v in Inorder(c) ==> v in Inorder(n.children[j]) || ((0 < j ==> n.keys[j - 1] <= v) && (j < |n.keys| ==> v <= n.keys[j]))
    ensures Sorted(Inorder(Replace(n, j, c)))
  {
    SortedAroundChild(n, j);
    InorderReplace(n, j, c);
    SortedReplace(n.keys, Inorders(n.children), j, Inorder(c));
  }

  /** The key multiset of the node changes exactly as that of the child. */
  lemma ReplaceMultiset(n: Node, j: nat, c: Node)
    requires Internal(n) && j < |n.children|
    ensures multiset(Inorder(Replace(n, j, c))) + multiset(Inorder(n.children[j])) == multiset(Inorder(n)) + multiset(Inorder(c))
  {
    InorderReplace(n, j, c);
    InorderAround(n, j);
  }

  lemma CancelAdded(r: multiset<int>, x: multiset<int>, n: multiset<int>, key: int)
    requires r + x == n + (x + multiset{key})
    ensures r == n + multiset{key}
  {
    forall v
      ensures r[v] == (n + multiset{key})[v]
    {
      assert (r + x)[v] == (n + (x + multiset{key}))[v];
    }
  }

  lemma CancelRemoved(r: multiset<int>, x: multiset<int>, n: multiset<int>, key: int)
    requires r + x == n + (x - multiset{key})
    requires key in n ==> key in x
    ensures r == n - multiset{key}
  {
    forall v
      ensures r[v] == (n - multiset{key})[v]
    {
      assert (r + x)[v] == (n + (x - multiset{key}))[v];
      if v == key && key !in x {
        assert n[v] == 0;
      }
    }
  }
}
