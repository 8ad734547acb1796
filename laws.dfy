/** Properties that relate B_Tree.insert and B_Tree.delete to each other
    and to the shape of the tree. */
module BTreeLaws {
  import opened KeySeq
  import opened BTreeNode
  import opened BTreeSurgery
  import opened BTreeInsert
  import opened BTreeDelete

  /** Deleting a key just inserted gives back the keys the tree held
      before the insertion. */
  lemma InsertDeleteRoundTrip(root: Node, key: int, t: nat, h: nat)
    requires ValidSubtree(root, t, h, true)
    ensures var r := Insert(root, key, t, h);
      Inorder(DeletePass(r, key, t, Height(r))) == Inorder(root)
  {
    var r := Insert(root, key, t, h);
    InsertCorrect(root, key, t, h);
    DeleteCorrect(r, key, t, Height(r));
    AddRemove(Inorder(root), Inorder(r), Inorder(DeletePass(r, key, t, Height(r))), key);
  }

  /** Sorted sequences: adding one key and removing it again gives the
      same sequence back. */
  lemma AddRemove(a: seq<int>, b: seq<int>, c: seq<int>, key: int)
    requires Sorted(a) && Sorted(c)
    requires multiset(b) == multiset(a) + multiset{key}
    requires multiset(c) == multiset(b) - multiset{key}
    ensures c == a
  {
    assert multiset(c) == multiset(a);
    SortedUnique(c, a);
  }

  /** A root with one key over two leaves of one key each, for t = 2. */
  function SmallRoot(): Node {
    Node([10], [Node([5], []), Node([15], [])])
  }

  lemma SmallRootValid()
    ensures ValidSubtree(SmallRoot(), 2, 1, true)
    ensures Inorder(SmallRoot()) == [5, 10, 15]
  {
    var root := SmallRoot();
    assert Shaped(root.children[0], 2, 0, false) && Shaped(root.children[1], 2, 0, false);
    assert Inorders(root.children) == [[5], [15]];
    assert Join([10], [[5], [15]]) == [5, 10, 15];
  }

  /** Looking for 20 in SmallRoot, the pass must enter the right leaf,
      which holds the minimum; it has no sibling with a key to spare, so
      the two leaves are merged and take the root's place. */
  lemma SmallRootRound()
    ensures DeleteRound(SmallRoot(), 20, 2) == Resume(Absorbed(Node([5, 10, 15], [])), 20)
  {
    var root := SmallRoot();
    assert LowerBound(root.keys, 20) == 1;
    assert GrowChild(root, 1, 1) == MergeChildren(root, 0);
    assert Merged(root.children[0], 10, root.children[1]) == Node([5, 10, 15], []);
  }

  /** Deleting a key the tree does not hold keeps its keys, but not always
      its shape: on the way down the pass still grows every minimal child
      it enters, and here that merges the root's two leaves into one. */
  lemma AbsentKeyRestructures()
    ensures ValidSubtree(SmallRoot(), 2, 1, true) && 20 !in Inorder(SmallRoot())
    ensures DeletePass(SmallRoot(), 20, 2, 1) == Node([5, 10, 15], [])
  {
    SmallRootValid();
    SmallRootRound();
    var m := Node([5, 10, 15], []);
    assert DeletePass(m, 20, 2, 0) == DeleteKey(m, 20);
  }
}
