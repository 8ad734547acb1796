/** B_Tree (b_tree.py): the tree object. It holds the root node and the two
    degree bounds, answers search, predecessor and successor queries by
    walking down from the root, and inserts and deletes in one top-down
    pass each, replacing its root with the tree the pass builds. Every
    method is proved against the recursive specifications of the other
    modules, and Valid() is the tree invariant the methods keep. */
module BTreeObject {
  import opened KeySeq
  import opened BTreeNode
  import opened BTreeSurgery
  import opened BTreeDescent
  import opened BTreeInsert
  import opened BTreeDelete
  import opened BTreePath
  import opened BTreeQueries
  import opened BTreeTraversal

  class BTree {
    var root: Node
    /** The depth of every leaf; it exists only for the invariant. */
    ghost var height: nat
    const minNumKeys: nat
    const maxNumKeys: nat

    /** The tree invariant for minimum degree minNumKeys + 1: the degree
        bounds, one child more than keys in internal nodes, every leaf at
        the same depth, and keys in order. */
    ghost predicate Valid()
      reads this
    {
      && 1 <= minNumKeys && maxNumKeys == 2 * minNumKeys + 1
      && ValidSubtree(root, minNumKeys + 1, height, true)
    }

    /** The keys the tree stores, in order. */
    function Keys(): seq<int>
      reads this
    {
      Inorder(root)
    }

    /** B_Tree.__init__: an empty tree of minimum degree `degree`. */
    constructor(degree: nat)
      requires degree > 1
      ensures Valid() && Keys() == [] && root == Node([], [])
      ensures minNumKeys == degree - 1 && maxNumKeys == 2 * degree - 1
    {
      root := Node([], []);
      height := 0;
      minNumKeys := degree - 1;
      maxNumKeys := 2 * degree - 1;
    }

    /** B_Tree.search: the node and position of an occurrence of key, found
        exactly when the tree holds key. */
    method Search(key: int) returns (r: Option<(Node, nat)>)
      requires Valid()
      ensures r.Some? <==> key in Keys()
      ensures r.Some? ==> ContainsKeyAt(r.value.0, key, r.value.1)
    {
      r := SearchTree(root, key, minNumKeys + 1, height);
    }

    /** B_Tree.predecessor: the largest key of the tree below key, or None
        when there is none. */
    method Predecessor(key: int) returns (r: Option<int>)
      requires Valid()
      ensures PredecessorOf(Keys(), key, r)
    {
      r := PredecessorTree(root, key, minNumKeys + 1, height);
    }

    /** B_Tree.successor: the smallest key of the tree above key, or None
        when there is none. */
    method Successor(key: int) returns (r: Option<int>)
      requires Valid()
      ensures SuccessorOf(Keys(), key, r)
    {
      r := SuccessorTree(root, key, minNumKeys + 1, height);
    }

    /** B_Tree.insert: a full root is first pushed under a new root and
        split; then the loop of InsertDown walks down, splitting every full
        child before entering it, and the key goes into the leaf it
        reaches. The new
        root is the one Insert specifies, so the tree stays valid, gains
        exactly one occurrence of key, and grows one level exactly when
        the root was full. */
    method Insert(key: int)
      requires Valid()
      modifies this
      ensures Valid()
      ensures root == BTreeInsert.Insert(old(root), key, minNumKeys + 1, old(height))
      ensures Keys() == InsertSorted(old(Keys()), key)
      ensures multiset(Keys()) == multiset(old(Keys())) + multiset{key}
      ensures height == if |old(root).keys| == maxNumKeys then old(height) + 1 else old(height)
    {
      var t := minNumKeys + 1;
      root, height := InsertTree(root, key, t, height);
      InsertCorrect(old(root), key, t, old(height));
      InsertInorder(old(root), key, t, old(height));
    }

    /** B_Tree.delete: the loop of DeleteDown walks down from the root
        and, before it enters a child, makes sure the child has a key to
        spare. A key found in an internal node is overwritten by its
        predecessor or successor, and the pass goes on to delete that key
        instead; when neither child around it has a key to spare, the two
        are merged and the pass goes on in the merged node. At the leaf it
        reaches the key is removed. The new root is the one DeletePass
        specifies, so the tree stays valid and loses exactly one
        occurrence of key when it held one, and nothing otherwise. */
    method Delete(key: int)
      requires Valid()
      modifies this
      ensures Valid()
      ensures root == DeletePass(old(root), key, minNumKeys + 1, old(height))
      ensures Keys() == RemoveSorted(old(Keys()), key)
      ensures multiset(Keys()) == multiset(old(Keys())) - multiset{key}
      ensures key !in old(Keys()) ==> Keys() == old(Keys())
      ensures height == old(height) || (height == old(height) - 1 && |old(root).keys| == 1)
    {
      var t := minNumKeys + 1;
      DeleteCorrect(root, key, t, height);
      DeleteInorder(root, key, t, height);
      root := DeleteDown(root, key, t, height);
      height := Height(root);
    }

    /** B_Tree.inorder: the keys of the tree, each exactly once, in
        non-decreasing order. */
    method InorderKeys() returns (r: seq<int>)
      requires Valid()
      ensures r == Keys()
      ensures Sorted(r)
    {
      ShapedFormed(root, minNumKeys + 1, height, true);
      r := InorderWalk(root);
    }

    /** B_Tree.breadth_first_search: every node once, in the order of the
        stack walk (a node, then its children's subtrees from right to
        left), which is not a level order. */
    method BreadthFirstSearch() returns (r: seq<Node>)
      ensures r == StackOrder(root)
    {
      r := StackWalk(root);
    }

    /** B_Tree.depth_first_search: the stack walk read backwards, which is
        the post-order of the tree, children from left to right. */
    method DepthFirstSearch() returns (r: seq<Node>)
      ensures r == Postorder(root)
    {
      r := ReversedStackWalk(root);
    }
  }
}
