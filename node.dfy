/** The B-Tree node (class Node of b_tree.py) as a value: its keys, its
    children, the in-order key sequence of its subtree, the degree
    invariant, and the node-local queries (binary and linear search,
    predecessor and successor positions, deepest minimum and maximum) and
    the two key edits a leaf receives. */
module BTreeNode {
  import opened KeySeq

  datatype Option<T> = None | Some(value: T)

  /** A node owns its key list and its child list; a leaf has no children,
      an internal node one child more than it has keys. */
  datatype Node = Node(keys: seq<int>, children: seq<Node>) {
    function NumKeys(): nat { |keys| }
    function NumChildren(): nat { |children| }
    predicate IsLeaf() { children == [] }
  }

  /** A node with a child in every gap between (and around) its keys. */
  predicate Internal(n: Node) {
    |n.children| == |n.keys| + 1
  }

  /** The keys of the subtree of n, in order: a leaf contributes its own
      keys, an internal node its keys interleaved with its subtrees. A node
      whose child count does not fit its key count is read as a leaf. */
  function Inorder(n: Node): seq<int>
    decreases n, 1
  {
    if !Internal(n) then n.keys else Join(n.keys, Inorders(n.children))
  }

  /** The in-order sequences of a list of children. */
  function Inorders(cs: seq<Node>): (r: seq<seq<int>>)
    ensures |r| == |cs|
    decreases cs, 0
  {
    seq(|cs|, i requires 0 <= i < |cs| => Inorder(cs[i]))
  }

  lemma InordersAppend(a: seq<Node>, b: seq<Node>)
    ensures Inorders(a + b) == Inorders(a) + Inorders(b)
  {
  }

  lemma InordersSlice(cs: seq<Node>, lo: nat, hi: nat)
    requires lo <= hi <= |cs|
    ensures Inorders(cs[lo..hi]) == Inorders(cs)[lo..hi]
  {
    var a, b := Inorders(cs[lo..hi]), Inorders(cs)[lo..hi];
    forall k | 0 <= k < |a|
      ensures a[k] == b[k]
    {
      assert cs[lo..hi][k] == cs[lo + k];
    }
  }

  lemma InordersUpdate(cs: seq<Node>, i: nat, c: Node)
    requires i < |cs|
    ensures Inorders(cs[i := c]) == Inorders(cs)[i := Inorder(c)]
  {
  }

  /** The keys of n's subtree that come before, respectively after, child i. */
  function BeforeChild(n: Node, i: nat): seq<int>
    requires Internal(n) && i < |n.children|
  {
    Before(n.keys, Inorders(n.children), i)
  }

  function AfterChild(n: Node, i: nat): seq<int>
    requires Internal(n) && i < |n.children|
  {
    After(n.keys, Inorders(n.children), i)
  }

  lemma InorderAround(n: Node, i: nat)
    requires Internal(n) && i < |n.children|
    ensures Inorder(n) == BeforeChild(n, i) + Inorder(n.children[i]) + AfterChild(n, i)
  {
    JoinAround(n.keys, Inorders(n.children), i);
  }

  /** The subtree's key sequence around key i: child i, key i, child i+1. */
  lemma InorderWindow(n: Node, i: nat)
    requires Internal(n) && i < |n.keys|
    ensures Inorder(n) == BeforeChild(n, i) + Inorder(n.children[i]) + [n.keys[i]] + Inorder(n.children[i + 1]) + AfterChild(n, i + 1)
  {
    JoinWindow(n.keys, Inorders(n.children), i);
  }

  /** What comes before child i depends only on the first i keys and children. */
  lemma BeforeChildSame(n: Node, r: Node, i: nat)
    requires Internal(n) && Internal(r) && i < |n.children| && i < |r.children|
    requires n.keys[..i] == r.keys[..i] && n.children[..i] == r.children[..i]
    ensures BeforeChild(n, i) == BeforeChild(r, i)
  {
    InordersSlice(n.children, 0, i);
    InordersSlice(r.children, 0, i);
    BeforeSame(n.keys, Inorders(n.children), r.keys, Inorders(r.children), i);
  }

  /** What comes after child i depends only on the keys from i on and the
      children after i. */
  lemma AfterChildSame(n: Node, i: nat, r: Node, j: nat)
    requires Internal(n) && Internal(r) && i < |n.children| && j < |r.children|
    requires n.keys[i..] == r.keys[j..] && n.children[i + 1..] == r.children[j + 1..]
    ensures AfterChild(n, i) == AfterChild(r, j)
  {
    InordersSlice(n.children, i + 1, |n.children|);
    InordersSlice(r.children, j + 1, |r.children|);
    AfterSame(n.keys, Inorders(n.children), i, r.keys, Inorders(r.children), j);
  }

  /** In a sorted subtree, child i lies between keys[i-1] and keys[i], and
      so does everything before, respectively after, it. */
  lemma SortedAroundChild(n: Node, i: nat)
    requires Internal(n) && i < |n.children| && Sorted(Inorder(n))
    ensures Sorted(Inorder(n.children[i]))
    ensures Sorted(BeforeChild(n, i)) && Sorted(AfterChild(n, i))
    ensures AllLe(BeforeChild(n, i), AfterChild(n, i))
    ensures 0 < i ==> AllAtMost(BeforeChild(n, i), n.keys[i - 1]) && AllAtLeast(Inorder(n.children[i]), n.keys[i - 1])
    ensures i < |n.keys| ==> AllAtLeast(AfterChild(n, i), n.keys[i]) && AllAtMost(Inorder(n.children[i]), n.keys[i])
  {
    SortedAround(n.keys, Inorders(n.children), i);
  }

  /** A node with a key has a non-empty subtree. */
  lemma InorderNonEmpty(n: Node)
    requires n.keys != []
    ensures Inorder(n) != []
  {
    if Internal(n) {
      InorderAround(n, 0);
    }
  }

  /** Every key of a node occurs in its subtree. */
  lemma KeyInInorder(n: Node, j: nat)
    requires j < |n.keys|
    ensures n.keys[j] in Inorder(n)
  {
    if Internal(n) {
        JoinWindow(n.keys, Inorders(n.children), j);
    }
  }

  /** A sorted subtree has sorted node keys. */
  lemma NodeKeysSorted(n: Node)
    requires Sorted(Inorder(n))
    ensures Sorted(n.keys)
  {
    if Internal(n) {
      forall a | 0 <= a < |n.keys| - 1
        ensures n.keys[a] <= n.keys[a + 1]
      {
        SortedAroundChild(n, a + 1);
        assert n.keys[a] in BeforeChild(n, a + 1);
        assert n.keys[a + 1] in AfterChild(n, a + 1);
      }
      SortedAdjacent(n.keys);
    }
  }

  /** n with its child i replaced by c; a node without a child i is left as it is. */
  function Replace(n: Node, i: nat, c: Node): (r: Node)
    ensures r.keys == n.keys && |r.children| == |n.children|
    ensures forall j :: 0 <= j < |n.children| && j != i ==> r.children[j] == n.children[j]
    ensures i < |n.children| ==> r.children[i] == c
  {
    if i < |n.children| then n.(children := n.children[i := c]) else n
  }

  /** Replacing child i changes the subtree's key sequence only in the
      place of that child. */
  lemma InorderReplace(n: Node, i: nat, c: Node)
    requires Internal(n) && i < |n.children|
    ensures Internal(Replace(n, i, c))
    ensures Inorder(Replace(n, i, c)) == BeforeChild(n, i) + Inorder(c) + AfterChild(n, i)
  {
    var r := Replace(n, i, c);
    InordersUpdate(n.children, i, c);
    InorderAround(r, i);
    AroundReplace(n.keys, Inorders(n.children), i, Inorder(c));
  }

  /** Number of edges from n down its leftmost path to a leaf. */
  function Height(n: Node): nat {
    if n.children == [] then 0 else 1 + Height(n.children[0])
  }

  /** The degree invariant of a subtree of height h in a tree of minimum
      degree t: at most 2t-1 keys everywhere, at least t-1 keys below the
      root, at least one key in an internal root, one child more than keys
      in every internal node, and every leaf at depth h. */
  ghost predicate Shaped(n: Node, t: nat, h: nat, isRoot: bool)
    decreases n
  {
    && |n.keys| <= 2 * t - 1
    && (if isRoot then h == 0 || 1 <= |n.keys| else t - 1 <= |n.keys|)
    && (if h == 0 then n.children == []
        else Internal(n) && forall i :: 0 <= i < |n.children| ==> Shaped(n.children[i], t, h - 1, false))
  }

  /** A subtree that keeps the degree invariant and whose keys are in order. */
  ghost predicate ValidSubtree(n: Node, t: nat, h: nat, isRoot: bool) {
    2 <= t && Shaped(n, t, h, isRoot) && Sorted(Inorder(n))
  }

  lemma {:induction false} ShapedHeight(n: Node, t: nat, h: nat, isRoot: bool)
    requires Shaped(n, t, h, isRoot)
    ensures Height(n) == h
    decreases h
  {
    if h > 0 {
      ShapedHeight(n.children[0], t, h - 1, false);
    }
  }

  /** Below an internal node of a valid subtree every child is non-empty
      and child 0 starts the subtree's key sequence. */
  lemma LeftmostChild(n: Node, t: nat, h: nat, isRoot: bool)
    requires 2 <= t && Shaped(n, t, h, isRoot) && n.children != []
    ensures Inorder(n.children[0]) != [] && Inorder(n) != []
    ensures Inorder(n)[0] == Inorder(n.children[0])[0]
  {
    assert Shaped(n.children[0], t, h - 1, false);
    InorderNonEmpty(n.children[0]);
    InorderAround(n, 0);
  }

  /** ... and the last child ends it. */
  lemma RightmostChild(n: Node, t: nat, h: nat, isRoot: bool)
    requires 2 <= t && Shaped(n, t, h, isRoot) && n.children != []
    ensures Inorder(n.children[|n.children| - 1]) != [] && Inorder(n) != []
    ensures Last(Inorder(n)) == Last(Inorder(n.children[|n.children| - 1]))
  {
    var i := |n.children| - 1;
    assert Shaped(n.children[i], t, h - 1, false);
    InorderNonEmpty(n.children[i]);
    InorderAround(n, i);
  }

  function Last(s: seq<int>): int
    requires s != []
  {
    s[|s| - 1]
  }

  /** Node.search: binary search for the leftmost key at least key. Whatever
      the order of the keys, the key before the result is below key and the
      key at the result is at least key; on sorted keys that makes it the
      linear scan's answer. */
  method Search(n: Node, key: int) returns (index: nat)
    ensures index <= |n.keys|
    ensures 0 < index ==> n.keys[index - 1] < key
    ensures index < |n.keys| ==> key <= n.keys[index]
    ensures Sorted(n.keys) ==> index == LowerBound(n.keys, key)
  {
    var left, right := 0, |n.keys|;
    while right > left
      invariant 0 <= left <= right <= |n.keys|
      invariant 0 < left ==> n.keys[left - 1] < key
      invariant right < |n.keys| ==> key <= n.keys[right]
    {
      var mid := (left + right) / 2;
      if n.keys[mid] >= key {
        right := mid;
      } else {
        left := mid + 1;
      }
    }
    index := left;
    if Sorted(n.keys) {
      LowerBoundSorted(n.keys, key, index);
    }
  }

  /** Node.linear_search: the leftmost index whose key is at least key, on
      any key list. */
  method LinearSearch(n: Node, key: int) returns (index: nat)
    ensures index <= |n.keys|
    ensures forall i :: 0 <= i < index ==> n.keys[i] < key
    ensures index < |n.keys| ==> key <= n.keys[index]
    ensures index == LowerBound(n.keys, key)
  {
    index := 0;
    while index < |n.keys| && n.keys[index] < key
      invariant index <= |n.keys|
      invariant forall i :: 0 <= i < index ==> n.keys[i] < key
    {
      index := index + 1;
    }
    LinearScanIsLowerBound(n.keys, key, index);
  }

  lemma LinearScanIsLowerBound(s: seq<int>, key: int, r: nat)
    requires r <= |s| && (forall i :: 0 <= i < r ==> s[i] < key) && (r < |s| ==> key <= s[r])
    ensures r == LowerBound(s, key)
  {
  }

  /** Node.contains_key_at. */
  predicate ContainsKeyAt(n: Node, key: int, index: nat) {
    index < |n.keys| && n.keys[index] == key
  }

  /** At the position search gives, contains_key_at decides membership:
      on sorted keys, the key is there exactly when the node holds it. */
  lemma ContainsKeyAtLowerBound(n: Node, key: int)
    requires Sorted(n.keys)
    ensures ContainsKeyAt(n, key, LowerBound(n.keys, key)) <==> key in n.keys
  {
    LowerBoundSorted(n.keys, key, LowerBound(n.keys, key));
  }

  /** Node.locate_predecessor: the index of the largest key below key, or -1. */
  method LocatePredecessor(n: Node, key: int) returns (index: int)
    ensures -1 <= index < |n.keys|
    ensures 0 <= index ==> n.keys[index] < key
    ensures index + 1 < |n.keys| ==> key <= n.keys[index + 1]
    ensures Sorted(n.keys) ==> index == LowerBound(n.keys, key) - 1
  {
    var position := Search(n, key);
    index := position as int - 1;
  }

  /** Node.predecessor: a key of n below key, or None; on sorted keys the
      largest one, and None exactly when every key is at least key. */
  method Predecessor(n: Node, key: int) returns (r: Option<int>)
    ensures r.Some? ==> r.value in n.keys && r.value < key
    ensures Sorted(n.keys) ==> (r.None? <==> forall i :: 0 <= i < |n.keys| ==> key <= n.keys[i])
    ensures Sorted(n.keys) && r.Some? ==> forall i :: 0 <= i < |n.keys| && n.keys[i] < key ==> n.keys[i] <= r.value
  {
    var index := LocatePredecessor(n, key);
    if Sorted(n.keys) {
      LowerBoundSorted(n.keys, key, index + 1);
    }
    r := if index >= 0 then Some(n.keys[index]) else None;
  }

  /** Node.locate_successor: the leftmost index whose key is above key, or
      |keys|; it never points at a key at most key. */
  method LocateSuccessor(n: Node, key: int) returns (index: nat)
    ensures index <= |n.keys|
    ensures forall i :: 0 <= i < index ==> n.keys[i] <= key
    ensures index < |n.keys| ==> key < n.keys[index]
    ensures index == UpperBound(n.keys, key)
  {
    index := 0;
    while index < |n.keys| && n.keys[index] <= key
      invariant index <= |n.keys|
      invariant forall i :: 0 <= i < index ==> n.keys[i] <= key
    {
      index := index + 1;
    }
    LinearScanIsUpperBound(n.keys, key, index);
  }

  lemma LinearScanIsUpperBound(s: seq<int>, key: int, r: nat)
    requires r <= |s| && (forall i :: 0 <= i < r ==> s[i] <= key) && (r < |s| ==> key < s[r])
    ensures r == UpperBound(s, key)
  {
  }

  /** Node.deep_min: walks the leftmost children down to a leaf and returns
      its first key: the first, and in a sorted subtree the smallest, key of
      the subtree, or None when the subtree is empty. */
  method DeepMin(n: Node, ghost t: nat, ghost h: nat, ghost isRoot: bool) returns (r: Option<int>)
    requires 2 <= t && Shaped(n, t, h, isRoot)
    ensures r.None? <==> Inorder(n) == []
    ensures r.Some? ==> r.value == Inorder(n)[0]
    ensures r.Some? && Sorted(Inorder(n)) ==> AllAtLeast(Inorder(n), r.value)
  {
    var node := n;
    ghost var g, top := h, isRoot;
    while !node.IsLeaf()
      invariant Shaped(node, t, g, top)
      invariant Inorder(node) == [] <==> Inorder(n) == []
      invariant Inorder(node) != [] ==> Inorder(node)[0] == Inorder(n)[0]
      decreases node
    {
      LeftmostChild(node, t, g, top);
      node, g, top := node.children[0], g - 1, false;
    }
    r := if node.keys != [] then Some(node.keys[0]) else None;
    if r.Some? && Sorted(Inorder(n)) {
      SortedFirst(Inorder(n));
    }
  }

  /** Node.deep_max: walks the rightmost children down to a leaf and returns
      its last key: the last, and in a sorted subtree the largest, key of
      the subtree, or None when the subtree is empty. */
  method DeepMax(n: Node, ghost t: nat, ghost h: nat, ghost isRoot: bool) returns (r: Option<int>)
    requires 2 <= t && Shaped(n, t, h, isRoot)
    ensures r.None? <==> Inorder(n) == []
    ensures r.Some? ==> r.value == Last(Inorder(n))
    ensures r.Some? && Sorted(Inorder(n)) ==> AllAtMost(Inorder(n), r.value)
  {
    var node := n;
    ghost var g, top := h, isRoot;
    while !node.IsLeaf()
      invariant Shaped(node, t, g, top)
      invariant Inorder(node) == [] <==> Inorder(n) == []
      invariant Inorder(node) != [] ==> Last(Inorder(node)) == Last(Inorder(n))
      decreases node
    {
      RightmostChild(node, t, g, top);
      node, g, top := node.children[|node.children| - 1], g - 1, false;
    }
    r := if node.keys != [] then Some(node.keys[|node.keys| - 1]) else None;
    if r.Some? && Sorted(Inorder(n)) {
      SortedLast(Inorder(n));
    }
  }

  /** Node.deep_predecessor: the largest key of the subtree left of
      keys[index], which in a sorted subtree is the key just before keys[index]. */
  method DeepPredecessor(n: Node, index: nat, ghost t: nat, ghost h: nat, ghost isRoot: bool) returns (r: Option<int>)
    requires 2 <= t && Shaped(n, t, h, isRoot) && 0 < h && index < |n.children|
    ensures Inorder(n.children[index]) != [] && r.Some? && r.value == Last(Inorder(n.children[index]))
    ensures Sorted(Inorder(n)) ==> AllAtMost(Inorder(n.children[index]), r.value)
    ensures Sorted(Inorder(n)) && index < |n.keys| ==> r.value <= n.keys[index]
  {
    var child := n.children[index];
    assert Shaped(child, t, h - 1, false);
    InorderNonEmpty(child);
    r := DeepMax(child, t, h - 1, false);
    if Sorted(Inorder(n)) {
      SortedAroundChild(n, index);
      assert r.value in Inorder(child);
    }
  }

  /** Node.deep_successor: the smallest key of the subtree right of
      keys[index], which in a sorted subtree is the key just after keys[index]. */
  method DeepSuccessor(n: Node, index: nat, ghost t: nat, ghost h: nat, ghost isRoot: bool) returns (r: Option<int>)
    requires 2 <= t && Shaped(n, t, h, isRoot) && 0 < h && index < |n.keys|
    ensures Inorder(n.children[index + 1]) != [] && r.Some? && r.value == Inorder(n.children[index + 1])[0]
    ensures Sorted(Inorder(n)) ==> AllAtLeast(Inorder(n.children[index + 1]), r.value)
    ensures Sorted(Inorder(n)) ==> n.keys[index] <= r.value
  {
    var child := n.children[index + 1];
    assert Shaped(child, t, h - 1, false);
    InorderNonEmpty(child);
    r := DeepMin(child, t, h - 1, false);
    if Sorted(Inorder(n)) {
      SortedAroundChild(n, index + 1);
      assert r.value in Inorder(child);
    }
  }

  /** Node.insert: puts key at the position search gives, so that sorted
      keys stay sorted and the key multiset gains exactly key. */
  function InsertKey(n: Node, key: int): (r: Node)
    ensures r.children == n.children && |r.keys| == |n.keys| + 1
    ensures multiset(r.keys) == multiset(n.keys) + multiset{key}
    ensures Sorted(n.keys) ==> Sorted(r.keys)
  {
    n.(keys := InsertSorted(n.keys, key))
  }

  /** Node.delete: removes the key at the position search gives when it is
      key. On sorted keys that removes exactly one occurrence of key when
      there is one; a key the node lacks changes nothing. */
  function DeleteKey(n: Node, key: int): (r: Node)
    ensures r.children == n.children && |n.keys| - 1 <= |r.keys| <= |n.keys|
    ensures key !in n.keys ==> r == n
    ensures Sorted(n.keys) ==> Sorted(r.keys)
    ensures Sorted(n.keys) ==> multiset(r.keys) == multiset(n.keys) - multiset{key}
  {
    n.(keys := RemoveSorted(n.keys, key))
  }
}
