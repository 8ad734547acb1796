/** The local restructurings of class Node in b_tree.py: splitting a full
    child around its median key, merging two children around the key
    between them, moving a key from one child through the parent to its
    sibling, and growing a child that holds too few keys. Each keeps the
    subtree's key sequence, and each keeps the degree invariant when it is
    applied where B_Tree.insert and B_Tree.delete apply it. */
module BTreeSurgery {
  import opened KeySeq
  import opened BTreeNode

  /** A child list cut like a Python slice, clamped to its length. */
  function Take(cs: seq<Node>, k: nat): seq<Node> {
    if k <= |cs| then cs[..k] else cs
  }

  function Drop(cs: seq<Node>, k: nat): seq<Node> {
    if k <= |cs| then cs[k..] else []
  }

  /** The median key of a node, at index |keys|/2, and the halves on
      either side of it. */
  function Median(c: Node): int
    requires c.keys != []
  {
    c.keys[|c.keys| / 2]
  }

  function LowerHalf(c: Node): Node
    requires c.keys != []
  {
    Node(c.keys[..|c.keys| / 2], Take(c.children, |c.keys| / 2 + 1))
  }

  function UpperHalf(c: Node): Node
    requires c.keys != []
  {
    Node(c.keys[|c.keys| / 2 + 1..], Drop(c.children, |c.keys| / 2 + 1))
  }

  /** Node.split_child: child i is replaced by its two halves and its
      median key moves up to position i. */
  function SplitChild(n: Node, i: nat): (r: Node)
    requires i < |n.children| && i <= |n.keys| && n.children[i].keys != []
    ensures |r.keys| == |n.keys| + 1 && |r.children| == |n.children| + 1
    ensures r.keys[..i] == n.keys[..i] && r.keys[i + 1..] == n.keys[i..]
    ensures r.keys[i] == Median(n.children[i])
    ensures r.children[i] == LowerHalf(n.children[i]) && r.children[i + 1] == UpperHalf(n.children[i])
    ensures r.children[..i] == n.children[..i] && r.children[i + 2..] == n.children[i + 1..]
  {
    var c := n.children[i];
    Node(n.keys[..i] + [Median(c)] + n.keys[i..], n.children[..i] + [LowerHalf(c), UpperHalf(c)] + n.children[i + 1..])
  }

  /** The halves and the median put back together give the node again:
      its keys, and the children of the halves in order. */
  lemma SplitParts(c: Node)
    requires c.keys != [] && (c.children == [] || Internal(c))
    ensures LowerHalf(c).keys + [Median(c)] + UpperHalf(c).keys == c.keys
    ensures LowerHalf(c).children + UpperHalf(c).children == c.children
  {
    var m := |c.keys| / 2;
    assert c.keys == c.keys[..m] + [c.keys[m]] + c.keys[m + 1..];
    if c.children != [] {
      assert c.children == c.children[..m + 1] + c.children[m + 1..];
    }
  }

  /** A full node of a tree of minimum degree t splits into two nodes of
      t-1 keys each that keep the degree invariant one level down, and its
      key sequence is the lower half's, the median, the upper half's. */
  lemma SplitHalves(c: Node, t: nat, h: nat, isRoot: bool)
    requires 2 <= t && Shaped(c, t, h, isRoot) && |c.keys| == 2 * t - 1
    ensures |LowerHalf(c).keys| == t - 1 && |UpperHalf(c).keys| == t - 1
    ensures Shaped(LowerHalf(c), t, h, false) && Shaped(UpperHalf(c), t, h, false)
    ensures Inorder(c) == Inorder(LowerHalf(c)) + [Median(c)] + Inorder(UpperHalf(c))
  {
    SplitHalvesShape(c, t, h, isRoot);
    SplitHalvesInorder(c, |c.keys| / 2);
  }

  lemma SplitHalvesShape(c: Node, t: nat, h: nat, isRoot: bool)
    requires 2 <= t && Shaped(c, t, h, isRoot) && |c.keys| == 2 * t - 1
    ensures |LowerHalf(c).keys| == t - 1 && |UpperHalf(c).keys| == t - 1
    ensures Shaped(LowerHalf(c), t, h, false) && Shaped(UpperHalf(c), t, h, false)
  {
    var lo, hi := LowerHalf(c), UpperHalf(c);
    if 0 < h {
      assert lo.children == c.children[..t] && hi.children == c.children[t..];
      forall j | 0 <= j < |hi.children|
        ensures Shaped(hi.children[j], t, h - 1, false)
      {
        assert hi.children[j] == c.children[t + j];
      }
    }
  }

  /** The key sequence of a node cut at key m: the lower half's, key m,
      the upper half's. */
  lemma SplitHalvesInorder(c: Node, m: nat)
    requires (c.children == [] || Internal(c)) && m == |c.keys| / 2 && c.keys != []
    ensures Inorder(c) == Inorder(LowerHalf(c)) + [Median(c)] + Inorder(UpperHalf(c))
  {
    var lo, hi := LowerHalf(c), UpperHalf(c);
    if c.children == [] {
      assert c.keys == c.keys[..m] + [c.keys[m]] + c.keys[m + 1..];
    } else {
      var parts := Inorders(c.children);
      assert lo.children == c.children[..m + 1] && hi.children == c.children[m + 1..];
      assert Inorders(lo.children) == parts[..m + 1];
      assert Inorders(hi.children) == parts[m + 1..];
      JoinAt(c.keys, parts, m);
    }
  }

  /** Splitting child i keeps the key sequence of the subtree. */
  lemma SplitChildInorder(n: Node, i: nat, t: nat, h: nat)
    requires 2 <= t && Internal(n) && i < |n.children|
    requires Shaped(n.children[i], t, h, false) && |n.children[i].keys| == 2 * t - 1
    ensures Internal(SplitChild(n, i))
    ensures Inorder(SplitChild(n, i)) == Inorder(n)
  {
    SplitHalves(n.children[i], t, h, false);
    SplitInorder(n, i);
  }

  lemma SplitInorder(n: Node, i: nat)
    requires Internal(n) && i < |n.children| && n.children[i].keys != []
    requires var c := n.children[i]; Inorder(c) == Inorder(LowerHalf(c)) + [Median(c)] + Inorder(UpperHalf(c))
    ensures Internal(SplitChild(n, i))
    ensures Inorder(SplitChild(n, i)) == Inorder(n)
  {
    var c := n.children[i];
    var r := SplitChild(n, i);
    var b, a := BeforeChild(n, i), AfterChild(n, i);
    InorderWindow(r, i);
    BeforeChildSame(r, n, i);
    assert r.children[i + 2..] == n.children[i + 1..];
    AfterChildSame(r, i + 1, n, i);
    InorderAround(n, i);
    ConcatFive(b, Inorder(LowerHalf(c)), [Median(c)], Inorder(UpperHalf(c)), a);
  }

  /** Splitting a full child of a node that is not full keeps the degree
      invariant of the node. */
  lemma SplitChildShape(n: Node, i: nat, t: nat, h: nat, isRoot: bool)
    requires 2 <= t && Shaped(n, t, h, isRoot) && 0 < h && i < |n.children|
    requires |n.keys| < 2 * t - 1 && |n.children[i].keys| == 2 * t - 1
    ensures Shaped(SplitChild(n, i), t, h, isRoot)
  {
    var c := n.children[i];
    SplitHalves(c, t, h - 1, false);
    var r := SplitChild(n, i);
    forall j | 0 <= j < |r.children|
      ensures Shaped(r.children[j], t, h - 1, false)
    {
      if j < i {
        assert r.children[j] == n.children[j];
      } else if i + 1 < j {
        assert r.children[j] == n.children[j - 1];
      }
    }
  }

  /** The first step of B_Tree.insert on a full root: a new keyless root
      above it, whose only child is then split. The tree is one level
      higher, keeps the degree invariant and keeps its key sequence. */
  function GrowRoot(root: Node): (r: Node)
    requires root.keys != []
    ensures |r.keys| == 1 && |r.children| == 2
  {
    SplitChild(Node([], [root]), 0)
  }

  lemma GrowRootCorrect(root: Node, t: nat, h: nat)
    requires 2 <= t && Shaped(root, t, h, true) && |root.keys| == 2 * t - 1
    ensures Shaped(GrowRoot(root), t, h + 1, true)
    ensures Inorder(GrowRoot(root)) == Inorder(root)
  {
    assert Shaped(root, t, h, false);
    var top := Node([], [root]);
    SplitHalves(root, t, h, true);
    SplitChildInorder(top, 0, t, h);
    var r := GrowRoot(root);
    assert r.children[0] == LowerHalf(root) && r.children[1] == UpperHalf(root);
  }

  /** Where the search continues after a child has been grown: at child
      index of parent, or, when the parent gave up its last key, at the
      merged node that took its place. */
  datatype Grown = Child(parent: Node, index: nat) | Absorbed(node: Node)

  /** The node that replaces a grown subtree's root. */
  function Top(g: Grown): Node {
    match g
    case Child(p, _) => p
    case Absorbed(m) => m
  }

  /** A node with the keys and children of l, then k, then those of r. */
  function Merged(l: Node, k: int, r: Node): (m: Node)
    ensures m.keys == l.keys + [k] + r.keys
    ensures SameKind(l, r) ==> m.children == l.children + r.children
  {
    Node(l.keys + [k] + r.keys, if r.children == [] then l.children else l.children + r.children)
  }

  /** Node.merge_children: key i and children i and i+1 become one child;
      when that leaves the node without keys, the merged child takes the
      node's place. */
  function MergeChildren(n: Node, i: nat): (g: Grown)
    requires i < |n.keys| && i + 1 < |n.children|
    ensures g.Absorbed? <==> |n.keys| == 1
    ensures g.Child? ==> g.index == i && |g.parent.keys| == |n.keys| - 1 && |g.parent.children| == |n.children| - 1
    ensures g.Child? ==> g.parent.children[i] == Merged(n.children[i], n.keys[i], n.children[i + 1])
    ensures g.Child? ==> g.parent.keys[..i] == n.keys[..i] && g.parent.keys[i..] == n.keys[i + 1..]
    ensures g.Child? ==> g.parent.children[..i] == n.children[..i] && g.parent.children[i + 1..] == n.children[i + 2..]
    ensures g.Absorbed? ==> g.node == Merged(n.children[i], n.keys[i], n.children[i + 1])
  {
    var m := Merged(n.children[i], n.keys[i], n.children[i + 1]);
    var keys := n.keys[..i] + n.keys[i + 1..];
    if keys == [] then Absorbed(m)
    else Child(Node(keys, n.children[..i] + [m] + n.children[i + 2..]), i)
  }

  /** Two siblings of equal height: both leaves or both internal. */
  predicate SameKind(l: Node, r: Node) {
    (l.children == [] && r.children == []) || (Internal(l) && Internal(r))
  }

  lemma MergedInorder(l: Node, k: int, r: Node)
    requires SameKind(l, r)
    ensures Inorder(Merged(l, k, r)) == Inorder(l) + [k] + Inorder(r)
  {
    if Internal(l) {
      var m := Merged(l, k, r);
      assert Inorders(m.children) == Inorders(l.children) + Inorders(r.children);
      JoinAppend(l.keys, k, r.keys, Inorders(l.children), Inorders(r.children));
    }
  }

  lemma SiblingsSameKind(n: Node, i: nat, t: nat, h: nat, isRoot: bool)
    requires Shaped(n, t, h, isRoot) && 0 < h && i + 1 < |n.children|
    ensures SameKind(n.children[i], n.children[i + 1])
  {
    assert Shaped(n.children[i], t, h - 1, false) && Shaped(n.children[i + 1], t, h - 1, false);
  }

  /** Merging keeps the key sequence of the subtree. */
  lemma MergeChildrenInorder(n: Node, i: nat)
    requires Internal(n) && i < |n.keys| && SameKind(n.children[i], n.children[i + 1])
    ensures Inorder(Top(MergeChildren(n, i))) == Inorder(n)
    ensures MergeChildren(n, i).Child? ==> Internal(MergeChildren(n, i).parent)
  {
    MergedInorder(n.children[i], n.keys[i], n.children[i + 1]);
    MergeInorder(n, i);
  }

  lemma MergeInorder(n: Node, i: nat)
    requires Internal(n) && i < |n.keys|
    requires var m := Merged(n.children[i], n.keys[i], n.children[i + 1]);
      Inorder(m) == Inorder(n.children[i]) + [n.keys[i]] + Inorder(n.children[i + 1])
    ensures Inorder(Top(MergeChildren(n, i))) == Inorder(n)
    ensures MergeChildren(n, i).Child? ==> Internal(MergeChildren(n, i).parent)
  {
    if |n.keys| == 1 {
      MergeAbsorbedInorder(n, i);
    } else {
      MergeKeptInorder(n, i, MergeChildren(n, i).parent);
    }
  }

  lemma MergeAbsorbedInorder(n: Node, i: nat)
    requires Internal(n) && i < |n.keys| && |n.keys| == 1
    requires var m := Merged(n.children[i], n.keys[i], n.children[i + 1]);
      Inorder(m) == Inorder(n.children[i]) + [n.keys[i]] + Inorder(n.children[i + 1])
    ensures Inorder(Top(MergeChildren(n, i))) == Inorder(n)
  {
    InorderWindow(n, i);
    assert BeforeChild(n, i) == [] && AfterChild(n, i + 1) == [];
  }

  lemma MergeKeptInorder(n: Node, i: nat, p: Node)
    requires Internal(n) && i < |n.keys| && 1 < |n.keys| && p == MergeChildren(n, i).parent
    requires Inorder(p.children[i]) == Inorder(n.children[i]) + [n.keys[i]] + Inorder(n.children[i + 1])
    ensures Internal(p) && Inorder(p) == Inorder(n)
  {
    InorderWindow(n, i);
    var b, a := BeforeChild(n, i), AfterChild(n, i + 1);
    InorderAround(p, i);
    BeforeChildSame(p, n, i);
    assert p.keys[i..] == n.keys[i + 1..] && p.children[i + 1..] == n.children[i + 2..];
    AfterChildSame(p, i, n, i + 1);
    ConcatFive(b, Inorder(n.children[i]), [n.keys[i]], Inorder(n.children[i + 1]), a);
  }

  /** Merging two children whose keys fit in one node keeps the degree
      invariant: the node keeps it with one key less, or, when it had only
      that key, the merged child becomes a root one level lower. */
  lemma MergeChildrenShape(n: Node, i: nat, t: nat, h: nat, isRoot: bool)
    requires 2 <= t && Shaped(n, t, h, isRoot) && 0 < h && i < |n.keys|
    requires isRoot || t <= |n.keys|
    requires |n.children[i].keys| + |n.children[i + 1].keys| < 2 * t - 1
    ensures MergeChildren(n, i).Absorbed? ==> isRoot && Shaped(Top(MergeChildren(n, i)), t, h - 1, true)
    ensures MergeChildren(n, i).Child? ==> Shaped(Top(MergeChildren(n, i)), t, h, isRoot)
    ensures |Merged(n.children[i], n.keys[i], n.children[i + 1]).keys| == |n.children[i].keys| + |n.children[i + 1].keys| + 1
  {
    var l, r := n.children[i], n.children[i + 1];
    var m := Merged(l, n.keys[i], r);
    assert Shaped(l, t, h - 1, false) && Shaped(r, t, h - 1, false);
    assert Shaped(m, t, h - 1, false) by {
      if 1 < h {
        forall j | 0 <= j < |m.children|
          ensures Shaped(m.children[j], t, h - 2, false)
        {
          if j >= |l.children| {
            assert m.children[j] == r.children[j - |l.children|];
          }
        }
      }
    }
    match MergeChildren(n, i)
    case Absorbed(_) =>
    case Child(p, _) =>
      forall j | 0 <= j < |p.children|
        ensures Shaped(p.children[j], t, h - 1, false)
      {
        if j < i {
          assert p.children[j] == n.children[j];
        } else if i < j {
          assert p.children[j] == n.children[j + 1];
        }
      }
  }

  /** Child i after giving its last key (and last child) away. */
  function DropLast(l: Node): Node
    requires l.keys != []
  {
    Node(l.keys[..|l.keys| - 1], if l.children != [] then l.children[..|l.children| - 1] else l.children)
  }

  /** Child i+1 after receiving k in front, with the last child of l. */
  function ReceiveFront(l: Node, k: int, r: Node): Node {
    Node([k] + r.keys, if l.children != [] then [l.children[|l.children| - 1]] + r.children else r.children)
  }

  /** Child i after receiving k at its end, with the first child of r. */
  function ReceiveBack(l: Node, k: int, r: Node): Node {
    Node(l.keys + [k], if r.children != [] then l.children + [r.children[0]] else l.children)
  }

  /** Child i+1 after giving its first key (and first child) away. */
  function DropFirst(r: Node): Node
    requires r.keys != []
  {
    Node(r.keys[1..], if r.children != [] then r.children[1..] else r.children)
  }

  /** Node.transfer_key_clockwise: the last key of child i moves up to
      position i and the key there moves down to the front of child i+1,
      together with the last child of child i when it has children. */
  function TransferKeyClockwise(n: Node, i: nat): (r: Node)
    requires i < |n.keys| && i + 1 < |n.children| && n.children[i].keys != []
    ensures r.keys == n.keys[i := Last(n.children[i].keys)] && |r.children| == |n.children|
    ensures |r.children[i].keys| == |n.children[i].keys| - 1
    ensures |r.children[i + 1].keys| == |n.children[i + 1].keys| + 1
  {
    var l, right := n.children[i], n.children[i + 1];
    Node(n.keys[i := Last(l.keys)], n.children[i := DropLast(l)][i + 1 := ReceiveFront(l, n.keys[i], right)])
  }

  /** Node.transfer_key_counter_clockwise: the first key of child i+1 moves
      up to position i and the key there moves down to the end of child i,
      together with the first child of child i+1 when it has children. */
  function TransferKeyCounterClockwise(n: Node, i: nat): (r: Node)
    requires i < |n.keys| && i + 1 < |n.children| && n.children[i + 1].keys != []
    ensures r.keys == n.keys[i := n.children[i + 1].keys[0]] && |r.children| == |n.children|
    ensures |r.children[i].keys| == |n.children[i].keys| + 1
    ensures |r.children[i + 1].keys| == |n.children[i + 1].keys| - 1
  {
    var l, right := n.children[i], n.children[i + 1];
    Node(n.keys[i := right.keys[0]], n.children[i := ReceiveBack(l, n.keys[i], right)][i + 1 := DropFirst(right)])
  }

  /** What the clockwise rotation moves: the old separator goes to the
      front of child i+1, child i loses its last key and, when it has
      children, its last child, which goes to the front of child i+1; no
      other child is touched. */
  lemma TransferClockwiseMoves(n: Node, i: nat)
    requires i < |n.keys| && i + 1 < |n.children| && n.children[i].keys != []
    ensures var r, l, right := TransferKeyClockwise(n, i), n.children[i], n.children[i + 1];
      && r.keys[i] == Last(l.keys)
      && r.children[i].keys == l.keys[..|l.keys| - 1]
      && r.children[i + 1].keys == [n.keys[i]] + right.keys
      && r.children[..i] == n.children[..i] && r.children[i + 2..] == n.children[i + 2..]
      && (l.children != [] ==>
            && r.children[i].children == l.children[..|l.children| - 1]
            && r.children[i + 1].children == [l.children[|l.children| - 1]] + right.children)
      && (l.children == [] ==> r.children[i].children == [] && r.children[i + 1].children == right.children)
  {
  }

  /** What the counter-clockwise rotation moves: the old separator goes to
      the end of child i, child i+1 loses its first key and, when it has
      children, its first child, which goes to the end of child i; no other
      child is touched. */
  lemma TransferCounterClockwiseMoves(n: Node, i: nat)
    requires i < |n.keys| && i + 1 < |n.children| && n.children[i + 1].keys != []
    ensures var r, l, right := TransferKeyCounterClockwise(n, i), n.children[i], n.children[i + 1];
      && r.keys[i] == right.keys[0]
      && r.children[i].keys == l.keys + [n.keys[i]]
      && r.children[i + 1].keys == right.keys[1..]
      && r.children[..i] == n.children[..i] && r.children[i + 2..] == n.children[i + 2..]
      && (right.children != [] ==>
            && r.children[i].children == l.children + [right.children[0]]
            && r.children[i + 1].children == right.children[1..])
      && (right.children == [] ==> r.children[i].children == l.children && r.children[i + 1].children == [])
  {
  }

  /** The window of a node's key sequence around key i: child i, key i,
      child i+1. A rearrangement that keeps the window keeps the whole. */
  lemma WindowKept(n: Node, r: Node, i: nat)
    requires Internal(n) && Internal(r) && |r.keys| == |n.keys| && i < |n.keys|
    requires r.keys[..i] == n.keys[..i] && r.keys[i + 1..] == n.keys[i + 1..]
    requires r.children[..i] == n.children[..i] && r.children[i + 2..] == n.children[i + 2..]
    requires Inorder(r.children[i]) + [r.keys[i]] + Inorder(r.children[i + 1])
          == Inorder(n.children[i]) + [n.keys[i]] + Inorder(n.children[i + 1])
    ensures Inorder(r) == Inorder(n)
  {
    var b, a := BeforeChild(n, i), AfterChild(n, i + 1);
    InorderWindow(n, i);
    InorderWindow(r, i);
    BeforeChildSame(r, n, i);
    AfterChildSame(r, i + 1, n, i + 1);
    ConcatFive(b, Inorder(r.children[i]), [r.keys[i]], Inorder(r.children[i + 1]), a);
    ConcatFive(b, Inorder(n.children[i]), [n.keys[i]], Inorder(n.children[i + 1]), a);
  }

  /** Moving the last key of l through k into r keeps their joint key sequence. */
  lemma ClockwiseLocal(l: Node, k: int, r: Node)
    requires SameKind(l, r) && l.keys != []
    ensures Inorder(DropLast(l)) + [Last(l.keys)] + Inorder(ReceiveFront(l, k, r)) == Inorder(l) + [k] + Inorder(r)
  {
    if l.children == [] {
      assert l.keys == DropLast(l).keys + [Last(l.keys)];
    } else {
      DropLastInorder(l);
      ReceiveFrontInorder(l, k, r);
      ConcatFive(Inorder(DropLast(l)), [Last(l.keys)], Inorder(l.children[|l.keys|]), [k], Inorder(r));
    }
  }

  lemma DropLastInorder(l: Node)
    requires Internal(l) && l.keys != []
    ensures Inorder(l) == Inorder(DropLast(l)) + [Last(l.keys)] + Inorder(l.children[|l.keys|])
  {
    var j := |l.keys| - 1;
    var lp := Inorders(l.children);
    JoinAt(l.keys, lp, j);
    InordersSlice(l.children, 0, j + 1);
    assert l.keys[j + 1..] == [] && lp[j + 1..] == [lp[j + 1]];
  }

  lemma ReceiveFrontInorder(l: Node, k: int, r: Node)
    requires Internal(l) && Internal(r)
    ensures Inorder(ReceiveFront(l, k, r)) == Inorder(l.children[|l.keys|]) + [k] + Inorder(r)
  {
    var r' := ReceiveFront(l, k, r);
    InordersAppend([l.children[|l.keys|]], r.children);
    assert r'.keys[1..] == r.keys;
  }

  /** Moving the first key of r through k into l keeps their joint key sequence. */
  lemma CounterClockwiseLocal(l: Node, k: int, r: Node)
    requires SameKind(l, r) && r.keys != []
    ensures Inorder(ReceiveBack(l, k, r)) + [r.keys[0]] + Inorder(DropFirst(r)) == Inorder(l) + [k] + Inorder(r)
  {
    if r.children == [] {
      assert r.keys == [r.keys[0]] + DropFirst(r).keys;
    } else {
      ReceiveBackInorder(l, k, r);
      DropFirstInorder(r);
      ConcatFive(Inorder(l), [k], Inorder(r.children[0]), [r.keys[0]], Inorder(DropFirst(r)));
    }
  }

  lemma ReceiveBackInorder(l: Node, k: int, r: Node)
    requires Internal(l) && Internal(r)
    ensures Inorder(ReceiveBack(l, k, r)) == Inorder(l) + [k] + Inorder(r.children[0])
  {
    InordersAppend(l.children, [r.children[0]]);
    JoinAppend(l.keys, k, [], Inorders(l.children), [Inorder(r.children[0])]);
    assert l.keys + [k] + [] == l.keys + [k];
    assert Inorders([r.children[0]]) == [Inorder(r.children[0])];
  }

  lemma DropFirstInorder(r: Node)
    requires Internal(r) && r.keys != []
    ensures Inorder(r) == Inorder(r.children[0]) + [r.keys[0]] + Inorder(DropFirst(r))
  {
    InordersSlice(r.children, 1, |r.children|);
    assert r.children[1..|r.children|] == DropFirst(r).children;
    assert Inorders(r.children)[1..|r.children|] == Inorders(r.children)[1..];
  }

  lemma TransferClockwiseInorder(n: Node, i: nat)
    requires Internal(n) && i < |n.keys| && n.children[i].keys != []
    requires SameKind(n.children[i], n.children[i + 1])
    ensures Internal(TransferKeyClockwise(n, i))
    ensures Inorder(TransferKeyClockwise(n, i)) == Inorder(n)
  {
    var r := TransferKeyClockwise(n, i);
    ClockwiseLocal(n.children[i], n.keys[i], n.children[i + 1]);
    assert r.children[..i] == n.children[..i] && r.children[i + 2..] == n.children[i + 2..];
    WindowKept(n, r, i);
  }

  lemma TransferCounterClockwiseInorder(n: Node, i: nat)
    requires Internal(n) && i < |n.keys| && n.children[i + 1].keys != []
    requires SameKind(n.children[i], n.children[i + 1])
    ensures Internal(TransferKeyCounterClockwise(n, i))
    ensures Inorder(TransferKeyCounterClockwise(n, i)) == Inorder(n)
  {
    var r := TransferKeyCounterClockwise(n, i);
    CounterClockwiseLocal(n.children[i], n.keys[i], n.children[i + 1]);
    assert r.children[..i] == n.children[..i] && r.children[i + 2..] == n.children[i + 2..];
    WindowKept(n, r, i);
  }

  /** The giving child keeps the degree invariant while it holds at least t-1 keys. */
  lemma DropLastShape(l: Node, t: nat, h: nat)
    requires Shaped(l, t, h, false) && t <= |l.keys|
    ensures Shaped(DropLast(l), t, h, false)
  {
    var l' := DropLast(l);
    forall j | 0 <= j < |l'.children|
      ensures l'.children[j] == l.children[j]
    {
    }
  }

  lemma DropFirstShape(r: Node, t: nat, h: nat)
    requires Shaped(r, t, h, false) && t <= |r.keys|
    ensures Shaped(DropFirst(r), t, h, false)
  {
    var r' := DropFirst(r);
    forall j | 0 <= j < |r'.children|
      ensures r'.children[j] == r.children[j + 1]
    {
    }
  }

  /** The receiving child keeps the degree invariant while it stays within 2t-1 keys. */
  lemma ReceiveFrontShape(l: Node, k: int, r: Node, t: nat, h: nat)
    requires Shaped(l, t, h, false) && Shaped(r, t, h, false) && l.keys != [] && |r.keys| < 2 * t - 1
    ensures Shaped(ReceiveFront(l, k, r), t, h, false)
  {
    var r' := ReceiveFront(l, k, r);
    forall j | 0 <= j < |r'.children|
      ensures Shaped(r'.children[j], t, h - 1, false)
    {
      if j > 0 {
        assert r'.children[j] == r.children[j - 1];
      }
    }
  }

  lemma ReceiveBackShape(l: Node, k: int, r: Node, t: nat, h: nat)
    requires Shaped(l, t, h, false) && Shaped(r, t, h, false) && r.keys != [] && |l.keys| < 2 * t - 1
    ensures Shaped(ReceiveBack(l, k, r), t, h, false)
  {
    var l' := ReceiveBack(l, k, r);
    forall j | 0 <= j < |l'.children|
      ensures Shaped(l'.children[j], t, h - 1, false)
    {
      if j < |l.children| {
        assert l'.children[j] == l.children[j];
      }
    }
  }

  lemma TransferClockwiseShape(n: Node, i: nat, t: nat, h: nat, isRoot: bool)
    requires 2 <= t && Shaped(n, t, h, isRoot) && 0 < h && i < |n.keys|
    requires t <= |n.children[i].keys| && |n.children[i + 1].keys| < 2 * t - 1
    ensures Shaped(TransferKeyClockwise(n, i), t, h, isRoot)
  {
    var l, right := n.children[i], n.children[i + 1];
    assert Shaped(l, t, h - 1, false) && Shaped(right, t, h - 1, false);
    DropLastShape(l, t, h - 1);
    ReceiveFrontShape(l, n.keys[i], right, t, h - 1);
  }

  lemma TransferCounterClockwiseShape(n: Node, i: nat, t: nat, h: nat, isRoot: bool)
    requires 2 <= t && Shaped(n, t, h, isRoot) && 0 < h && i < |n.keys|
    requires t <= |n.children[i + 1].keys| && |n.children[i].keys| < 2 * t - 1
    ensures Shaped(TransferKeyCounterClockwise(n, i), t, h, isRoot)
  {
    var l, right := n.children[i], n.children[i + 1];
    assert Shaped(l, t, h - 1, false) && Shaped(right, t, h - 1, false);
    DropFirstShape(right, t, h - 1);
    ReceiveBackShape(l, n.keys[i], right, t, h - 1);
  }

  /** Node.grow_child: child i gets a key from its left sibling when that
      has more than minNumKeys keys, else from its right sibling when that
      has, else it is merged with its left sibling, or with its right one
      when it is the first child. */
  function GrowChild(n: Node, i: nat, minNumKeys: nat): (g: Grown)
    requires Internal(n) && i < |n.children| && 1 <= |n.keys|
    ensures g.Child? ==> g.index <= i <= g.index + 1 && g.index < |g.parent.children|
    ensures g.Absorbed? ==> |n.keys| == 1
  {
    if 0 < i && |n.children[i - 1].keys| > minNumKeys then
      Child(TransferKeyClockwise(n, i - 1), i)
    else if i < |n.keys| && |n.children[i + 1].keys| > minNumKeys then
      Child(TransferKeyCounterClockwise(n, i), i)
    else if 0 < i then
      MergeChildren(n, i - 1)
    else
      MergeChildren(n, i)
  }

  /** Growing a child keeps the key sequence of the subtree. */
  lemma GrowChildInorder(n: Node, i: nat, t: nat, h: nat, isRoot: bool)
    requires 2 <= t && Shaped(n, t, h, isRoot) && 0 < h && i < |n.children| && 1 <= |n.keys|
    ensures Inorder(Top(GrowChild(n, i, t - 1))) == Inorder(n)
    ensures GrowChild(n, i, t - 1).Child? ==> Internal(GrowChild(n, i, t - 1).parent)
  {
    if 0 < i {
      SiblingsSameKind(n, i - 1, t, h, isRoot);
    }
    if i < |n.keys| {
      SiblingsSameKind(n, i, t, h, isRoot);
    }
    GrowChildKeeps(n, i, t - 1);
  }

  lemma GrowChildKeeps(n: Node, i: nat, minNumKeys: nat)
    requires Internal(n) && i < |n.children| && 1 <= |n.keys|
    requires 0 < i ==> SameKind(n.children[i - 1], n.children[i])
    requires i < |n.keys| ==> SameKind(n.children[i], n.children[i + 1])
    ensures Inorder(Top(GrowChild(n, i, minNumKeys))) == Inorder(n)
    ensures GrowChild(n, i, minNumKeys).Child? ==> Internal(GrowChild(n, i, minNumKeys).parent)
  {
    var g := GrowChild(n, i, minNumKeys);
    if 0 < i && |n.children[i - 1].keys| > minNumKeys {
      assert g == Child(TransferKeyClockwise(n, i - 1), i);
      TransferClockwiseInorder(n, i - 1);
    } else if i < |n.keys| && |n.children[i + 1].keys| > minNumKeys {
      assert g == Child(TransferKeyCounterClockwise(n, i), i);
      TransferCounterClockwiseInorder(n, i);
    } else if 0 < i {
      assert g == MergeChildren(n, i - 1);
      MergeChildrenInorder(n, i - 1);
    } else {
      assert g == MergeChildren(n, i);
      MergeChildrenInorder(n, i);
    }
  }

  /** Growing a child that holds the minimum t-1 keys, in a node that has
      a key to spare, keeps the degree invariant and leaves the child where
      the descent continues with at least t keys; the node is replaced by
      the merged child only when it is the root with a single key. */
  lemma GrowChildShape(n: Node, i: nat, t: nat, h: nat, isRoot: bool)
    requires 2 <= t && Shaped(n, t, h, isRoot) && 0 < h && i < |n.children| && 1 <= |n.keys|
    requires isRoot || t <= |n.keys|
    requires |n.children[i].keys| == t - 1
    ensures GrowChild(n, i, t - 1).Child? ==>
      var g := GrowChild(n, i, t - 1);
      Shaped(g.parent, t, h, isRoot) && t <= |g.parent.children[g.index].keys|
    ensures GrowChild(n, i, t - 1).Absorbed? ==>
      var m := GrowChild(n, i, t - 1).node;
      isRoot && Shaped(m, t, h - 1, true) && t <= |m.keys|
  {
    if 0 < i && |n.children[i - 1].keys| > t - 1 {
      TransferClockwiseShape(n, i - 1, t, h, isRoot);
    } else if i < |n.keys| && |n.children[i + 1].keys| > t - 1 {
      TransferCounterClockwiseShape(n, i, t, h, isRoot);
    } else if 0 < i {
      assert Shaped(n.children[i - 1], t, h - 1, false);
      GrowMergeShape(n, i - 1, t, h, isRoot);
    } else {
      assert Shaped(n.children[i + 1], t, h - 1, false);
      GrowMergeShape(n, i, t, h, isRoot);
    }
  }

  /** Merging two children of t-1 keys each leaves a child of 2t-1 keys
      where the descent continues. */
  lemma GrowMergeShape(n: Node, j: nat, t: nat, h: nat, isRoot: bool)
    requires 2 <= t && Shaped(n, t, h, isRoot) && 0 < h && j < |n.keys|
    requires isRoot || t <= |n.keys|
    requires |n.children[j].keys| == t - 1 && |n.children[j + 1].keys| == t - 1
    ensures var g := MergeChildren(n, j);
      && (g.Child? ==> Shaped(g.parent, t, h, isRoot) && t <= |g.parent.children[g.index].keys|)
      && (g.Absorbed? ==> isRoot && Shaped(g.node, t, h - 1, true) && t <= |g.node.keys|)
  {
    MergeChildrenShape(n, j, t, h, isRoot);
  }
}
