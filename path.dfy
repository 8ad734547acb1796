/** The nodes a top-down pass has walked through. The source edits each
    node it passes in place, so the root sees every change at once; here
    nodes are values, and the pass keeps the path from the root instead
    and rebuilds the tree along it when it reaches the bottom. */
module BTreePath {
  import opened BTreeNode

  /** A node the pass went through and the child it went on into. */
  datatype Frame = Frame(parent: Node, index: nat)

  /** The child the pass went on into. */
  function Entered(f: Frame): Node
    requires f.index < |f.parent.children|
  {
    f.parent.children[f.index]
  }

  /** The tree whose path from the root is path and whose subtree at the
      end of it is x: every node on the path gets the rebuilt subtree
      below it back as its child. */
  function Plug(path: seq<Frame>, x: Node): (r: Node)
    ensures path == [] ==> r == x
    ensures path != [] ==> r.keys == path[0].parent.keys
    decreases |path|
  {
    if path == [] then x
    else Replace(path[0].parent, path[0].index, Plug(path[1..], x))
  }

  /** One more frame at the bottom of the path: the subtree below it is
      put back into it first. */
  lemma {:induction false} PlugAppend(path: seq<Frame>, f: Frame, y: Node)
    requires f.index < |f.parent.children|
    ensures Plug(path + [f], y) == Plug(path, Replace(f.parent, f.index, y))
    decreases |path|
  {
    if path == [] {
      assert [f][1..] == [];
    } else {
      assert (path + [f])[1..] == path[1..] + [f];
      PlugAppend(path[1..], f, y);
    }
  }
}
