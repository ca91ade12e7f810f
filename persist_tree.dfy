/** The nodes of the persistent trees of src/trees (LeftTree.js, PerfectTree.js, BTree.js,
    LLRBTree.js). A persistent node is never changed once built: an operation builds new
    nodes stamped with the current epoch and returns the new root. A node knows its epoch,
    its children and the child it is traced to (`childTrace`, here its index); a leaf of a
    sparse tree can be a removed leaf (a tombstone). The base classes these trees extend
    (`BinaryTree`, `BinarySparseTree`) are not part of this model: what the trees read of
    them (`height`, `isLeaf`, the leaves, `isAllRemoved`, `sizeLeafRemoved`) is defined
    here, with `height` as persistChildTree.js computes it. */
module PersistTrees {
  import opened Utils

  datatype Node = Node(epoch: nat, children: seq<Node>, trace: Option<nat>, removed: bool)

  /** `new Tree(epoch)`: a live leaf. */
  function NewLeaf(epoch: nat): Node
  {
    Node(epoch, [], None, false)
  }

  /** `newRemoved(epoch)`: a removed leaf. */
  function NewRemoved(epoch: nat): Node
  {
    Node(epoch, [], None, true)
  }

  predicate IsLeaf(t: Node)
  {
    |t.children| == 0
  }

  /** `height`: 0 for a leaf, else one more than the highest child. */
  function Height(t: Node): nat
    decreases t, 1
  {
    if t.children == [] then 0 else 1 + MaxHeight(t.children)
  }

  function MaxHeight(cs: seq<Node>): nat
    decreases cs, 0
  {
    if cs == [] then 0 else Max(Height(cs[0]), MaxHeight(cs[1..]))
  }

  /** The leaves below a node, left to right. */
  function Leaves(t: Node): seq<Node>
    decreases t, 1
  {
    if t.children == [] then [t] else LeavesOf(t.children)
  }

  function LeavesOf(cs: seq<Node>): seq<Node>
    decreases cs, 0
  {
    if cs == [] then [] else Leaves(cs[0]) + LeavesOf(cs[1..])
  }

  /** A binary node's height and leaves come from its two children. */
  lemma {:induction false} Binary(t: Node)
    requires |t.children| == 2
    ensures Height(t) == 1 + Max(Height(t.children[0]), Height(t.children[1]))
    ensures Leaves(t) == Leaves(t.children[0]) + Leaves(t.children[1])
  {
    var cs := t.children;
    var rest := cs[1..];
    assert rest[1..] == [] && rest[0] == cs[1];
    assert MaxHeight(rest) == Max(Height(cs[1]), MaxHeight([]));
    assert LeavesOf(rest) == Leaves(cs[1]) + LeavesOf([]);
  }

  /** The leaf reached by following the traces down from a node: the
      path the last operation changed. */
  function FollowTrace(t: Node): Node
    decreases t
  {
    match t.trace
    case Some(i) => if i < |t.children| then FollowTrace(t.children[i]) else t
    case None => t
  }

  /** Every node of a list is a removed leaf. */
  predicate Tombstones(s: seq<Node>)
  {
    forall i :: 0 <= i < |s| ==> s[i].removed
  }

  /** `isAllRemoved`: every leaf below is removed. */
  predicate AllRemoved(t: Node)
  {
    Tombstones(Leaves(t))
  }

  /** A list is all tombstones exactly when both its parts are. */
  lemma {:induction false} TombstonesConcat(a: seq<Node>, b: seq<Node>)
    ensures Tombstones(a + b) <==> Tombstones(a) && Tombstones(b)
  {
    var s := a + b;
    assert forall i :: 0 <= i < |a| ==> s[i] == a[i];
    assert forall i :: |a| <= i < |s| ==> s[i] == b[i - |a|];
    assert forall i :: 0 <= i < |b| ==> s[|a| + i] == b[i];
  }

  /** The number of removed leaves in a list. */
  function CountRemoved(s: seq<Node>): nat
    decreases |s|
  {
    if s == [] then 0 else (if s[0].removed then 1 else 0) + CountRemoved(s[1..])
  }

  /** `sizeLeafRemoved` */
  function SizeLeafRemoved(t: Node): nat
  {
    CountRemoved(Leaves(t))
  }

  /** n copies of x. */
  function Repeat(x: Node, n: nat): (r: seq<Node>)
    ensures |r| == n && forall i :: 0 <= i < n ==> r[i] == x
  {
    seq(n, _ => x)
  }

  lemma {:induction false} RepeatAdd(x: Node, a: nat, b: nat)
    ensures Repeat(x, a) + Repeat(x, b) == Repeat(x, a + b)
  {
    assert forall i :: 0 <= i < a + b ==> (Repeat(x, a) + Repeat(x, b))[i] == x;
  }
}
