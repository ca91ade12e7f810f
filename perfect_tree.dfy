/** The persistent `PerfectTree` (src/trees/PerfectTree.js): a `LeftTree` every node of
    which is perfect. A tree of n users is padded on the right with removed leaves up to the
    next power of two; appending to a full tree doubles it. */
module PerfectTrees {
  import opened Utils
  import opened PersistTrees
  import LeftTrees

  /** The constructor's assertion on top of the `LeftTree` invariant: the node is perfect,
      and so, through its children, is every node below it. */
  ghost predicate AllPerfect(t: Node)
  {
    LeftTrees.Good(t) && LeftTrees.IsPerfect(t)
  }

  /** `initPerfect(epoch, h, nRemoved)`: a perfect tree of height h whose last r leaves are
      removed and the others live; the right half takes as many removed leaves as it can.
      The source asserts r = 1 when h = 0 and r > 0, so r can be at most 2^h. */
  function InitPerfect(epoch: nat, h: nat, r: nat): (t: Node)
    requires r <= Pow2(h)
    ensures AllPerfect(t) && Height(t) == h
    ensures Leaves(t) == Repeat(NewLeaf(epoch), Pow2(h) - r) + Repeat(NewRemoved(epoch), r)
    decreases h, 1
  {
    if r == 0 then
      assert Repeat(NewRemoved(epoch), 0) == [];
      LeftTrees.InitPerfect(epoch, h)
    else if h == 0 then
      assert Repeat(NewLeaf(epoch), 0) == [];
      NewRemoved(epoch)
    else
      InitHalves(epoch, h, r)
  }

  /** The last case of `initPerfect`: the left half takes the removed leaves the right half
      cannot hold. */
  function InitHalves(epoch: nat, h: nat, r: nat): (t: Node)
    requires 0 < h && r <= Pow2(h)
    ensures AllPerfect(t) && Height(t) == h
    ensures Leaves(t) == Repeat(NewLeaf(epoch), Pow2(h) - r) + Repeat(NewRemoved(epoch), r)
    decreases h, 0
  {
    var half := Pow2(h - 1);
    var nL, nR := Max(0, r - half), Min(r, half);
    assert nL <= half && nR <= half;
    var l := InitPerfect(epoch, h - 1, nL);
    var rr := InitPerfect(epoch, h - 1, nR);
    JoinedHalves(epoch, h, r, l, rr);
    LeftTrees.Join(epoch, l, rr, Some(0))
  }

  /** Joining the two halves of `initPerfect` gives the promised perfect tree. */
  lemma JoinedHalves(epoch: nat, h: nat, r: nat, l: Node, rr: Node)
    requires 0 < h && r <= Pow2(h)
    requires AllPerfect(l) && Height(l) == h - 1
    requires AllPerfect(rr) && Height(rr) == h - 1
    requires Leaves(l) == Repeat(NewLeaf(epoch), Pow2(h - 1) - Max(0, r - Pow2(h - 1))) +
                          Repeat(NewRemoved(epoch), Max(0, r - Pow2(h - 1)))
    requires Leaves(rr) == Repeat(NewLeaf(epoch), Pow2(h - 1) - Min(r, Pow2(h - 1))) +
                           Repeat(NewRemoved(epoch), Min(r, Pow2(h - 1)))
    ensures var t := LeftTrees.Join(epoch, l, rr, Some(0));
            AllPerfect(t) && Height(t) == h &&
            Leaves(t) == Repeat(NewLeaf(epoch), Pow2(h) - r) + Repeat(NewRemoved(epoch), r)
  {
    HalvesJoin(epoch, Pow2(h - 1), r, Leaves(l), Leaves(rr));
  }

  /** The leaves of the two halves of `initPerfect` line up as live leaves then removed
      ones. */
  lemma {:induction false} HalvesJoin(epoch: nat, half: nat, r: nat, left: seq<Node>, right: seq<Node>)
    requires r <= 2 * half
    requires left == Repeat(NewLeaf(epoch), half - Max(0, r - half)) + Repeat(NewRemoved(epoch), Max(0, r - half))
    requires right == Repeat(NewLeaf(epoch), half - Min(r, half)) + Repeat(NewRemoved(epoch), Min(r, half))
    ensures left + right == Repeat(NewLeaf(epoch), 2 * half - r) + Repeat(NewRemoved(epoch), r)
  {
    var live, dead := NewLeaf(epoch), NewRemoved(epoch);
    if r <= half {
      assert Repeat(dead, 0) == [];
      RepeatAdd(live, half, half - r);
    } else {
      assert Repeat(live, 0) == [];
      RepeatAdd(dead, r - half, half);
    }
  }

  /** `initLeft(epoch, n)`: n live users in a perfect tree of height ceil(log2 n), padded
      with 2^height - n removed leaves. */
  function InitLeft(epoch: nat, n: nat): (t: Node)
    requires n >= 1
    ensures AllPerfect(t) && Height(t) == CeilLog2(n)
    ensures Leaves(t) == Repeat(NewLeaf(epoch), n) + Repeat(NewRemoved(epoch), Pow2(CeilLog2(n)) - n)
  {
    var h := CeilLog2(n);
    InitPerfect(epoch, h, Pow2(h) - n)
  }

  /** `pad(epoch, leaf, h)`: the leaf is raised h times, each time becoming the left child
      of a node whose right child is a perfect tree of removed leaves as high as itself.
      The result is perfect of height h, holds the leaf and then 2^h - 1 removed leaves,
      and its traces lead down to the leaf. */
  method Pad(epoch: nat, leaf: Node, h: nat) returns (node: Node)
    requires IsLeaf(leaf)
    ensures AllPerfect(node) && Height(node) == h
    ensures Leaves(node) == [leaf] + Repeat(NewRemoved(epoch), Pow2(h) - 1)
    ensures FollowTrace(node) == FollowTrace(leaf)
  {
    node := leaf;
    var i, n := 0, 1;
    assert Repeat(NewRemoved(epoch), 0) == [];
    while i < h
      invariant 0 <= i <= h && n == Pow2(i)
      invariant AllPerfect(node) && Height(node) == i
      invariant Leaves(node) == [leaf] + Repeat(NewRemoved(epoch), n - 1)
      invariant FollowTrace(node) == FollowTrace(leaf)
    {
      var nodeRight := InitPerfect(epoch, i, n);
      node := Raise(epoch, leaf, node, nodeRight, i);
      i, n := i + 1, n * 2;
    }
  }

  /** One round of `pad`: the padded node under a new node, a removed tree of its height on
      its right. */
  function Raise(epoch: nat, leaf: Node, node: Node, nodeRight: Node, i: nat): (r: Node)
    requires AllPerfect(node) && Height(node) == i && Leaves(node) == [leaf] + Repeat(NewRemoved(epoch), Pow2(i) - 1)
    requires nodeRight == InitPerfect(epoch, i, Pow2(i))
    ensures AllPerfect(r) && Height(r) == i + 1
    ensures Leaves(r) == [leaf] + Repeat(NewRemoved(epoch), Pow2(i + 1) - 1)
    ensures FollowTrace(r) == FollowTrace(node)
  {
    assert Repeat(NewLeaf(epoch), 0) == [];
    RepeatAdd(NewRemoved(epoch), Pow2(i) - 1, Pow2(i));
    LeftTrees.Join(epoch, node, nodeRight, Some(0))
  }

  /** `append(epoch, leaf)`: a perfect tree becomes the left half of a tree twice its size
      whose right half is the leaf padded to the same height; the new root is traced to
      the right, and the traces lead to the leaf. */
  method Append(epoch: nat, t: Node, leaf: Node) returns (r: Node)
    requires AllPerfect(t) && IsLeaf(leaf) && leaf.trace == None
    ensures AllPerfect(r) && Height(r) == Height(t) + 1 && r.epoch == epoch && r.trace == Some(1)
    ensures Leaves(r) == Leaves(t) + [leaf] + Repeat(NewRemoved(epoch), Pow2(Height(t)) - 1)
    ensures FollowTrace(r) == leaf
  {
    var nodeRight := Pad(epoch, leaf, Height(t));
    r := LeftTrees.Join(epoch, t, nodeRight, Some(1));
  }

  /** `truncate(epoch)`: none of an all-removed tree; the tree itself when it is a leaf or
      its right half holds a live leaf; otherwise the truncated left half. What is cut
      holds removed leaves only, the result stays perfect, and the cutting stops where it
      should: the result holds a live leaf, and so does its right half. */
  function Truncate(epoch: nat, t: Node): (r: Option<Node>)
    requires AllPerfect(t)
    ensures r.None? <==> AllRemoved(t)
    ensures r.Some? ==> AllPerfect(r.value) && Height(r.value) <= Height(t)
    ensures r.Some? ==> exists cut: seq<Node> :: Leaves(t) == Leaves(r.value) + cut && Tombstones(cut)
    ensures r.Some? ==> !AllRemoved(r.value)
    ensures r.Some? && |r.value.children| == 2 ==> !AllRemoved(r.value.children[1])
    decreases t
  {
    assert Leaves(t) == Leaves(t) + [] && Tombstones([]);
    if AllRemoved(t) then None
    else if IsLeaf(t) then Some(t)
    else
      var l, rr := t.children[0], t.children[1];
      Binary(t);
      if !AllRemoved(rr) then
        Some(t)
      else
        var sub := Truncate(epoch, l);
        TombstonesConcat(Leaves(l), Leaves(rr));
        var cut: seq<Node> :| Leaves(l) == Leaves(sub.value) + cut && Tombstones(cut);
        TombstonesConcat(cut, Leaves(rr));
        assert Leaves(t) == Leaves(sub.value) + (cut + Leaves(rr));
        sub
  }

  /** The truncation policies a perfect tree offers ('balance' is not among them). */
  datatype TruncatePolicy = TruncateTail | Keep

  /** `remove(epoch, leaf)` inherited from `LeftTree`: leaf k is tombstoned; 'truncate' then
      truncates, and fails ('attempting to remove the last node') when nothing is left. */
  function Remove(policy: TruncatePolicy, epoch: nat, t: Node, k: nat): (r: Option<Node>)
    requires AllPerfect(t) && k < |Leaves(t)|
    ensures r.None? <==> policy == TruncateTail && forall j :: 0 <= j < |Leaves(t)| && j != k ==> Leaves(t)[j].removed
    ensures r.Some? ==> AllPerfect(r.value)
    ensures r.Some? ==> exists cut: seq<Node> :: Leaves(t)[k := NewRemoved(epoch)] == Leaves(r.value) + cut && Tombstones(cut)
    ensures policy == TruncateTail && r.Some? ==>
              !AllRemoved(r.value) && (|r.value.children| == 2 ==> !AllRemoved(r.value.children[1]))
  {
    var g := LeftTrees.Tombstone(epoch, t, k);
    assert Leaves(g) == Leaves(g) + [];
    match policy
    case Keep => Some(g)
    case TruncateTail =>
      assert AllRemoved(g) <==> forall j :: 0 <= j < |Leaves(t)| && j != k ==> Leaves(t)[j].removed by {
        assert forall j :: 0 <= j < |Leaves(t)| && j != k ==> Leaves(g)[j] == Leaves(t)[j];
        assert Leaves(g)[k].removed;
      }
      Truncate(epoch, g)
  }

  /** `add(epoch, leaf)` inherited from `LeftTree` when it appends: without a removed leaf
      to reuse, the tree doubles. */
  method Add(epoch: nat, t: Node, leaf: Node) returns (r: Node)
    requires AllPerfect(t) && IsLeaf(leaf) && leaf.trace == None && SizeLeafRemoved(t) == 0
    ensures AllPerfect(r) && Leaves(r) == Leaves(t) + [leaf] + Repeat(NewRemoved(epoch), Pow2(Height(t)) - 1)
    ensures FollowTrace(r) == leaf
  {
    r := Append(epoch, t, leaf);
  }
}
