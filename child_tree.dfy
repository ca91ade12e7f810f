/** `ChildTree` (src/trees/persistChildTree.js): an immutable node that knows its children and
    computes, once, its height, its size (number of nodes) and its number of leaves from the
    figures its children already hold. */
module ChildTrees {
  import opened Utils

  /** A node with the three figures its constructor stores. */
  datatype ChildTree = ChildTree(children: seq<ChildTree>, height: nat, size: nat, sizeLeaf: nat)

  /** `isLeaf`: a node without children. */
  predicate IsLeaf(t: ChildTree)
  {
    |t.children| == 0
  }

  /** The largest stored height among some nodes (0 for none). */
  function MaxHeight(cs: seq<ChildTree>): (h: nat)
    ensures forall i :: 0 <= i < |cs| ==> cs[i].height <= h
    ensures |cs| > 0 ==> exists i :: 0 <= i < |cs| && cs[i].height == h
    decreases |cs|
  {
    if cs == [] then 0
    else
      var rest := MaxHeight(cs[1..]);
      assert forall i :: 1 <= i < |cs| ==> cs[i] == cs[1..][i - 1];
      if cs[0].height >= rest then cs[0].height else rest
  }

  /** `new ChildTree(children)`: a leaf has height 0, size 1 and one leaf; an inner node is one
      level above its highest child, counts itself and all nodes below, and has the leaves of
      its children. */
  function Make(children: seq<ChildTree>): (t: ChildTree)
    ensures t.children == children
    ensures IsLeaf(t) ==> t.height == 0 && t.size == 1 && t.sizeLeaf == 1
    ensures !IsLeaf(t) ==> forall i :: 0 <= i < |children| ==> children[i].height < t.height
    ensures !IsLeaf(t) ==> exists i :: 0 <= i < |children| && children[i].height + 1 == t.height
  {
    if |children| == 0 then ChildTree([], 0, 1, 1)
    else
      ChildTree(children, MaxHeight(children) + 1, Sum(SizesOf(children), 1), Sum(LeafCountsOf(children)))
  }

  /** `children.map(child => child.size)` */
  function SizesOf(cs: seq<ChildTree>): (r: seq<nat>)
    ensures |r| == |cs| && forall i :: 0 <= i < |cs| ==> r[i] == cs[i].size
  {
    seq(|cs|, (i: nat) requires i < |cs| => cs[i].size)
  }

  /** `children.map(child => child.sizeLeaf)` */
  function LeafCountsOf(cs: seq<ChildTree>): (r: seq<nat>)
    ensures |r| == |cs| && forall i :: 0 <= i < |cs| ==> r[i] == cs[i].sizeLeaf
  {
    seq(|cs|, (i: nat) requires i < |cs| => cs[i].sizeLeaf)
  }

  /** Height of the tree below t, from the structure alone. */
  function TreeHeight(t: ChildTree): nat
    decreases t, 1
  {
    if IsLeaf(t) then 0 else 1 + HeightsMax(t.children)
  }

  function HeightsMax(cs: seq<ChildTree>): nat
    decreases cs, 0
  {
    if cs == [] then 0 else Max(TreeHeight(cs[0]), HeightsMax(cs[1..]))
  }

  /** Number of nodes of the tree below t, from the structure alone. */
  function TreeSize(t: ChildTree): nat
    decreases t, 1
  {
    1 + SizesSum(t.children)
  }

  function SizesSum(cs: seq<ChildTree>): nat
    decreases cs, 0
  {
    if cs == [] then 0 else TreeSize(cs[0]) + SizesSum(cs[1..])
  }

  /** Number of leaves of the tree below t, from the structure alone. */
  function TreeLeafCount(t: ChildTree): nat
    decreases t, 1
  {
    if IsLeaf(t) then 1 else LeafCountsSum(t.children)
  }

  function LeafCountsSum(cs: seq<ChildTree>): nat
    decreases cs, 0
  {
    if cs == [] then 0 else TreeLeafCount(cs[0]) + LeafCountsSum(cs[1..])
  }

  /** A tree built only by `Make`: every node's stored figures are those of its structure. */
  ghost predicate Built(t: ChildTree)
    decreases t
  {
    Exact(t) && forall i :: 0 <= i < |t.children| ==> Built(t.children[i])
  }

  /** The stored figures of t are those of its structure. */
  ghost predicate Exact(t: ChildTree)
  {
    t.height == TreeHeight(t) && t.size == TreeSize(t) && t.sizeLeaf == TreeLeafCount(t)
  }

  /** The constructor keeps the stored figures exact: built from built children, a node is
      built. */
  lemma {:induction false} MakeBuilt(children: seq<ChildTree>)
    requires forall i :: 0 <= i < |children| ==> Built(children[i])
    ensures Built(Make(children))
  {
    MakeExact(children);
  }

  lemma {:induction false} MakeExact(children: seq<ChildTree>)
    requires forall i :: 0 <= i < |children| ==> Exact(children[i])
    ensures Exact(Make(children))
  {
    var t := Make(children);
    if |children| > 0 {
      MaxHeightOfExact(children);
      SumOfSizes(children, SizesOf(children));
      SumOfLeafCounts(children, LeafCountsOf(children));
    }
  }

  lemma {:induction false} MaxHeightOfExact(cs: seq<ChildTree>)
    requires forall i :: 0 <= i < |cs| ==> Exact(cs[i])
    ensures MaxHeight(cs) == HeightsMax(cs)
    decreases |cs|
  {
    if cs != [] {
      assert forall i :: 0 <= i < |cs[1..]| ==> cs[1..][i] == cs[i + 1];
      MaxHeightOfExact(cs[1..]);
    }
  }

  lemma {:induction false} SumOfSizes(cs: seq<ChildTree>, sizes: seq<nat>)
    requires |sizes| == |cs|
    requires forall i :: 0 <= i < |cs| ==> Exact(cs[i]) && sizes[i] == cs[i].size
    ensures Sum(sizes, 1) == SizesSum(cs) + 1
    decreases |cs|
  {
    if cs != [] {
      assert forall i :: 0 <= i < |cs[1..]| ==> cs[1..][i] == cs[i + 1] && sizes[1..][i] == sizes[i + 1];
      SumOfSizes(cs[1..], sizes[1..]);
    }
  }

  lemma {:induction false} SumOfLeafCounts(cs: seq<ChildTree>, leaves: seq<nat>)
    requires |leaves| == |cs|
    requires forall i :: 0 <= i < |cs| ==> Exact(cs[i]) && leaves[i] == cs[i].sizeLeaf
    ensures Sum(leaves) == LeafCountsSum(cs)
    decreases |cs|
  {
    if cs != [] {
      assert forall i :: 0 <= i < |cs[1..]| ==> cs[1..][i] == cs[i + 1] && leaves[1..][i] == leaves[i + 1];
      SumOfLeafCounts(cs[1..], leaves[1..]);
    }
  }

  /** `getLeaves()`: the leaves below t, left to right. */
  function Leaves(t: ChildTree): seq<ChildTree>
    decreases t, 1
  {
    if IsLeaf(t) then [t] else LeavesOf(t.children)
  }

  function LeavesOf(cs: seq<ChildTree>): seq<ChildTree>
    decreases cs, 0
  {
    if cs == [] then [] else Leaves(cs[0]) + LeavesOf(cs[1..])
  }

  /** `getLeaves` yields only leaves, as many as the tree counts; on a built tree that is its
      stored `sizeLeaf`. */
  lemma {:induction false} LeavesAreTheLeaves(t: ChildTree)
    ensures |Leaves(t)| == TreeLeafCount(t)
    ensures forall i :: 0 <= i < |Leaves(t)| ==> IsLeaf(Leaves(t)[i])
    ensures Built(t) ==> |Leaves(t)| == t.sizeLeaf
    decreases t, 1
  {
    if !IsLeaf(t) {
      LeavesOfAreTheLeaves(t.children);
    }
  }

  lemma {:induction false} LeavesOfAreTheLeaves(cs: seq<ChildTree>)
    ensures |LeavesOf(cs)| == LeafCountsSum(cs)
    ensures forall i :: 0 <= i < |LeavesOf(cs)| ==> IsLeaf(LeavesOf(cs)[i])
    decreases cs, 0
  {
    if cs != [] {
      LeavesAreTheLeaves(cs[0]);
      LeavesOfAreTheLeaves(cs[1..]);
      var a, b := Leaves(cs[0]), LeavesOf(cs[1..]);
      assert forall i :: |a| <= i < |a + b| ==> (a + b)[i] == b[i - |a|];
    }
  }

  /** A tree has at least as many nodes as leaves, and more nodes than levels. */
  lemma {:induction false} SizeBounds(t: ChildTree)
    ensures 1 <= TreeLeafCount(t) <= TreeSize(t)
    ensures TreeHeight(t) < TreeSize(t)
    decreases t, 1
  {
    if !IsLeaf(t) {
      SizesBounds(t.children);
    }
  }

  lemma {:induction false} SizesBounds(cs: seq<ChildTree>)
    ensures LeafCountsSum(cs) <= SizesSum(cs)
    ensures HeightsMax(cs) <= SizesSum(cs)
    ensures cs != [] ==> 1 <= LeafCountsSum(cs) && HeightsMax(cs) < SizesSum(cs)
    decreases cs, 0
  {
    if cs != [] {
      SizeBounds(cs[0]);
      SizesBounds(cs[1..]);
    }
  }
}
