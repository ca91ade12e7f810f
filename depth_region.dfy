/** `DepthRegion` (src/regions/DepthRegion.js): the region of a leaf is the set of nodes whose
    path to the root meets the leaf's own path within the leaf's depth budget. Budgets are
    capped by the region's `DepthMax` and default to it. Nodes and leaves are handles. */
module DepthRegions {
  import opened Utils

  /** The nodes within `d` steps of the start of `ancestors` (the node's path, node first)
      reach `path`. */
  ghost predicate WithinDepth(ancestors: seq<nat>, d: int, path: set<nat>)
  {
    exists k :: 0 <= k < |ancestors| && k < d && ancestors[k] in path
  }

  class DepthRegion {
    /** `DepthMax`, fixed when the class is made by `makeDepthRegion`. */
    const depthMax: int
    /** `depths`: the budget set per leaf. */
    var depths: map<nat, int>

    /** Every stored budget is capped. */
    ghost predicate Valid()
      reads this
    {
      forall leaf :: leaf in depths ==> depths[leaf] <= depthMax
    }

    constructor(depthMax: int)
      ensures this.depthMax == depthMax && depths == map[] && Valid()
    {
      this.depthMax := depthMax;
      depths := map[];
    }

    /** `getDepth(leaf)`: the stored budget, or `DepthMax` for a leaf without one; never above
        `DepthMax`. */
    function GetDepth(leaf: nat): (d: int)
      reads this
      ensures leaf in depths ==> d == depths[leaf]
      ensures leaf !in depths ==> d == depthMax
      ensures Valid() ==> d <= depthMax
    {
      if leaf in depths then depths[leaf] else depthMax
    }

    /** `setDepth(leaf, depth)`: stores the budget capped at `DepthMax`; the other leaves keep
        theirs. */
    method SetDepth(leaf: nat, depth: int)
      requires Valid()
      modifies this
      ensures Valid()
      ensures depths == old(depths)[leaf := Min(depth, depthMax)]
      ensures GetDepth(leaf) <= depth && GetDepth(leaf) <= depthMax
      ensures depth <= depthMax ==> GetDepth(leaf) == depth
    {
      depths := depths[leaf := Min(depth, depthMax)];
    }

    /** `isInRegion(node, leaf, epoch, root, path)`: walks the node's path (`ancestors`, the
        result of `node.getPath(epoch, false)`) for at most the leaf's budget of steps and
        reports whether one of them is on the leaf's path `path`. */
    method IsInRegion(ancestors: seq<nat>, leaf: nat, path: set<nat>) returns (r: bool)
      ensures r <==> WithinDepth(ancestors, GetDepth(leaf), path)
    {
      var d := GetDepth(leaf);
      ghost var budget := d;
      var i := 0;
      while i < |ancestors|
        invariant 0 <= i <= |ancestors|
        invariant d == budget - i || (d <= 0 && budget <= i)
        invariant forall k :: 0 <= k < i && k < budget ==> ancestors[k] !in path
      {
        if d <= 0 {
          break;
        }
        d := d - 1;
        if ancestors[i] in path {
          return true;
        }
        i := i + 1;
      }
      r := false;
    }
  }

  /** A leaf without budget is in no region. */
  lemma {:induction false} NoBudgetNoRegion(ancestors: seq<nat>, d: int, path: set<nat>)
    requires d <= 0
    ensures !WithinDepth(ancestors, d, path)
  {
  }

  /** A larger budget reaches at least the same nodes. */
  lemma {:induction false} WithinDepthMonotone(ancestors: seq<nat>, d: int, d': int, path: set<nat>)
    requires d <= d' && WithinDepth(ancestors, d, path)
    ensures WithinDepth(ancestors, d', path)
  {
  }

  /** A node on the leaf's own path is in the region of every leaf with a positive budget; in
      particular the leaf itself, whose path starts with it. */
  lemma {:induction false} OwnPathInRegion(ancestors: seq<nat>, d: int, path: set<nat>)
    requires d > 0 && |ancestors| > 0 && ancestors[0] in path
    ensures WithinDepth(ancestors, d, path)
  {
  }

  /** A budget of `d` sees exactly the first `d` nodes of the path. */
  lemma {:induction false} WithinDepthPrefix(ancestors: seq<nat>, d: nat, path: set<nat>)
    requires d <= |ancestors|
    ensures WithinDepth(ancestors, d, path) <==> exists a :: a in ancestors[..d] && a in path
  {
    if exists a :: a in ancestors[..d] && a in path {
      var a :| a in ancestors[..d] && a in path;
      var k :| 0 <= k < d && ancestors[..d][k] == a;
      assert ancestors[k] == a;
    }
  }
}
