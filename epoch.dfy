/** Epochs (src/Epoch.js) on the parent tree with jump pointers (src/trees/persistParentTree.js).
    An epoch is a node of a forest of versions: it knows its parent and its depth and caches,
    per jump j, the ancestor 2^j levels up once it has been asked for it. Epochs are objects
    compared by identity; here they live in one `EpochStore`, are named by their position in
    it, and each field of the source's objects is a column of the store indexed by epoch. */
module Epochs {
  import opened Utils

  /** Number of jump slots of a node at the given depth: the bit length of the depth, so
      none for a root. */
  function Jumps(depth: nat): (n: nat)
    ensures n == 0 <==> depth == 0
  {
    if depth == 0 then 0 else Jumps(depth / 2) + 1
  }

  /** The slot count is the source's `Math.floor(Math.log2(depth)) + 1` for a child. */
  lemma {:induction false} JumpsIsLog(depth: nat)
    requires depth >= 1
    ensures Jumps(depth) == Log2(depth) + 1
  {
    if depth > 1 {
      JumpsIsLog(depth / 2);
    }
  }

  /** Slot j exists exactly when 2^j levels up is still inside the tree. */
  lemma {:induction false} JumpExists(depth: nat, j: nat)
    ensures j < Jumps(depth) <==> Pow2(j) <= depth
  {
    if depth > 0 && j > 0 {
      JumpExists(depth / 2, j - 1);
    }
  }

  /** Every parent was created before its child and sits one level above it; a root is at
      depth 0. */
  ghost predicate Linked(parent: seq<Option<nat>>, depth: seq<nat>)
  {
    && |parent| == |depth|
    && forall e {:trigger parent[e]} :: 0 <= e < |parent| ==>
         match parent[e]
         case None => depth[e] == 0
         case Some(p) => p < e && depth[e] == depth[p] + 1
  }

  /** The ancestor of e at depth d, following parents; e itself at its own depth. */
  ghost function Anc(parent: seq<Option<nat>>, depth: seq<nat>, e: nat, d: nat): (r: nat)
    requires Linked(parent, depth) && e < |parent| && d <= depth[e]
    ensures r <= e && depth[r] == d
    ensures d < depth[e] ==> r < e
    decreases e
  {
    if d == depth[e] then e else Anc(parent, depth, parent[e].value, d)
  }

  /** The ancestor at depth d of the ancestor at depth k >= d is the ancestor at depth d. */
  lemma {:induction false} AncOfAnc(parent: seq<Option<nat>>, depth: seq<nat>, e: nat, k: nat, d: nat)
    requires Linked(parent, depth) && e < |parent| && d <= k <= depth[e]
    ensures Anc(parent, depth, Anc(parent, depth, e, k), d) == Anc(parent, depth, e, d)
    decreases e
  {
    if k < depth[e] {
      AncOfAnc(parent, depth, parent[e].value, k, d);
    }
  }

  /** Creating epochs never changes the ancestry of the existing ones. */
  lemma {:induction false} AncPrefix(parent: seq<Option<nat>>, depth: seq<nat>,
                                     parent': seq<Option<nat>>, depth': seq<nat>, e: nat, d: nat)
    requires Linked(parent, depth) && Linked(parent', depth')
    requires parent <= parent' && depth <= depth'
    requires e < |parent| && d <= depth[e]
    ensures Anc(parent', depth', e, d) == Anc(parent, depth, e, d)
    decreases e
  {
    assert parent'[e] == parent[e] && depth'[e] == depth[e];
    if d < depth[e] {
      AncPrefix(parent, depth, parent', depth', parent[e].value, d);
    }
  }

  /** `lt(a, b)` as a relation: a lies strictly above b in the epoch forest. */
  ghost predicate StrictAncestor(parent: seq<Option<nat>>, depth: seq<nat>, a: nat, b: nat)
    requires Linked(parent, depth) && a < |parent| && b < |parent|
  {
    depth[a] < depth[b] && Anc(parent, depth, b, depth[a]) == a
  }

  /** a is e or one of its ancestors. */
  ghost predicate AncestorOrSelf(parent: seq<Option<nat>>, depth: seq<nat>, a: nat, e: nat)
    requires Linked(parent, depth) && a < |parent| && e < |parent|
  {
    depth[a] <= depth[e] && Anc(parent, depth, e, depth[a]) == a
  }

  /** Strict ancestry is transitive. */
  lemma {:induction false} StrictAncestorTransitive(parent: seq<Option<nat>>, depth: seq<nat>, a: nat, b: nat, c: nat)
    requires Linked(parent, depth) && a < |parent| && b < |parent| && c < |parent|
    requires StrictAncestor(parent, depth, a, b) && StrictAncestor(parent, depth, b, c)
    ensures StrictAncestor(parent, depth, a, c)
  {
    AncOfAnc(parent, depth, c, depth[b], depth[a]);
  }

  /** Strict ancestry is irreflexive and asymmetric, and an ancestor was created first. */
  lemma {:induction false} StrictAncestorAsymmetric(parent: seq<Option<nat>>, depth: seq<nat>, a: nat, b: nat)
    requires Linked(parent, depth) && a < |parent| && b < |parent|
    ensures !StrictAncestor(parent, depth, a, a)
    ensures StrictAncestor(parent, depth, a, b) ==> !StrictAncestor(parent, depth, b, a) && a < b
  {
  }

  /** Epochs form a forest: two ancestors-or-self of one epoch are always comparable, so
      epochs that diverged never meet again below. */
  lemma {:induction false} AncestorsComparable(parent: seq<Option<nat>>, depth: seq<nat>, a: nat, b: nat, c: nat)
    requires Linked(parent, depth) && a < |parent| && b < |parent| && c < |parent|
    requires a == c || StrictAncestor(parent, depth, a, c)
    requires b == c || StrictAncestor(parent, depth, b, c)
    ensures a == b || StrictAncestor(parent, depth, a, b) || StrictAncestor(parent, depth, b, a)
  {
    if a != b && a != c && b != c {
      if depth[a] < depth[b] {
        AncOfAnc(parent, depth, c, depth[b], depth[a]);
      } else if depth[b] < depth[a] {
        AncOfAnc(parent, depth, c, depth[a], depth[b]);
      }
    }
  }

  /** Two distinct epochs at the same depth (forks) are incomparable and have no common
      descendant. */
  lemma {:induction false} ForksIncomparable(parent: seq<Option<nat>>, depth: seq<nat>, a: nat, b: nat, c: nat)
    requires Linked(parent, depth) && a < |parent| && b < |parent| && c < |parent|
    requires a != b && depth[a] == depth[b]
    ensures !StrictAncestor(parent, depth, a, b) && !StrictAncestor(parent, depth, b, a)
    ensures !((a == c || StrictAncestor(parent, depth, a, c)) && (b == c || StrictAncestor(parent, depth, b, c)))
  {
    if (a == c || StrictAncestor(parent, depth, a, c)) && (b == c || StrictAncestor(parent, depth, b, c)) {
      AncestorsComparable(parent, depth, a, b, c);
    }
  }

  /** A common ancestor at depth k is common at every depth above k as well. */
  lemma {:induction false} CommonAncestorPrefix(parent: seq<Option<nat>>, depth: seq<nat>, a: nat, b: nat, k: nat, d: nat)
    requires Linked(parent, depth) && a < |parent| && b < |parent|
    requires d <= k <= depth[a] && k <= depth[b]
    requires Anc(parent, depth, a, k) == Anc(parent, depth, b, k)
    ensures Anc(parent, depth, a, d) == Anc(parent, depth, b, d)
  {
    AncOfAnc(parent, depth, a, k, d);
    AncOfAnc(parent, depth, b, k, d);
  }

  /** c is the lowest common ancestor-or-self of a and b. */
  ghost predicate IsLCA(parent: seq<Option<nat>>, depth: seq<nat>, a: nat, b: nat, c: nat)
    requires Linked(parent, depth) && a < |parent| && b < |parent| && c < |parent|
  {
    && depth[c] <= depth[a] && depth[c] <= depth[b]
    && Anc(parent, depth, a, depth[c]) == c && Anc(parent, depth, b, depth[c]) == c
    && forall k :: depth[c] < k <= Min(depth[a], depth[b]) ==>
         Anc(parent, depth, a, k) != Anc(parent, depth, b, k)
  }

  /** The lowest common ancestor-or-self of two epochs at one depth, found by stepping both
      to their parents until they meet; none when they reach two different roots. */
  ghost function LcaAt(parent: seq<Option<nat>>, depth: seq<nat>, x: nat, y: nat): Option<nat>
    requires Linked(parent, depth) && x < |parent| && y < |parent| && depth[x] == depth[y]
    decreases x
  {
    if x == y then Some(x)
    else if depth[x] == 0 then None
    else LcaAt(parent, depth, parent[x].value, parent[y].value)
  }

  /** The lowest common ancestor-or-self of any two epochs: that of their ancestors at the
      shallower of the two depths. */
  ghost function Lca(parent: seq<Option<nat>>, depth: seq<nat>, a: nat, b: nat): Option<nat>
    requires Linked(parent, depth) && a < |parent| && b < |parent|
  {
    var m := Min(depth[a], depth[b]);
    LcaAt(parent, depth, Anc(parent, depth, a, m), Anc(parent, depth, b, m))
  }

  /** `LcaAt` finds a common ancestor exactly when the two epochs share a root, and what it
      finds is the lowest one. */
  lemma {:induction false} LcaAtCorrect(parent: seq<Option<nat>>, depth: seq<nat>, x: nat, y: nat)
    requires Linked(parent, depth) && x < |parent| && y < |parent| && depth[x] == depth[y]
    ensures LcaAt(parent, depth, x, y).Some? <==> Anc(parent, depth, x, 0) == Anc(parent, depth, y, 0)
    ensures match LcaAt(parent, depth, x, y)
      case None => true
      case Some(c) => c < |parent| && IsLCA(parent, depth, x, y, c)
    decreases x
  {
    if x != y && depth[x] > 0 {
      var px, py := parent[x].value, parent[y].value;
      LcaAtCorrect(parent, depth, px, py);
      assert Anc(parent, depth, x, 0) == Anc(parent, depth, px, 0);
      assert Anc(parent, depth, y, 0) == Anc(parent, depth, py, 0);
      if LcaAt(parent, depth, px, py).Some? {
        var c := LcaAt(parent, depth, px, py).value;
        forall k | depth[c] < k <= depth[x]
          ensures Anc(parent, depth, x, k) != Anc(parent, depth, y, k)
        {
          if k < depth[x] {
            assert Anc(parent, depth, x, k) == Anc(parent, depth, px, k);
            assert Anc(parent, depth, y, k) == Anc(parent, depth, py, k);
          }
        }
      }
    }
  }

  /** Skipping from two epochs at one depth to their ancestors at depth k, where those still
      differ, does not change their lowest common ancestor. */
  lemma {:induction false} LcaAtSkip(parent: seq<Option<nat>>, depth: seq<nat>, x: nat, y: nat, k: nat)
    requires Linked(parent, depth) && x < |parent| && y < |parent| && depth[x] == depth[y]
    requires k <= depth[x] && Anc(parent, depth, x, k) != Anc(parent, depth, y, k)
    ensures LcaAt(parent, depth, x, y) == LcaAt(parent, depth, Anc(parent, depth, x, k), Anc(parent, depth, y, k))
    decreases x
  {
    if k < depth[x] {
      LcaAtSkip(parent, depth, parent[x].value, parent[y].value, k);
    }
  }

  /** `Lca` finds a common ancestor exactly when the two epochs share a root, and what it
      finds is the lowest one. */
  lemma {:induction false} LcaCorrect(parent: seq<Option<nat>>, depth: seq<nat>, a: nat, b: nat)
    requires Linked(parent, depth) && a < |parent| && b < |parent|
    ensures Lca(parent, depth, a, b).Some? <==> Anc(parent, depth, a, 0) == Anc(parent, depth, b, 0)
    ensures match Lca(parent, depth, a, b)
      case None => true
      case Some(c) => c < |parent| && IsLCA(parent, depth, a, b, c)
  {
    var m := Min(depth[a], depth[b]);
    var a', b' := Anc(parent, depth, a, m), Anc(parent, depth, b, m);
    LcaAtCorrect(parent, depth, a', b');
    forall k: nat | k <= m
      ensures Anc(parent, depth, a', k) == Anc(parent, depth, a, k) && Anc(parent, depth, b', k) == Anc(parent, depth, b, k)
    {
      AncOfAnc(parent, depth, a, m, k);
      AncOfAnc(parent, depth, b, m, k);
    }
  }

  /** The number of children of p among the first n epochs. */
  ghost function ChildrenBefore(parent: seq<Option<nat>>, p: nat, n: nat): (c: nat)
    requires n <= |parent|
    ensures c <= n
  {
    if n == 0 then 0
    else ChildrenBefore(parent, p, n - 1) + (if parent[n - 1] == Some(p) then 1 else 0)
  }

  /** Creating epochs does not change how many children came before an existing one. */
  lemma {:induction false} ChildrenBeforePrefix(parent: seq<Option<nat>>, parent': seq<Option<nat>>, p: nat, n: nat)
    requires parent <= parent' && n <= |parent|
    ensures ChildrenBefore(parent', p, n) == ChildrenBefore(parent, p, n)
  {
    if n > 0 {
      assert parent'[n - 1] == parent[n - 1];
      ChildrenBeforePrefix(parent, parent', p, n - 1);
    }
  }

  /** Two children of one parent created at different times count different numbers of
      earlier siblings. */
  lemma {:induction false} ChildrenBeforeGrows(parent: seq<Option<nat>>, p: nat, e: nat, f: nat)
    requires e < f <= |parent| && parent[e] == Some(p)
    ensures ChildrenBefore(parent, p, e) < ChildrenBefore(parent, p, f)
    decreases f
  {
    if f > e + 1 {
      ChildrenBeforeGrows(parent, p, e, f - 1);
    }
  }

  /** An epoch has no children among the epochs created before it. */
  lemma {:induction false} NoChildrenYet(parent: seq<Option<nat>>, depth: seq<nat>, p: nat, n: nat)
    requires Linked(parent, depth) && n <= |parent| && n <= p
    ensures ChildrenBefore(parent, p, n) == 0
  {
    if n > 0 {
      NoChildrenYet(parent, depth, p, n - 1);
    }
  }

  /** The cache invariant: every epoch has floor(log2 depth) + 1 slots, slot 0 holds the
      parent, and every filled slot j holds the ancestor 2^j levels up. */
  ghost predicate CacheInv(parent: seq<Option<nat>>, depth: seq<nat>, ancestors: seq<seq<Option<nat>>>)
  {
    && Linked(parent, depth)
    && |ancestors| == |parent|
    && (forall e {:trigger ancestors[e]} :: 0 <= e < |parent| ==>
          |ancestors[e]| == Jumps(depth[e])
          && (depth[e] > 0 ==> ancestors[e][0] == parent[e]))
    && (forall e, j {:trigger ancestors[e][j]} :: 0 <= e < |parent| && 0 <= j < |ancestors[e]| ==>
          ancestors[e][j].None?
          || (Pow2(j) <= depth[e] && ancestors[e][j].value == Anc(parent, depth, e, depth[e] - Pow2(j))))
  }

  /** The counters: a child's index is the number of its earlier siblings and a parent's
      child counter is the number of its children. */
  ghost predicate CountInv(parent: seq<Option<nat>>, index: seq<Option<nat>>, childCount: seq<nat>)
  {
    && |index| == |parent| && |childCount| == |parent|
    && (forall e {:trigger index[e]} :: 0 <= e < |parent| ==>
          match parent[e]
          case None => index[e] == None
          case Some(p) => index[e] == Some(ChildrenBefore(parent, p, e)))
    && (forall p {:trigger childCount[p]} :: 0 <= p < |parent| ==> childCount[p] == ChildrenBefore(parent, p, |parent|))
  }

  /** The store of all epochs created so far. */
  class EpochStore {
    /** the parent of each epoch: `ancestors[0]` of the source, none for a root */
    var parent: seq<Option<nat>>
    var depth: seq<nat>
    /** ancestors[e][j] is the jump cache of epoch e: none, or the ancestor 2^j levels up */
    var ancestors: seq<seq<Option<nat>>>
    /** the position of each epoch among its parent's children, none for a root */
    var index: seq<Option<nat>>
    var childCount: seq<nat>

    ghost predicate Valid()
      reads this
    {
      CacheInv(parent, depth, ancestors) && CountInv(parent, index, childCount)
    }

    /** An empty store. */
    constructor()
      ensures Valid() && parent == [] && depth == [] && ancestors == [] && index == [] && childCount == []
    {
      parent, depth, ancestors, index, childCount := [], [], [], [], [];
    }

    /** `new Epoch()`: a root, at depth 0 with no jump slots and no index. */
    method NewRoot() returns (e: nat)
      requires Valid()
      modifies this
      ensures Valid()
      ensures e == |old(parent)|
      ensures parent == old(parent) + [None] && depth == old(depth) + [0]
      ensures ancestors == old(ancestors) + [[]] && index == old(index) + [None]
      ensures childCount == old(childCount) + [0]
    {
      e := |parent|;
      NewNodeKeepsCache(parent, depth, ancestors, None, 0, []);
      NewNodeKeepsCounts(parent, depth, index, childCount, None);
      parent, depth, ancestors := parent + [None], depth + [0], ancestors + [[]];
      index, childCount := index + [None], childCount + [0];
    }

    /** `p.step()`, i.e. `new Epoch(p)`: a fresh child one level below p with
        floor(log2 depth) + 1 jump slots of which slot 0 holds p; it takes p's child counter
        as its index and moves that counter on by one. */
    method Step(p: nat) returns (e: nat)
      requires Valid() && p < |parent|
      modifies this
      ensures Valid()
      ensures e == |old(parent)|
      ensures parent == old(parent) + [Some(p)] && depth == old(depth) + [old(depth)[p] + 1]
      ensures ancestors == old(ancestors) + [ChildCache(p, old(depth)[p] + 1)]
      ensures index == old(index) + [Some(old(childCount)[p])]
      ensures childCount == old(childCount)[p := old(childCount)[p] + 1] + [0]
      ensures StrictAncestor(parent, depth, p, e)
    {
      e := |parent|;
      var d := depth[p] + 1;
      var jumps := Log2(d) + 1;
      JumpsIsLog(d);
      var cache := seq(jumps, j => if j == 0 then Some(p) else None);
      assert cache == ChildCache(p, d);
      NewNodeKeepsCache(parent, depth, ancestors, Some(p), d, cache);
      NewNodeKeepsCounts(parent, depth, index, childCount, Some(p));
      parent, depth, ancestors := parent + [Some(p)], depth + [d], ancestors + [cache];
      index, childCount := index + [Some(childCount[p])], childCount[p := childCount[p] + 1] + [0];
    }

    /** `getJump(j)`: the ancestor of e 2^j levels up, computed from two jumps of 2^(j-1)
        when not cached yet, and cached in slot j afterwards. */
    method GetJump(e: nat, j: nat) returns (r: nat)
      requires Valid() && e < |parent| && j < |ancestors[e]|
      modifies this`ancestors
      ensures Valid()
      ensures Pow2(j) <= depth[e] && r == Anc(parent, depth, e, depth[e] - Pow2(j))
      ensures ancestors[e][j] == Some(r)
      decreases j, 1
    {
      if ancestors[e][j].Some? {
        return ancestors[e][j].value;
      }
      assert j > 0;
      JumpExists(depth[e], j);
      var mid := GetJump(e, j - 1);
      r := JumpFrom(e, j, mid);
    }

    /** The second half of a jump of 2^j from e that is not cached yet: the jump of
        2^(j-1) from `mid`, the target of the first half, stored in slot j of e. */
    method JumpFrom(e: nat, j: nat, mid: nat) returns (r: nat)
      requires Valid() && e < |parent| && 0 < j < |ancestors[e]|
      requires Pow2(j) <= depth[e] && mid == Anc(parent, depth, e, depth[e] - Pow2(j - 1))
      modifies this`ancestors
      ensures Valid()
      ensures r == Anc(parent, depth, e, depth[e] - Pow2(j))
      ensures ancestors[e][j] == Some(r)
      decreases j, 0
    {
      ghost var P, D := parent, depth;
      JumpExists(D[mid], j - 1);
      r := GetJump(mid, j - 1);
      assert parent == P && depth == D;
      JumpTwice(P, D, e, j, mid, r);
      CacheJump(parent, depth, ancestors, e, j, r);
      ancestors := ancestors[e := ancestors[e][j := Some(r)]];
    }

    /** `getAncestor(d)`: for d <= depth, the ancestor of e at depth d (e itself at its own
        depth), found by jumping the largest power of two that fits. */
    method GetAncestor(e: nat, d: nat) returns (r: nat)
      requires Valid() && e < |parent| && d <= depth[e]
      modifies this`ancestors
      ensures Valid() && r == Anc(parent, depth, e, d)
      decreases depth[e]
    {
      if d == depth[e] {
        return e;
      }
      var jump := Log2(depth[e] - d);
      JumpExists(depth[e], jump);
      var a := GetJump(e, jump);
      r := GetAncestor(a, d);
      AncOfAnc(parent, depth, e, depth[a], d);
    }

    /** `Epoch.lt(epochOld, epochNew)`: strict ancestry, decided by comparing depths and then
        looking up the ancestor of `epochNew` at the depth of `epochOld`. */
    method Lt(epochOld: nat, epochNew: nat) returns (r: bool)
      requires Valid() && epochOld < |parent| && epochNew < |parent|
      modifies this`ancestors
      ensures Valid()
      ensures r == StrictAncestor(parent, depth, epochOld, epochNew)
    {
      r := false;
      if depth[epochOld] < depth[epochNew] {
        var a := GetAncestor(epochNew, depth[epochOld]);
        r := a == epochOld;
      }
    }

    /** `Epoch.ge(epochNew, epochOld)`: the same epoch or a strict descendant. */
    method Ge(epochNew: nat, epochOld: nat) returns (r: bool)
      requires Valid() && epochOld < |parent| && epochNew < |parent|
      modifies this`ancestors
      ensures Valid()
      ensures r == (epochOld == epochNew || StrictAncestor(parent, depth, epochOld, epochNew))
    {
      if epochOld == epochNew {
        return true;
      }
      r := Lt(epochOld, epochNew);
    }

    /** `ParentTree.LCA(a, b, jumpHint)`: the lowest common ancestor-or-self, `Lca`.
        Unequal depths are first lifted to the shallower depth. At equal depths the answer is
        the epoch itself, the common parent, or, after a binary search for the largest jump
        whose targets still differ, the LCA of those two targets. Epochs without a common
        root fail the assertion 'common ancestor not found', modelled as `None`. A hint h (the
        recursive call's) promises that the targets of jump h, where it exists, already
        coincide; no hint is the source's `Infinity`. */
    method LCA(a: nat, b: nat, jumpHint: Option<nat>) returns (r: Option<nat>)
      requires Valid() && a < |parent| && b < |parent|
      requires HintHolds(parent, depth, a, b, jumpHint)
      modifies this`ancestors
      ensures Valid()
      ensures r == Lca(parent, depth, a, b)
    {
      if depth[a] != depth[b] {
        var d := Min(depth[a], depth[b]);
        var a' := GetAncestor(a, d);
        var b' := GetAncestor(b, d);
        r := LCAAtDepth(a', b', None);
      } else {
        r := LCAAtDepth(a, b, jumpHint);
      }
    }

    /** The body of `LCA` once the depths agree; the recursive call of the source lands here
        directly, since the two jump targets are at one depth. */
    method LCAAtDepth(a: nat, b: nat, jumpHint: Option<nat>) returns (r: Option<nat>)
      requires Valid() && a < |parent| && b < |parent| && depth[a] == depth[b]
      requires HintHolds(parent, depth, a, b, jumpHint)
      modifies this`ancestors
      ensures Valid()
      ensures r == LcaAt(parent, depth, a, b)
      decreases depth[a], 1
    {
      if a == b {
        return Some(a);
      }
      var jumps := |ancestors[a]|;
      if jumps == 0 {
        // 'common ancestor not found': two distinct roots
        return None;
      }
      var pa, pb := JumpBoth(a, b, 0);
      if pa == pb {
        // `a.ancestors[0]` is the parent, the target of jump 0
        return Some(pa);
      }
      r := LCADescend(a, b, jumpHint);
    }

    /** The last step of `LCA` for two epochs at one depth whose parents differ: search for
        the last jump, below the hint, whose targets differ, and continue from those targets
        with that jump as the new hint. */
    method LCADescend(a: nat, b: nat, jumpHint: Option<nat>) returns (r: Option<nat>)
      requires Valid() && a < |parent| && b < |parent| && depth[a] == depth[b] && depth[a] > 0
      requires HintHolds(parent, depth, a, b, jumpHint) && Diverges(parent, depth, a, b, 0)
      modifies this`ancestors
      ensures Valid()
      ensures r == LcaAt(parent, depth, a, b)
      decreases depth[a], 0
    {
      ghost var P, D := parent, depth;
      var jumps := |ancestors[a]|;
      var n := if jumpHint.Some? then Min(jumpHint.value, jumps) else jumps;
      var i := LastDivergentJump(a, b, n);
      assert parent == P && depth == D;
      assert i >= 0;
      var aj, bj := JumpBoth(a, b, i);
      assert parent == P && depth == D;
      assert Diverges(P, D, a, b, i);
      HintForNext(P, D, a, b, i, n, jumpHint);
      LcaAtSkip(P, D, a, b, D[a] - Pow2(i));
      r := LCAAtDepth(aj, bj, Some(i));
      assert parent == P && depth == D;
    }

    /** `a.getJump(j)` and `b.getJump(j)` for two epochs at one depth. */
    method JumpBoth(a: nat, b: nat, j: nat) returns (x: nat, y: nat)
      requires Valid() && a < |parent| && b < |parent| && depth[a] == depth[b] && j < |ancestors[a]|
      modifies this`ancestors
      ensures Valid()
      ensures Pow2(j) <= depth[a]
      ensures x == Anc(parent, depth, a, depth[a] - Pow2(j)) && y == Anc(parent, depth, b, depth[a] - Pow2(j))
    {
      x := GetJump(a, j);
      y := GetJump(b, j);
    }

    /** `binary_search_last(n, i => a.getJump(i) !== b.getJump(i))` for two epochs at the
        same depth: the last jump below n whose targets differ, or -1. */
    method LastDivergentJump(a: nat, b: nat, n: nat) returns (r: int)
      requires Valid() && a < |parent| && b < |parent|
      requires depth[a] == depth[b] && n <= |ancestors[a]|
      modifies this`ancestors
      ensures Valid()
      ensures -1 <= r < n
      ensures forall i :: 0 <= i < n ==> ((i <= r) <==> Diverges(parent, depth, a, b, i))
    {
      ghost var P, D := parent, depth;
      var lo, hi := 0, n;
      while lo < hi
        invariant 0 <= lo <= hi <= n
        invariant Valid() && parent == P && depth == D
        invariant forall i :: 0 <= i < lo ==> Diverges(P, D, a, b, i)
        invariant forall i :: hi <= i < n ==> !Diverges(P, D, a, b, i)
        decreases hi - lo
      {
        var mid := lo + (hi - lo) / 2;
        var x, y := JumpBoth(a, b, mid);
        if x != y {
          DivergesBelow(P, D, a, b, mid);
          lo := mid + 1;
        } else {
          AgreesAbove(P, D, a, b, mid, n);
          hi := mid;
        }
      }
      r := lo - 1;
    }
  }

  /** The targets of jump i from two epochs at one depth exist and differ. */
  ghost predicate Diverges(parent: seq<Option<nat>>, depth: seq<nat>, a: nat, b: nat, i: nat)
    requires Linked(parent, depth) && a < |parent| && b < |parent| && depth[a] == depth[b]
  {
    Pow2(i) <= depth[a] && Anc(parent, depth, a, depth[a] - Pow2(i)) != Anc(parent, depth, b, depth[a] - Pow2(i))
  }

  /** If the targets of jump m differ, so do those of every shorter jump. */
  lemma {:induction false} DivergesBelow(parent: seq<Option<nat>>, depth: seq<nat>, a: nat, b: nat, m: nat)
    requires Linked(parent, depth) && a < |parent| && b < |parent| && depth[a] == depth[b]
    requires Diverges(parent, depth, a, b, m)
    ensures forall i :: 0 <= i <= m ==> Diverges(parent, depth, a, b, i)
  {
    var d := depth[a];
    forall i | 0 <= i <= m
      ensures Diverges(parent, depth, a, b, i)
    {
      Pow2Monotone(i, m);
      if Anc(parent, depth, a, d - Pow2(i)) == Anc(parent, depth, b, d - Pow2(i)) {
        CommonAncestorPrefix(parent, depth, a, b, d - Pow2(i), d - Pow2(m));
      }
    }
  }

  /** If the targets of jump m coincide, so do those of every longer jump. */
  lemma {:induction false} AgreesAbove(parent: seq<Option<nat>>, depth: seq<nat>, a: nat, b: nat, m: nat, n: nat)
    requires Linked(parent, depth) && a < |parent| && b < |parent| && depth[a] == depth[b]
    requires Pow2(m) <= depth[a] && !Diverges(parent, depth, a, b, m)
    ensures forall i :: m <= i < n ==> !Diverges(parent, depth, a, b, i)
  {
    var d := depth[a];
    forall i | m <= i < n
      ensures !Diverges(parent, depth, a, b, i)
    {
      if Pow2(i) <= d {
        Pow2Monotone(m, i);
        CommonAncestorPrefix(parent, depth, a, b, d - Pow2(m), d - Pow2(i));
      }
    }
  }

  /** The fresh cache of a child of p at the given depth: slot 0 holds p, the others are
      empty. */
  function ChildCache(p: nat, depth: nat): (c: seq<Option<nat>>)
    ensures |c| == Jumps(depth)
    ensures forall j :: 0 <= j < |c| ==> (c[j].Some? <==> j == 0)
    ensures |c| > 0 ==> c[0] == Some(p)
  {
    seq(Jumps(depth), j => if j == 0 then Some(p) else None)
  }

  /** Cache invariant of a store extended by one well-placed epoch. */
  lemma {:induction false} NewNodeKeepsCache(parent: seq<Option<nat>>, depth: seq<nat>, ancestors: seq<seq<Option<nat>>>,
                                             p: Option<nat>, d: nat, cache: seq<Option<nat>>)
    requires CacheInv(parent, depth, ancestors)
    requires match p
      case None => d == 0 && cache == []
      case Some(q) => q < |parent| && d == depth[q] + 1 && cache == ChildCache(q, d)
    ensures CacheInv(parent + [p], depth + [d], ancestors + [cache])
  {
    var parent', depth', ancestors' := parent + [p], depth + [d], ancestors + [cache];
    assert Linked(parent', depth') by {
      forall e | 0 <= e < |parent'|
        ensures match parent'[e]
          case None => depth'[e] == 0
          case Some(q) => q < e && depth'[e] == depth'[q] + 1
      {
        if e < |parent| {
          assert parent'[e] == parent[e];
        }
      }
    }
    forall e, j {:trigger ancestors'[e][j]} | 0 <= e < |parent'| && 0 <= j < |ancestors'[e]| && ancestors'[e][j].Some?
      ensures Pow2(j) <= depth'[e] && ancestors'[e][j].value == Anc(parent', depth', e, depth'[e] - Pow2(j))
    {
      if e < |parent| {
        assert ancestors'[e][j] == ancestors[e][j];
        AncPrefix(parent, depth, parent', depth', e, depth[e] - Pow2(j));
      } else {
        JumpExists(d, 0);
      }
    }
  }

  /** Two jumps of 2^(j-1) make a jump of 2^j. */
  lemma {:induction false} JumpTwice(parent: seq<Option<nat>>, depth: seq<nat>, e: nat, j: nat, mid: nat, r: nat)
    requires Linked(parent, depth) && e < |parent| && 0 < j && Pow2(j) <= depth[e]
    requires mid == Anc(parent, depth, e, depth[e] - Pow2(j - 1))
    requires Pow2(j - 1) <= depth[mid] && r == Anc(parent, depth, mid, depth[mid] - Pow2(j - 1))
    ensures r == Anc(parent, depth, e, depth[e] - Pow2(j))
  {
    AncOfAnc(parent, depth, e, depth[mid], depth[mid] - Pow2(j - 1));
  }

  /** Filling slot j of e with the ancestor 2^j levels up keeps the cache invariant. */
  lemma {:induction false} CacheJump(parent: seq<Option<nat>>, depth: seq<nat>, ancestors: seq<seq<Option<nat>>>,
                                     e: nat, j: nat, r: nat)
    requires CacheInv(parent, depth, ancestors) && e < |parent| && 0 < j < |ancestors[e]|
    requires Pow2(j) <= depth[e] && r == Anc(parent, depth, e, depth[e] - Pow2(j))
    ensures CacheInv(parent, depth, ancestors[e := ancestors[e][j := Some(r)]])
  {
  }

  /** Counter invariant of a store extended by one epoch whose index is its parent's
      counter. */
  lemma {:induction false} NewNodeKeepsCounts(parent: seq<Option<nat>>, depth: seq<nat>, index: seq<Option<nat>>,
                                              childCount: seq<nat>, p: Option<nat>)
    requires Linked(parent, depth) && CountInv(parent, index, childCount)
    requires p.Some? ==> p.value < |parent|
    ensures CountInv(parent + [p], index + [if p.Some? then Some(childCount[p.value]) else None],
                     if p.Some? then childCount[p.value := childCount[p.value] + 1] + [0] else childCount + [0])
  {
    var parent' := parent + [p];
    var index' := index + [if p.Some? then Some(childCount[p.value]) else None];
    var childCount' := if p.Some? then childCount[p.value := childCount[p.value] + 1] + [0] else childCount + [0];
    forall e {:trigger index'[e]} | 0 <= e < |parent'|
      ensures match parent'[e]
        case None => index'[e] == None
        case Some(q) => index'[e] == Some(ChildrenBefore(parent', q, e))
    {
      if e < |parent| {
        assert parent'[e] == parent[e] && index'[e] == index[e];
        if parent[e].Some? {
          ChildrenBeforePrefix(parent, parent', parent[e].value, e);
        }
      } else if p.Some? {
        ChildrenBeforePrefix(parent, parent', p.value, |parent|);
      }
    }
    forall q {:trigger childCount'[q]} | 0 <= q < |parent'|
      ensures childCount'[q] == ChildrenBefore(parent', q, |parent'|)
    {
      ChildrenBeforePrefix(parent, parent', q, |parent|);
      if q == |parent| {
        NoChildrenYet(parent, depth, q, |parent|);
      } else {
        assert childCount[q] == ChildrenBefore(parent, q, |parent|);
      }
    }
  }

  /** Indices are unique among siblings. */
  lemma {:induction false} SiblingIndicesDistinct(s: EpochStore, e: nat, f: nat)
    requires s.Valid() && e < f < |s.parent|
    requires s.parent[e].Some? && s.parent[f] == s.parent[e]
    ensures s.index[e] != s.index[f]
  {
    ChildrenBeforeGrows(s.parent, s.parent[e].value, e, f);
  }

  /** The hint an `LCA` call takes: when the depths agree and the jump exists, its targets
      coincide. */
  ghost predicate HintHolds(parent: seq<Option<nat>>, depth: seq<nat>, a: nat, b: nat, jumpHint: Option<nat>)
    requires Linked(parent, depth) && a < |parent| && b < |parent|
  {
    jumpHint.Some? && depth[a] == depth[b] && jumpHint.value < Jumps(depth[a]) ==>
      !Diverges(parent, depth, a, b, jumpHint.value)
  }

  /** The hint handed to the recursive call of `LCA` keeps its promise. */
  lemma {:induction false} HintForNext(parent: seq<Option<nat>>, depth: seq<nat>, a: nat, b: nat, i: nat, n: nat,
                                       jumpHint: Option<nat>)
    requires Linked(parent, depth) && a < |parent| && b < |parent| && depth[a] == depth[b]
    requires i < n <= Jumps(depth[a])
    requires n == (if jumpHint.Some? then Min(jumpHint.value, Jumps(depth[a])) else Jumps(depth[a]))
    requires HintHolds(parent, depth, a, b, jumpHint)
    requires i + 1 < n ==> !Diverges(parent, depth, a, b, i + 1)
    ensures Pow2(i) <= depth[a]
    ensures var k := depth[a] - Pow2(i);
      HintHolds(parent, depth, Anc(parent, depth, a, k), Anc(parent, depth, b, k), Some(i))
  {
    var d := depth[a];
    JumpExists(d, i);
    var k := d - Pow2(i);
    if i < Jumps(k) {
      JumpExists(k, i);
      assert k - Pow2(i) == d - Pow2(i + 1);
      JumpExists(d, i + 1);
      assert !Diverges(parent, depth, a, b, i + 1);
      AncOfAnc(parent, depth, a, k, k - Pow2(i));
      AncOfAnc(parent, depth, b, k, k - Pow2(i));
      var a', b' := Anc(parent, depth, a, k), Anc(parent, depth, b, k);
      assert Anc(parent, depth, a', k - Pow2(i)) == Anc(parent, depth, b', k - Pow2(i));
      assert !Diverges(parent, depth, a', b', i);
    }
  }

}
