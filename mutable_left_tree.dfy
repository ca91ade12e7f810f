/** `LeftTree` of trees.js (lines 18-151): the mutable left-balanced binary tree. The left
    child of a node is a perfect tree, the right child a left-balanced tree no higher than the
    left one. Removed leaves are tombstoned ("recycled"): a later `add` may reuse one, and the
    'truncate' policy cuts recycled leaves off the right end. The tree is a `Trees.Tree` made
    of `Leaf` and `Bin` nodes; the users whose leaves carry the `recycle` flag form a set. */
module MutableLeftTrees {
  import opened Utils
  import opened Trees

  /** `position`: where `add` puts a new leaf ('random' is not modelled). */
  datatype Position = Greedy | AppendOnly
  /** `truncate`: what `remove` does after tombstoning. */
  datatype TruncatePolicy = Truncate | Keep

  /** A perfect binary tree: every leaf at the same depth. */
  predicate IsPerfect(t: Tree)
  {
    match t
    case Leaf(_) => true
    case Bin(_, l, r, _) => IsPerfect(l) && IsPerfect(r) && Height(l) == Height(r)
    case Multi(_, _) => false
  }

  /** The shape invariant of the class comment: perfect left child, left-balanced right child
      no higher than the left one. */
  predicate LeftBalanced(t: Tree)
  {
    match t
    case Leaf(_) => true
    case Bin(_, l, r, _) => IsPerfect(l) && LeftBalanced(r) && Height(r) <= Height(l)
    case Multi(_, _) => false
  }

  /** The value `perfect` should hold: one more than the height of a perfect tree, none for
      any other tree. */
  function PerfectLevel(t: Tree): Option<nat>
  {
    if IsPerfect(t) then Some(Height(t) + 1) else None
  }

  /** `perfect` as the source reads it: 1 for a leaf (set by the constructor), the cached
      value for an inner node. */
  function PerfectOf(t: Tree): Option<nat>
  {
    match t
    case Leaf(_) => Some(1)
    case Bin(_, _, _, p) => p
    case Multi(_, _) => None
  }

  /** Every cached `perfect` is the true one. */
  predicate Exact(t: Tree)
  {
    match t
    case Leaf(_) => true
    case Bin(_, l, r, p) => p == PerfectLevel(t) && Exact(l) && Exact(r)
    case Multi(_, _) => false
  }

  /** Made of leaves and binary nodes only. */
  predicate Binary(t: Tree)
  {
    match t
    case Leaf(_) => true
    case Bin(_, l, r, _) => Binary(l) && Binary(r)
    case Multi(_, _) => false
  }

  lemma {:induction false} PerfectBinary(t: Tree)
    requires IsPerfect(t)
    ensures Binary(t)
  {
    if t.Bin? {
      PerfectBinary(t.left);
      PerfectBinary(t.right);
    }
  }

  lemma {:induction false} LeftBalancedBinary(t: Tree)
    requires LeftBalanced(t)
    ensures Binary(t)
  {
    if t.Bin? {
      PerfectBinary(t.left);
      LeftBalancedBinary(t.right);
    }
  }

  /** The invariant every `LeftTree` keeps. */
  predicate Good(t: Tree)
  {
    LeftBalanced(t) && Exact(t)
  }

  lemma {:induction false} PerfectOfExact(t: Tree)
    requires Exact(t)
    ensures PerfectOf(t) == PerfectLevel(t)
  {
  }

  /** A perfect tree of height h has 2^h leaves. */
  lemma {:induction false} PerfectLeaves(t: Tree)
    requires IsPerfect(t)
    ensures |Leaves(t)| == Pow2(Height(t))
  {
    if t.Bin? {
      PerfectLeaves(t.left);
      PerfectLeaves(t.right);
    }
  }

  /** A left-balanced tree of height h > 0 has more than 2^(h-1) leaves, and its left child
      has exactly 2^(h-1): the largest power of two below the leaf count. */
  lemma {:induction false} LeftBalancedLeaves(t: Tree)
    requires LeftBalanced(t)
    ensures |Leaves(t)| <= Pow2(Height(t))
    ensures t.Bin? ==> Pow2(Height(t) - 1) < |Leaves(t)| && |Leaves(t.left)| == Pow2(Height(t) - 1)
  {
    if t.Bin? {
      PerfectLeaves(t.left);
      LeftBalancedLeaves(t.right);
      Pow2Monotone(Height(t.right), Height(t.left));
    }
  }

  /** `setChildren(childR, childL)`: the node k over the two children, caching `perfect`:
      one more than the children's when they agree, `NaN` otherwise. The left child must be
      perfect. Exact children give an exact node. */
  function SetChildren(k: nat, l: Tree, r: Tree): (t: Tree)
    requires PerfectOf(l).Some?
    ensures t.Bin? && t.k == k && t.left == l && t.right == r
    ensures t.perfect.Some? <==> PerfectOf(l) == PerfectOf(r)
  {
    Bin(k, l, r, if PerfectOf(l) == PerfectOf(r) then Some(PerfectOf(l).value + 1) else None)
  }

  /** Exact children give an exact node. */
  lemma {:induction false} SetChildrenExact(k: nat, l: Tree, r: Tree)
    requires PerfectOf(l).Some? && Exact(l) && Exact(r)
    ensures Exact(SetChildren(k, l, r))
  {
    PerfectOfExact(l);
    PerfectOfExact(r);
  }

  lemma {:induction false} PerfectLeftBalanced(t: Tree)
    requires IsPerfect(t)
    ensures LeftBalanced(t)
  {
    if t.Bin? {
      PerfectLeftBalanced(t.right);
    }
  }

  /** `append(leaf)`: a perfect tree gets a new parent k over itself and the leaf; any other
      tree appends into its right child and stays the same node. The leaf becomes the last
      one, the invariant is kept, and the tree grows one level exactly when it was perfect. */
  function Append(t: Tree, u: nat, k: nat): (r: Tree)
    requires Good(t)
    ensures Good(r)
    ensures Leaves(r) == Leaves(t) + [u]
    ensures IsPerfect(t) ==> r.Bin? && r.k == k && r.left == t && r.right == Leaf(u)
    ensures !IsPerfect(t) ==> r.Bin? && t.Bin? && r.k == t.k && r.left == t.left
    ensures Height(r) == if IsPerfect(t) then Height(t) + 1 else Height(t)
  {
    PerfectOfExact(t);
    if PerfectOf(t).Some? then
      SetChildrenExact(k, t, Leaf(u));
      SetChildren(k, t, Leaf(u))
    else
      PerfectOfExact(t.left);
      var right := Append(t.right, u, k);
      SetChildrenExact(t.k, t.left, right);
      SetChildren(t.k, t.left, right)
  }

  /** The last leaf of a tree. */
  function LastLeaf(t: Tree): nat
  {
    var s := Leaves(t);
    if s == [] then 0 else s[|s| - 1]
  }

  /** A sequence without its last element. */
  function DropLast(s: seq<nat>): seq<nat>
  {
    if s == [] then [] else s[..|s| - 1]
  }

  lemma {:induction false} LeavesNonEmpty(t: Tree)
    requires LeftBalanced(t)
    ensures |Leaves(t)| >= 1
  {
    if t.Bin? {
      PerfectLeftBalanced(t.left);
      LeavesNonEmpty(t.left);
    }
  }

  /** The last leaf of a node is that of its right child. */
  lemma {:induction false} LastOfBin(t: Tree)
    requires t.Bin? && LeftBalanced(t)
    ensures LastLeaf(t) == LastLeaf(t.right)
    ensures DropLast(Leaves(t)) == Leaves(t.left) + DropLast(Leaves(t.right))
  {
    LeavesNonEmpty(t.right);
    var a, b := Leaves(t.left), Leaves(t.right);
    assert (a + b)[..|a + b| - 1] == a + b[..|b| - 1];
  }

  /** An exact node is what `setChildren` rebuilds from its own children. */
  lemma {:induction false} SetChildrenSame(t: Tree)
    requires t.Bin? && Good(t) && PerfectOf(t.left).Some?
    ensures SetChildren(t.k, t.left, t.right) == t
  {
    PerfectOfExact(t.left);
    PerfectOfExact(t.right);
  }

  /** `truncate()`: cuts the last leaf off when it is recycled, promoting its sibling; fails
      ('attempting to remove the last node') on a lone recycled leaf. The result is the same
      tree exactly when the last leaf is live; otherwise it has the leaves but the last. */
  function TruncateLast(t: Tree, recycled: set<nat>): (r: Option<Tree>)
    requires Good(t)
    ensures r.None? <==> t.Leaf? && t.user in recycled
    ensures r.Some? ==> Good(r.value) && Height(r.value) <= Height(t)
    ensures r.Some? && LastLeaf(t) in recycled ==> Leaves(r.value) == DropLast(Leaves(t))
    ensures r == Some(t) <==> LastLeaf(t) !in recycled
  {
    match t
    case Leaf(u) => if u in recycled then None else Some(t)
    case Bin(k, l, right, _) =>
      LastOfBin(t);
      if right.Leaf? then
        if right.user in recycled then
          PerfectLeftBalanced(l);
          Some(l)
        else Some(t)
      else
        var r' := TruncateLast(right, recycled).value;
        TruncateBelow(t, r', recycled);
        Some(SetChildren(k, l, r'))
  }

  /** The step of `truncate()` that rebuilds a node over its truncated right child. */
  lemma {:induction false} TruncateBelow(t: Tree, r': Tree, recycled: set<nat>)
    requires t.Bin? && Good(t) && Good(r') && Height(r') <= Height(t.right)
    requires LastLeaf(t.right) in recycled ==> Leaves(r') == DropLast(Leaves(t.right))
    requires r' == t.right <==> LastLeaf(t.right) !in recycled
    ensures PerfectOf(t.left).Some?
    ensures Good(SetChildren(t.k, t.left, r')) && Height(SetChildren(t.k, t.left, r')) <= Height(t)
    ensures LastLeaf(t) in recycled ==> Leaves(SetChildren(t.k, t.left, r')) == DropLast(Leaves(t))
    ensures SetChildren(t.k, t.left, r') == t <==> LastLeaf(t) !in recycled
  {
    PerfectOfExact(t.left);
    SetChildrenExact(t.k, t.left, r');
    LastOfBin(t);
    if r' == t.right {
      SetChildrenSame(t);
    }
  }

  /** Whether `truncate()` hands back the node it was called on (`rootNew === root`): every
      case but the one that promotes the left child. */
  predicate TruncateKeepsNode(t: Tree, recycled: set<nat>)
  {
    !(t.Bin? && t.right.Leaf? && t.right.user in recycled)
  }

  /** A sequence of users without its trailing recycled ones. */
  function WithoutTrailing(s: seq<nat>, recycled: set<nat>): (r: seq<nat>)
    ensures r <= s
    ensures r == [] <==> forall i :: 0 <= i < |s| ==> s[i] in recycled
    ensures r != [] ==> r[|r| - 1] !in recycled
    decreases |s|
  {
    if s == [] then []
    else if s[|s| - 1] in recycled then
      var r := WithoutTrailing(s[..|s| - 1], recycled);
      assert forall i :: 0 <= i < |s| - 1 ==> s[..|s| - 1][i] == s[i];
      r
    else s
  }

  /** Cutting recycled users off the end keeps every live one, and a prefix keeps users
      apart. */
  lemma {:induction false} WithoutTrailingKeeps(s: seq<nat>, recycled: set<nat>)
    ensures forall x :: x in s && x !in recycled ==> x in WithoutTrailing(s, recycled)
    ensures forall x :: x in WithoutTrailing(s, recycled) ==> x in s
    ensures Distinct(s) ==> Distinct(WithoutTrailing(s, recycled))
    decreases |s|
  {
    var r := WithoutTrailing(s, recycled);
    assert forall i :: 0 <= i < |r| ==> r[i] == s[i];
    if s != [] && s[|s| - 1] in recycled {
      WithoutTrailingKeeps(s[..|s| - 1], recycled);
      forall x | x in s && x !in recycled
        ensures x in r
      {
        var i :| 0 <= i < |s| && s[i] == x;
        assert s[..|s| - 1][i] == x;
      }
    }
  }

  /** The recycled leaves below t, left to right (`recycleLeaves`). */
  function RecycledLeaves(t: Tree, recycled: set<nat>): (r: seq<nat>)
    requires Binary(t)
    ensures forall x :: x in r <==> x in Leaves(t) && x in recycled
  {
    match t
    case Leaf(u) => if u in recycled then [u] else []
    case Bin(_, l, right, _) => RecycledLeaves(l, recycled) + RecycledLeaves(right, recycled)
  }

  /** `recycle(hint)`: the recycled leaves of the subtrees beside the path from the hint up to
      the root, the nearest level first and each subtree left to right. They are exactly the
      recycled leaves other than the hint when no user has two leaves. */
  function Recycle(t: Tree, hint: nat, recycled: set<nat>): (r: seq<nat>)
    requires Binary(t) && hint in Leaves(t)
    ensures forall x :: x in r ==> x in Leaves(t) && x in recycled
    ensures forall x :: x in Leaves(t) && x in recycled && x != hint ==> x in r
    ensures Distinct(Leaves(t)) ==> hint !in r
  {
    match t
    case Leaf(_) => []
    case Bin(_, l, right, _) =>
      if hint in Leaves(l) then
        DistinctSplit(Leaves(l), Leaves(right));
        Recycle(l, hint, recycled) + RecycledLeaves(right, recycled)
      else
        DistinctSplit(Leaves(l), Leaves(right));
        Recycle(right, hint, recycled) + RecycledLeaves(l, recycled)
  }

  /** How many levels below t the leaf x still shares with the hint's path: 0 when they part
      at t itself. The larger, the nearer to the hint the subtree holding x hangs. */
  function SharedDepth(t: Tree, hint: nat, x: nat): nat
    requires Binary(t)
  {
    match t
    case Leaf(_) => 0
    case Bin(_, l, right, _) =>
      if hint in Leaves(l) && x in Leaves(l) then 1 + SharedDepth(l, hint, x)
      else if hint !in Leaves(l) && x !in Leaves(l) then 1 + SharedDepth(right, hint, x)
      else 0
  }

  /** x comes before y in `recycle(hint)`'s order: from a nearer level, or from the same level
      and further left. */
  predicate Precedes(t: Tree, hint: nat, x: nat, y: nat)
    requires Binary(t)
  {
    var dx, dy := SharedDepth(t, hint, x), SharedDepth(t, hint, y);
    dx > dy || (dx == dy && IndexOf(Leaves(t), x) < IndexOf(Leaves(t), y))
  }

  /** Sequences ordered by a relation concatenate to an ordered one when everything in the
      first comes before everything in the second. */
  ghost predicate OrderedBy(r: seq<nat>, before: (nat, nat) -> bool)
  {
    forall i, j :: 0 <= i < j < |r| ==> before(r[i], r[j])
  }

  lemma {:induction false} OrderedConcat(a: seq<nat>, b: seq<nat>, before: (nat, nat) -> bool)
    requires OrderedBy(a, before) && OrderedBy(b, before)
    requires forall x, y :: x in a && y in b ==> before(x, y)
    ensures OrderedBy(a + b, before)
  {
    var r := a + b;
    forall i, j | 0 <= i < j < |r|
      ensures before(r[i], r[j])
    {
      if j < |a| {
        assert r[i] == a[i] && r[j] == a[j];
      } else if i >= |a| {
        assert r[i] == b[i - |a|] && r[j] == b[j - |a|];
      } else {
        assert r[i] == a[i] && r[j] == b[j - |a|];
        assert r[i] in a && r[j] in b;
      }
    }
  }

  /** The left-to-right order of the leaves of t. */
  function LeftOf(t: Tree): (nat, nat) -> bool
  {
    (x: nat, y: nat) => IndexOf(Leaves(t), x) < IndexOf(Leaves(t), y)
  }

  /** `recycleLeaves` yields the recycled leaves in their left-to-right order. */
  lemma {:induction false} RecycledInOrder(t: Tree, recycled: set<nat>)
    requires Binary(t) && Distinct(Leaves(t))
    ensures OrderedBy(RecycledLeaves(t, recycled), LeftOf(t))
  {
    if t.Bin? {
      var l, right := t.left, t.right;
      var a, b := RecycledLeaves(l, recycled), RecycledLeaves(right, recycled);
      DistinctSplit(Leaves(l), Leaves(right));
      RecycledInOrder(l, recycled);
      RecycledInOrder(right, recycled);
      forall x, y | x in Leaves(l) && y in Leaves(right)
        ensures LeftOf(t)(x, y)
      {
        IndexOfConcat(Leaves(l), Leaves(right), x);
        IndexOfConcat(Leaves(l), Leaves(right), y);
      }
      forall i, j | 0 <= i < j < |a|
        ensures LeftOf(t)(a[i], a[j])
      {
        assert LeftOf(l)(a[i], a[j]);
        IndexOfConcat(Leaves(l), Leaves(right), a[i]);
        IndexOfConcat(Leaves(l), Leaves(right), a[j]);
      }
      forall i, j | 0 <= i < j < |b|
        ensures LeftOf(t)(b[i], b[j])
      {
        assert LeftOf(right)(b[i], b[j]);
        IndexOfConcat(Leaves(l), Leaves(right), b[i]);
        IndexOfConcat(Leaves(l), Leaves(right), b[j]);
      }
      OrderedConcat(a, b, LeftOf(t));
    }
  }

  /** The order of `recycle(hint)` below t. */
  function RecycleOrderOf(t: Tree, hint: nat): (nat, nat) -> bool
    requires Binary(t)
  {
    (x: nat, y: nat) => Precedes(t, hint, x, y)
  }

  /** Below the hint's side of t, order by level and position is the side's own order; the
      other side's leaves share only t with the hint and come after. */
  lemma {:induction false} PrecedesOfSides(t: Tree, hint: nat)
    requires Binary(t) && t.Bin? && hint in Leaves(t) && Distinct(Leaves(t))
    ensures var l, right := t.left, t.right;
            var near := if hint in Leaves(l) then l else right;
            var far := if hint in Leaves(l) then right else l;
            (forall x, y :: (x in Leaves(near) && y in Leaves(near) && x != hint &&
               Precedes(near, hint, x, y)) ==> Precedes(t, hint, x, y)) &&
            (forall x, y :: (x in Leaves(far) && y in Leaves(far) &&
               LeftOf(far)(x, y)) ==> Precedes(t, hint, x, y)) &&
            (forall x, y :: x in Leaves(near) && y in Leaves(far) ==> Precedes(t, hint, x, y))
  {
    var l, right := t.left, t.right;
    DistinctSplit(Leaves(l), Leaves(right));
    forall x | x in Leaves(l) || x in Leaves(right)
      ensures x in Leaves(l) ==> IndexOf(Leaves(t), x) == IndexOf(Leaves(l), x)
      ensures x in Leaves(right) ==> IndexOf(Leaves(t), x) == |Leaves(l)| + IndexOf(Leaves(right), x)
    {
      IndexOfConcat(Leaves(l), Leaves(right), x);
    }
  }

  /** Leaves of the hint's side keep their order when seen from t. */
  lemma {:induction false} NearInOrder(t: Tree, hint: nat, near: Tree, a: seq<nat>)
    requires Binary(t) && t.Bin? && hint in Leaves(t) && Distinct(Leaves(t))
    requires near == if hint in Leaves(t.left) then t.left else t.right
    requires forall x :: x in a ==> x in Leaves(near) && x != hint
    requires OrderedBy(a, RecycleOrderOf(near, hint))
    ensures OrderedBy(a, RecycleOrderOf(t, hint))
  {
    PrecedesOfSides(t, hint);
    forall i, j | 0 <= i < j < |a|
      ensures RecycleOrderOf(t, hint)(a[i], a[j])
    {
      assert RecycleOrderOf(near, hint)(a[i], a[j]);
    }
  }

  /** Leaves of the other side, left to right, keep their order when seen from t. */
  lemma {:induction false} FarInOrder(t: Tree, hint: nat, far: Tree, b: seq<nat>)
    requires Binary(t) && t.Bin? && hint in Leaves(t) && Distinct(Leaves(t))
    requires far == if hint in Leaves(t.left) then t.right else t.left
    requires forall x :: x in b ==> x in Leaves(far)
    requires OrderedBy(b, LeftOf(far))
    ensures OrderedBy(b, RecycleOrderOf(t, hint))
  {
    PrecedesOfSides(t, hint);
    forall i, j | 0 <= i < j < |b|
      ensures RecycleOrderOf(t, hint)(b[i], b[j])
    {
      assert LeftOf(far)(b[i], b[j]);
    }
  }

  /** `recycle(hint)` yields the recycled leaves nearest level first, and left to right within
      a level. */
  lemma {:induction false} RecycleOrder(t: Tree, hint: nat, recycled: set<nat>)
    requires Binary(t) && hint in Leaves(t) && Distinct(Leaves(t))
    ensures OrderedBy(Recycle(t, hint, recycled), RecycleOrderOf(t, hint))
  {
    if t.Bin? {
      var l, right := t.left, t.right;
      DistinctSplit(Leaves(l), Leaves(right));
      var near := if hint in Leaves(l) then l else right;
      var far := if hint in Leaves(l) then right else l;
      var a, b := Recycle(near, hint, recycled), RecycledLeaves(far, recycled);
      assert Recycle(t, hint, recycled) == a + b;
      RecycleOrder(near, hint, recycled);
      RecycledInOrder(far, recycled);
      NearInOrder(t, hint, near, a);
      FarInOrder(t, hint, far, b);
      PrecedesOfSides(t, hint);
      OrderedConcat(a, b, RecycleOrderOf(t, hint));
    }
  }

  /** The tree with the leaf of x replaced by a leaf of u; the nodes keep their cached values,
      as `add` writes `childL`/`childR` directly. */
  function ReplaceLeaf(t: Tree, x: nat, u: nat): (r: Tree)
    requires Binary(t)
    ensures Binary(r) && Height(r) == Height(t) && (IsPerfect(r) <==> IsPerfect(t))
    ensures (LeftBalanced(t) ==> LeftBalanced(r)) && (Exact(t) ==> Exact(r))
    ensures Leaves(r) == Replace(Leaves(t), x, Some(u))
  {
    match t
    case Leaf(v) => if v == x then Leaf(u) else t
    case Bin(k, l, right, p) =>
      ReplaceConcat(Leaves(l), Leaves(right), x, Some(u));
      if x in Leaves(l) then Bin(k, ReplaceLeaf(l, x, u), right, p)
      else Bin(k, l, ReplaceLeaf(right, x, u), p)
  }

  /** `add(leaf, hint)`: under 'greedy' the new leaf takes the place of the first leaf
      `recycle(hint)` yields, and the tree is otherwise unchanged; with none (and always under
      'append') it is appended. Either way the invariant is kept, the new leaf is in the tree,
      only a recycled leaf can leave it, and the tree grows by one leaf exactly when nothing
      was reused. */
  function Add(t: Tree, u: nat, hint: nat, recycled: set<nat>, k: nat, position: Position): (r: Tree)
    requires Good(t) && hint in Leaves(t) && Distinct(Leaves(t))
    ensures Good(r)
    ensures u in Leaves(r)
    ensures forall x :: x in Leaves(r) ==> x in Leaves(t) || x == u
    ensures forall x :: x in Leaves(t) && x !in recycled ==> x in Leaves(r)
    ensures |Leaves(r)| == |Leaves(t)| <==>
              position == Greedy && exists x :: x in Leaves(t) && x in recycled && x != hint
    ensures |Leaves(r)| != |Leaves(t)| ==> Leaves(r) == Leaves(t) + [u]
    ensures position == Greedy && Binary(t) && Recycle(t, hint, recycled) != [] ==>
              Leaves(r) == Replace(Leaves(t), Recycle(t, hint, recycled)[0], Some(u))
    ensures hint in Leaves(r)
    ensures u !in Leaves(t) ==> Distinct(Leaves(r))
  {
    LeftBalancedBinary(t);
    var candidates := if position == Greedy then Recycle(t, hint, recycled) else [];
    if candidates == [] then
      NothingToReuse(t, hint, recycled, position == Greedy);
      var r := Append(t, u, k);
      AppendedDistinct(Leaves(t), u);
      r
    else
      var x := candidates[0];
      assert x in Leaves(t) && x in recycled && x != hint;
      var r := ReplaceLeaf(t, x, u);
      ReplacedLeaves(Leaves(t), x, u, recycled);
      ReplacedDistinct(Leaves(t), x, u);
      r
  }

  lemma {:induction false} NothingToReuse(t: Tree, hint: nat, recycled: set<nat>, greedy: bool)
    requires Binary(t) && hint in Leaves(t)
    requires greedy ==> Recycle(t, hint, recycled) == []
    ensures greedy ==> forall x :: x in Leaves(t) && x in recycled ==> x == hint
  {
  }

  /** Replacing the recycled leaf x by u keeps the count, puts u in and removes only x. */
  lemma {:induction false} ReplacedLeaves(s: seq<nat>, x: nat, u: nat, recycled: set<nat>)
    requires x in s && x in recycled
    ensures var r := Replace(s, x, Some(u));
            |r| == |s| && u in r && (forall y :: y in r ==> y in s || y == u) &&
            (forall y :: y in s && y != x ==> y in r) &&
            (forall y :: y in s && y !in recycled ==> y in r)
  {
    ReplaceAt(s, x, Some(u));
    var i := IndexOf(s, x);
    var r := Replace(s, x, Some(u));
    assert r == s[..i] + [u] + s[i + 1..];
    assert r[i] == u;
    forall y | y in s && y != x
      ensures y in r
    {
      var j :| 0 <= j < |s| && s[j] == y;
      assert j != i;
      if j < i {
        assert r[j] == y;
      } else {
        assert r[j] == s[i + 1..][j - i - 1] == y;
      }
    }
  }

  /** Replacing one user's leaf by a leaf of a user not yet in the tree keeps every other
      leaf and keeps users apart. */
  lemma {:induction false} ReplacedDistinct(s: seq<nat>, x: nat, u: nat)
    requires x in s && Distinct(s)
    ensures forall y :: y in s && y != x ==> y in Replace(s, x, Some(u))
    ensures u !in s ==> Distinct(Replace(s, x, Some(u)))
  {
    ReplaceAt(s, x, Some(u));
    var i := IndexOf(s, x);
    var r := Replace(s, x, Some(u));
    assert |r| == |s| && r[i] == u;
    assert forall j :: 0 <= j < |s| && j != i ==> r[j] == s[j];
    forall y | y in s && y != x
      ensures y in r
    {
      var j :| 0 <= j < |s| && s[j] == y;
      assert r[j] == y;
    }
  }

  lemma {:induction false} AppendedDistinct(s: seq<nat>, u: nat)
    requires Distinct(s)
    ensures u !in s ==> Distinct(s + [u])
  {
    assert forall j :: 0 <= j < |s| ==> (s + [u])[j] == s[j];
  }

  /** `WithoutTrailing` drops the last element exactly when it is recycled. */
  lemma {:induction false} WithoutTrailingStep(s: seq<nat>, recycled: set<nat>)
    requires s != []
    ensures s[|s| - 1] in recycled ==> WithoutTrailing(s, recycled) == WithoutTrailing(DropLast(s), recycled)
    ensures s[|s| - 1] !in recycled ==> WithoutTrailing(s, recycled) == s
  {
  }

  /** The loop of `remove` under 'truncate' as written: it truncates again only while
      `truncate()` hands back a different node, which happens only when the root itself is
      replaced by its left child. */
  function CollapseAsWritten(t: Tree, recycled: set<nat>): (r: Option<Tree>)
    requires Good(t)
    ensures r.Some? ==> Good(r.value)
    decreases |Leaves(t)|
  {
    var next := TruncateLast(t, recycled);
    if next.None? then None
    else if TruncateKeepsNode(t, recycled) then next
    else
      LastOfBin(t);
      CollapseAsWritten(next.value, recycled)
  }

  /** `remove(leaf)` as written: tombstones the leaf; under 'truncate' it runs `truncate()` on
      the root until the node it hands back is the root itself. */
  method RemoveAsWritten(t: Tree, u: nat, recycled: set<nat>, policy: TruncatePolicy)
    returns (r: Option<Tree>, recycled': set<nat>)
    requires Good(t)
    ensures recycled' == recycled + {u}
    ensures policy == Keep ==> r == Some(t)
    ensures policy == Truncate ==> r == CollapseAsWritten(t, recycled')
  {
    recycled' := recycled + {u};
    if policy == Keep {
      return Some(t), recycled';
    }
    var root := t;
    while true
      invariant Good(root)
      invariant CollapseAsWritten(root, recycled') == CollapseAsWritten(t, recycled')
      decreases |Leaves(root)|
    {
      var rootNew := TruncateLast(root, recycled');
      if rootNew.None? {
        return None, recycled';
      }
      if TruncateKeepsNode(root, recycled') {
        return rootNew, recycled';
      }
      LastOfBin(root);
      root := rootNew.value;
    }
  }

  /** Four users, 2 and 3 recycled: `[[0, 1], [2, 3]]`. */
  function TombstoneExample(): Tree
  {
    Bin(10, Bin(11, Leaf(0), Leaf(1), Some(2)), Bin(12, Leaf(2), Leaf(3), Some(2)), Some(3))
  }

  lemma {:induction false} TombstoneExampleGood()
    ensures Good(TombstoneExample()) && Leaves(TombstoneExample()) == [0, 1, 2, 3]
  {
  }

  /** The loop as written stops after one cut, with the tree `[[0, 1], 2]`. */
  lemma {:induction false} TombstoneExampleCollapse()
    ensures Good(TombstoneExample())
    ensures CollapseAsWritten(TombstoneExample(), {2, 3}) == Some(Bin(10, Bin(11, Leaf(0), Leaf(1), Some(2)), Leaf(2), None))
  {
    TombstoneExampleGood();
    var t := TombstoneExample();
    var rec: set<nat> := {2, 3};
    assert TruncateLast(t.right, rec) == Some(Leaf(2));
    assert TruncateKeepsNode(t, rec);
  }

  /** Under the loop as written, removing the last leaf of a right subtree stops after one
      cut and leaves an earlier tombstone at the end of the tree: with users 2 and 3 recycled
      the leaf of 2 stays last, where repeating until the tree stops changing keeps [0, 1]. */
  lemma {:induction false} CollapseAsWrittenLeavesTombstone()
    ensures Good(TombstoneExample())
    ensures CollapseAsWritten(TombstoneExample(), {2, 3}).Some?
    ensures Leaves(CollapseAsWritten(TombstoneExample(), {2, 3}).value) == [0, 1, 2]
    ensures WithoutTrailing(Leaves(TombstoneExample()), {2, 3}) == [0, 1]
  {
    TombstoneExampleGood();
    TombstoneExampleCollapse();
    var rec: set<nat> := {2, 3};
    var s: seq<nat> := [0, 1, 2, 3];
    WithoutTrailingStep(s, rec);
    assert DropLast(s) == [0, 1, 2];
    WithoutTrailingStep([0, 1, 2], rec);
    assert DropLast([0, 1, 2]) == [0, 1];
    WithoutTrailingStep([0, 1], rec);
  }

  /** `remove(leaf)`: tombstones the leaf; under 'truncate' it cuts recycled leaves off the
      end until the last leaf is live, and fails ('attempting to remove the last node') when
      every leaf is recycled. Unlike the loop as written, it repeats while the tree changes
      rather than while the root object does. */
  method Remove(t: Tree, u: nat, recycled: set<nat>, policy: TruncatePolicy)
    returns (r: Option<Tree>, recycled': set<nat>)
    requires Good(t)
    ensures recycled' == recycled + {u}
    ensures policy == Keep ==> r == Some(t)
    ensures policy == Truncate ==> (r.None? <==> forall x :: x in Leaves(t) ==> x in recycled')
    ensures policy == Truncate && r.Some? ==>
              Good(r.value) && Leaves(r.value) == WithoutTrailing(Leaves(t), recycled')
  {
    recycled' := recycled + {u};
    if policy == Keep {
      return Some(t), recycled';
    }
    var root := t;
    while true
      invariant Good(root)
      invariant WithoutTrailing(Leaves(root), recycled') == WithoutTrailing(Leaves(t), recycled')
      decreases |Leaves(root)|
    {
      LeavesNonEmpty(root);
      WithoutTrailingStep(Leaves(root), recycled');
      var rootNew := TruncateLast(root, recycled');
      if rootNew.None? {
        assert Leaves(root) == [root.user];
        return None, recycled';
      }
      if rootNew.value == root {
        return Some(root), recycled';
      }
      root := rootNew.value;
    }
  }
}
