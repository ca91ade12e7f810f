/** The mutable tree of trees.js (the base class `Tree`, lines 3-16) as a value. A node is a
    user's leaf, a binary node of a left-balanced tree (`LeftTree`) or a node of a B-tree
    (`BTree`) with any number of children. The objects of the source are named by `Ref`s: a
    leaf by its user, an inner node by a number drawn from a counter when it is created. The
    `parent` pointers and `getRoot` are not stored: the parent of a node is the node above it
    on the path from the root, which `PathTo` computes. */
module Trees {
  import opened Utils

  datatype Ref = User(user: nat) | Inner(k: nat)

  /** `perfect` is the value `setChildren` caches in a `LeftTree` node: 1 plus the height of a
      perfect subtree, `None` where the source stores `NaN`. */
  datatype Tree =
    | Leaf(user: nat)
    | Bin(k: nat, left: Tree, right: Tree, perfect: Option<nat>)
    | Multi(k: nat, children: seq<Tree>)

  function RefOf(t: Tree): Ref
  {
    match t
    case Leaf(u) => User(u)
    case Bin(k, _, _, _) => Inner(k)
    case Multi(k, _) => Inner(k)
  }

  /** The nodes named by some children. */
  function RefsOf(cs: seq<Tree>): (rs: seq<Ref>)
    ensures |rs| == |cs| && forall i :: 0 <= i < |cs| ==> rs[i] == RefOf(cs[i])
  {
    seq(|cs|, (i: nat) requires i < |cs| => RefOf(cs[i]))
  }

  /** A call of the callbacks a tree operation is handed: `onRemoveChild(parent,
      grandparent, ...moved)` after `moved` left `parent`, which keeps `rest`, and
      `onAddChild(parent, grandparent, ...added)` after `added` joined `parent`, which had
      `before`. */
  datatype Event =
    | RemovedChildren(parent: Ref, grandparent: Option<Ref>, moved: seq<Ref>, rest: seq<Ref>)
    | AddedChildren(parent: Ref, grandparent: Option<Ref>, added: seq<Ref>, before: seq<Ref>)

  /** `children`: none for a leaf, `[childL, childR]` for a binary node. */
  function Children(t: Tree): (cs: seq<Tree>)
    ensures t.Leaf? ==> cs == []
    ensures t.Bin? ==> cs == [t.left, t.right]
    ensures t.Multi? ==> cs == t.children
    ensures forall i :: 0 <= i < |cs| ==> cs[i] < t
  {
    match t
    case Leaf(_) => []
    case Bin(_, l, r, _) => [l, r]
    case Multi(_, cs) => cs
  }

  /** Levels below the root. */
  function Height(t: Tree): nat
    decreases t, 1
  {
    match t
    case Leaf(_) => 0
    case Bin(_, l, r, _) => 1 + Max(Height(l), Height(r))
    case Multi(_, cs) => if cs == [] then 0 else 1 + HeightsMax(cs)
  }

  function HeightsMax(cs: seq<Tree>): nat
    decreases cs, 0
  {
    if cs == [] then 0 else Max(Height(cs[0]), HeightsMax(cs[1..]))
  }

  /** The users of the leaves, left to right. */
  function Leaves(t: Tree): seq<nat>
    decreases t, 1
  {
    match t
    case Leaf(u) => [u]
    case Bin(_, l, r, _) => Leaves(l) + Leaves(r)
    case Multi(_, cs) => LeavesOf(cs)
  }

  function LeavesOf(cs: seq<Tree>): seq<nat>
    decreases cs, 0
  {
    if cs == [] then [] else Leaves(cs[0]) + LeavesOf(cs[1..])
  }

  /** The leaves of some children are the leaves of each, in order. */
  lemma {:induction false} LeavesOfAppend(a: seq<Tree>, b: seq<Tree>)
    ensures LeavesOf(a + b) == LeavesOf(a) + LeavesOf(b)
    decreases |a|
  {
    if a == [] {
      assert a + b == b;
    } else {
      assert (a + b)[0] == a[0] && (a + b)[1..] == a[1..] + b;
      LeavesOfAppend(a[1..], b);
    }
  }

  lemma {:induction false} LeavesOfOne(c: Tree)
    ensures LeavesOf([c]) == Leaves(c)
  {
    assert [c][1..] == [];
  }

  /** The leaves of the first i children are those of the first i - 1, then the i-th's. */
  lemma {:induction false} LeavesOfPrefix(cs: seq<Tree>, i: nat)
    requires 0 < i <= |cs|
    ensures LeavesOf(cs[..i]) == LeavesOf(cs[..i - 1]) + Leaves(cs[i - 1])
  {
    assert cs[..i] == cs[..i - 1] + [cs[i - 1]];
    LeavesOfAppend(cs[..i - 1], [cs[i - 1]]);
    LeavesOfOne(cs[i - 1]);
  }

  /** A user is below some children exactly when it is below one of them. */
  lemma {:induction false} InLeavesOf(cs: seq<Tree>, u: nat)
    ensures u in LeavesOf(cs) <==> exists i :: 0 <= i < |cs| && u in Leaves(cs[i])
    decreases |cs|
  {
    if cs != [] {
      InLeavesOf(cs[1..], u);
      if u in LeavesOf(cs[1..]) {
        var i :| 0 <= i < |cs[1..]| && u in Leaves(cs[1..][i]);
        assert cs[i + 1] == cs[1..][i];
      }
      if exists i :: 0 <= i < |cs| && u in Leaves(cs[i]) {
        var i :| 0 <= i < |cs| && u in Leaves(cs[i]);
        if i > 0 {
          assert cs[1..][i - 1] == cs[i];
        }
      }
    }
  }

  /** No user appears twice exactly when each occurs at most once in the multiset. */
  lemma {:induction false} DistinctCounts(s: seq<nat>)
    ensures Distinct(s) <==> forall x :: multiset(s)[x] <= 1
    decreases |s|
  {
    if s != [] {
      DistinctCounts(s[1..]);
      assert s == [s[0]] + s[1..];
      assert multiset(s) == multiset{s[0]} + multiset(s[1..]);
      if Distinct(s) {
        assert s[0] !in s[1..] by {
          forall j | 0 <= j < |s[1..]|
            ensures s[1..][j] != s[0]
          {
            assert s[1..][j] == s[j + 1];
          }
        }
        assert Distinct(s[1..]) by {
          assert forall i :: 0 <= i < |s[1..]| ==> s[1..][i] == s[i + 1];
        }
      }
      if forall x :: multiset(s)[x] <= 1 {
        assert multiset(s)[s[0]] <= 1;
        forall x
          ensures multiset(s[1..])[x] <= 1
        {
          assert multiset(s)[x] <= 1;
        }
        assert Distinct(s) by {
          forall i, j | 0 <= i < j < |s|
            ensures s[i] != s[j]
          {
            assert s[j] == s[1..][j - 1];
            if i > 0 {
              assert s[i] == s[1..][i - 1];
            } else {
              assert s[j] in s[1..];
            }
          }
        }
      }
    }
  }

  /** Users apart in a concatenation are apart in each part, and no user is in both. */
  lemma {:induction false} DistinctSplit(a: seq<nat>, b: seq<nat>)
    ensures Distinct(a + b) ==> Distinct(a) && Distinct(b) && forall x :: x in a ==> x !in b
  {
    if Distinct(a + b) {
      assert forall i :: 0 <= i < |a| ==> (a + b)[i] == a[i];
      assert forall j :: 0 <= j < |b| ==> (a + b)[|a| + j] == b[j];
    }
  }

  /** A tree that loses users keeps the rest apart. */
  lemma {:induction false} DistinctShrunk(s: seq<nat>, s': seq<nat>, lost: multiset<nat>)
    requires Distinct(s) && multiset(s') + lost == multiset(s)
    ensures Distinct(s')
  {
    DistinctCounts(s);
    DistinctCounts(s');
    forall x
      ensures multiset(s')[x] <= 1
    {
      assert multiset(s)[x] <= 1;
    }
  }

  /** A tree that gains a user not yet in it keeps users apart. */
  lemma {:induction false} DistinctGrown(s: seq<nat>, s': seq<nat>, u: nat)
    requires Distinct(s) && u !in s && multiset(s') == multiset(s) + multiset{u}
    ensures Distinct(s')
  {
    DistinctCounts(s);
    DistinctCounts(s');
    forall x
      ensures multiset(s')[x] <= 1
    {
      assert multiset(s)[x] <= 1;
    }
  }

  /** The first child that holds the user. */
  function ChildWith(cs: seq<Tree>, u: nat): (i: nat)
    requires u in LeavesOf(cs)
    ensures i < |cs| && u in Leaves(cs[i])
    ensures forall j :: 0 <= j < i ==> u !in Leaves(cs[j])
    decreases |cs|
  {
    if u in Leaves(cs[0]) then 0
    else
      var i := ChildWith(cs[1..], u) + 1;
      assert forall j :: 1 <= j < |cs| ==> cs[j] == cs[1..][j - 1];
      i
  }

  /** The nodes from the root down to the user's leaf, the root first: what following
      `parent` from the leaf up to `getRoot()` visits, in reverse. Empty when the user has no
      leaf in the tree. */
  function PathTo(t: Tree, u: nat): (p: seq<Tree>)
    ensures u in Leaves(t) <==> p != []
    ensures p != [] ==> p[0] == t && p[|p| - 1] == Leaf(u)
    decreases t
  {
    match t
    case Leaf(v) => if v == u then [t] else []
    case Bin(_, l, r, _) =>
      if u in Leaves(l) then [t] + PathTo(l, u)
      else if u in Leaves(r) then [t] + PathTo(r, u)
      else []
    case Multi(_, cs) =>
      if u in LeavesOf(cs) then [t] + PathTo(cs[ChildWith(cs, u)], u) else []
  }

  /** The child of t the path to the user goes through. */
  function NextOnPath(t: Tree, u: nat): (c: Tree)
    requires u in Leaves(t) && !t.Leaf?
    ensures c in Children(t) && u in Leaves(c)
    ensures PathTo(t, u) == [t] + PathTo(c, u)
  {
    if t.Bin? then (if u in Leaves(t.left) then t.left else t.right)
    else t.children[ChildWith(t.children, u)]
  }

  /** Each node of a path is a child of the one before it. */
  lemma {:induction false} PathLinks(t: Tree, u: nat)
    ensures forall i :: 0 <= i < |PathTo(t, u)| - 1 ==> PathTo(t, u)[i + 1] in Children(PathTo(t, u)[i])
    decreases t
  {
    var p := PathTo(t, u);
    if p != [] && !t.Leaf? {
      var c := NextOnPath(t, u);
      PathLinks(c, u);
      var q := PathTo(c, u);
      forall i | 0 <= i < |p| - 1
        ensures p[i + 1] in Children(p[i])
      {
        if i == 0 {
          assert p[1] == q[0] == c;
        } else {
          assert p[i] == q[i - 1] && p[i + 1] == q[i - 1 + 1];
          assert q[i - 1 + 1] in Children(q[i - 1]);
        }
      }
    }
  }

  /** Heights fall strictly along a path, so no node occurs on it twice. */
  lemma {:induction false} PathHeights(t: Tree, u: nat)
    ensures forall i, j :: 0 <= i < j < |PathTo(t, u)| ==> Height(PathTo(t, u)[j]) < Height(PathTo(t, u)[i])
    decreases t
  {
    var p := PathTo(t, u);
    if p != [] && !t.Leaf? {
      var c := NextOnPath(t, u);
      PathHeights(c, u);
      HeightOfChild(t, c);
      var q := PathTo(c, u);
      PathToTop(c, u);
      forall i, j | 0 <= i < j < |p|
        ensures Height(p[j]) < Height(p[i])
      {
        assert p[j] == q[j - 1];
        if i > 0 {
          assert p[i] == q[i - 1];
        } else {
          assert p[i] == t;
          if j > 1 {
            assert Height(q[j - 1]) < Height(q[0]);
          }
        }
      }
    }
  }

  lemma {:induction false} PathToTop(t: Tree, u: nat)
    requires u in Leaves(t)
    ensures PathTo(t, u)[0] == t
  {
  }

  /** The children of a node other than the one given: the `copath` loop of `update` skips
      the child on the path. */
  function OtherChildren(cs: seq<Tree>, c: Tree): (r: seq<Tree>)
    ensures forall x :: x in r <==> x in cs && x != c
    ensures |r| <= |cs|
    decreases |cs|
  {
    if cs == [] then []
    else (if cs[0] == c then [] else [cs[0]]) + OtherChildren(cs[1..], c)
  }

  /** A path is at most one node longer than the tree is high. */
  lemma {:induction false} PathLength(t: Tree, u: nat)
    ensures |PathTo(t, u)| <= Height(t) + 1
    decreases t
  {
    if u in Leaves(t) && !t.Leaf? {
      var c := NextOnPath(t, u);
      PathLength(c, u);
      HeightOfChild(t, c);
    }
  }

  /** A child is lower than its parent. */
  lemma {:induction false} HeightOfChild(t: Tree, c: Tree)
    requires c in Children(t)
    ensures Height(c) < Height(t)
  {
    if t.Multi? {
      var i :| 0 <= i < |t.children| && t.children[i] == c;
      HeightsMaxBound(t.children, i);
    }
  }

  lemma {:induction false} HeightsMaxBound(cs: seq<Tree>, i: nat)
    requires i < |cs|
    ensures Height(cs[i]) <= HeightsMax(cs)
    decreases |cs|
  {
    if i > 0 {
      assert cs[1..][i - 1] == cs[i];
      HeightsMaxBound(cs[1..], i - 1);
    }
  }
}
