/** `BTree` of trees.js (lines 153-253): the mutable B-tree of order m (`max = m`,
    `min = ceil(m / 2)`). Every leaf is at the same depth; an inner node has at most m
    children, the root at least 2 and any other inner node at least min. `addSibling` splits
    overflowing nodes upwards; `removeSelf` refills an underflowing node by borrowing from or
    merging into a sibling of it. The tree is a `Trees.Tree` made of `Leaf` and `Multi`
    nodes. The callbacks the operations are handed become the list of `Event`s they return. */
module MutableBTrees {
  import opened Utils
  import opened Trees

  /** `min = Math.ceil(m / 2)` */
  function MinChildren(m: nat): nat
  {
    (m + 1) / 2
  }

  /** A node at level h whose children number between lo and m, each a valid non-root node
      one level lower. */
  ghost predicate ValidBelow(t: Tree, h: nat, m: nat, lo: nat)
    decreases h, 0
  {
    if h == 0 then t.Leaf?
    else t.Multi? && lo <= |t.children| <= m && AllValid(t.children, h - 1, m)
  }

  /** Valid non-root nodes at level h. */
  ghost predicate AllValid(cs: seq<Tree>, h: nat, m: nat)
    decreases h, 1
  {
    forall i {:trigger ValidBelow(cs[i], h, m, MinChildren(m))} :: 0 <= i < |cs| ==> ValidBelow(cs[i], h, m, MinChildren(m))
  }

  /** The B-tree invariant at level h, for the root or for any other node. */
  ghost predicate ValidAt(t: Tree, h: nat, m: nat, isRoot: bool)
  {
    ValidBelow(t, h, m, if isRoot then 2 else MinChildren(m))
  }

  /** A valid tree's level is its height. */
  lemma {:induction false} ValidHeight(t: Tree, h: nat, m: nat, lo: nat)
    requires ValidBelow(t, h, m, lo) && lo >= 1 && m >= 1
    ensures Height(t) == h
    decreases h, 0, 0
  {
    if h > 0 {
      ValidHeights(t.children, h - 1, m);
    }
  }

  lemma {:induction false} ValidHeights(cs: seq<Tree>, h: nat, m: nat)
    requires AllValid(cs, h, m) && cs != [] && m >= 1
    ensures HeightsMax(cs) == h
    decreases h, 1, |cs|
  {
    ValidHeight(cs[0], h, m, MinChildren(m));
    if |cs| > 1 {
      assert AllValid(cs[1..], h, m) by {
        assert forall i :: 0 <= i < |cs[1..]| ==> cs[1..][i] == cs[i + 1];
      }
      ValidHeights(cs[1..], h, m);
    }
  }

  /** The invariant of a whole tree. */
  ghost predicate Valid(t: Tree, m: nat)
  {
    ValidAt(t, Height(t), m, true)
  }

  /** The users of the leaves, counted with their multiplicity. */
  function Bag(t: Tree): multiset<nat>
    decreases t, 1
  {
    match t
    case Leaf(u) => multiset{u}
    case Bin(_, l, r, _) => Bag(l) + Bag(r)
    case Multi(_, cs) => BagOf(cs)
  }

  function BagOf(cs: seq<Tree>): multiset<nat>
    decreases cs, 0
  {
    if cs == [] then multiset{} else Bag(cs[0]) + BagOf(cs[1..])
  }

  /** The bag of a tree holds its leaves. */
  lemma {:induction false} BagIsLeaves(t: Tree)
    ensures Bag(t) == multiset(Leaves(t))
    decreases t, 1
  {
    match t
    case Leaf(_) =>
    case Bin(_, l, r, _) =>
      BagIsLeaves(l);
      BagIsLeaves(r);
    case Multi(_, cs) =>
      BagOfIsLeaves(cs);
  }

  lemma {:induction false} BagOfIsLeaves(cs: seq<Tree>)
    ensures BagOf(cs) == multiset(LeavesOf(cs))
    decreases cs, 0
  {
    if cs != [] {
      BagIsLeaves(cs[0]);
      BagOfIsLeaves(cs[1..]);
    }
  }

  lemma {:induction false} BagAppend(a: seq<Tree>, b: seq<Tree>)
    ensures BagOf(a + b) == BagOf(a) + BagOf(b)
    decreases |a|
  {
    if a == [] {
      assert a + b == b;
    } else {
      assert (a + b)[0] == a[0] && (a + b)[1..] == a[1..] + b;
      BagAppend(a[1..], b);
    }
  }

  lemma {:induction false} BagOne(c: Tree)
    ensures BagOf([c]) == Bag(c)
  {
    assert [c][1..] == [];
  }

  lemma {:induction false} BagWithout(cs: seq<Tree>, i: nat)
    requires i < |cs|
    ensures BagOf(Without(cs, i)) + Bag(cs[i]) == BagOf(cs)
  {
    assert cs == cs[..i] + [cs[i]] + cs[i + 1..];
    BagAppend(cs[..i] + [cs[i]], cs[i + 1..]);
    BagAppend(cs[..i], [cs[i]]);
    BagAppend(cs[..i], cs[i + 1..]);
    BagOne(cs[i]);
  }

  lemma {:induction false} BagUpdate(cs: seq<Tree>, i: nat, c: Tree)
    requires i < |cs|
    ensures BagOf(cs[i := c]) + Bag(cs[i]) == BagOf(cs) + Bag(c)
  {
    BagWithout(cs, i);
    BagWithout(cs[i := c], i);
    assert Without(cs[i := c], i) == Without(cs, i);
  }

  lemma {:induction false} BagSplit(cs: seq<Tree>, n: nat)
    requires n <= |cs|
    ensures BagOf(cs[..n]) + BagOf(cs[n..]) == BagOf(cs)
  {
    assert cs == cs[..n] + cs[n..];
    BagAppend(cs[..n], cs[n..]);
  }

  /** Valid children stay valid when some are dropped, reordered or added. */
  lemma {:induction false} AllValidWithout(cs: seq<Tree>, i: nat, h: nat, m: nat)
    requires AllValid(cs, h, m) && i < |cs|
    ensures AllValid(Without(cs, i), h, m)
  {
  }

  lemma {:induction false} AllValidAppend(a: seq<Tree>, b: seq<Tree>, h: nat, m: nat)
    requires AllValid(a, h, m) && AllValid(b, h, m)
    ensures AllValid(a + b, h, m)
  {
    assert forall i :: 0 <= i < |a + b| ==> (a + b)[i] == if i < |a| then a[i] else b[i - |a|];
  }

  lemma {:induction false} AllValidSlices(cs: seq<Tree>, n: nat, h: nat, m: nat)
    requires AllValid(cs, h, m) && n <= |cs|
    ensures AllValid(cs[..n], h, m) && AllValid(cs[n..], h, m)
  {
    assert forall i :: 0 <= i < |cs[n..]| ==> cs[n..][i] == cs[n + i];
  }

  /** What an insertion below a node hands to the node above: the node rebuilt, or the node
      split in two (the part keeping its name first). */
  datatype Grown = Fits(node: Tree) | Split(stay: Tree, move: Tree)

  datatype InsResult = InsResult(grown: Grown, next: nat, events: seq<Event>)

  /** The overflow step of `addSibling` at the node k with the children it now has: with more
      than m the node keeps the first min and a new node (numbered `next`) takes the rest,
      after which `onRemoveChild(node, grandparent, ...moved)` is called. */
  function Overflow(k: nat, cs: seq<Tree>, m: nat, next: nat, up: Option<Ref>): (r: InsResult)
    requires m >= 3 && |cs| <= m + 1
    ensures r.next == if |cs| > m then next + 1 else next
    ensures |cs| <= m ==> r.grown == Fits(Multi(k, cs)) && r.events == []
    ensures |cs| > m ==> r.grown.Split? && r.grown.stay == Multi(k, cs[..MinChildren(m)]) &&
                         r.grown.move == Multi(next, cs[MinChildren(m)..])
  {
    if |cs| > m then
      var min := MinChildren(m);
      InsResult(Split(Multi(k, cs[..min]), Multi(next, cs[min..])), next + 1,
                [RemovedChildren(Inner(k), up, RefsOf(cs[min..]), RefsOf(cs[..min]))])
    else
      InsResult(Fits(Multi(k, cs)), next, [])
  }

  /** The nodes an insertion hands up. */
  function Handed(g: Grown): (ns: seq<Tree>)
    ensures g.Fits? ==> ns == [g.node]
    ensures g.Split? ==> ns == [g.stay, g.move]
  {
    match g
    case Fits(n) => [n]
    case Split(a, b) => [a, b]
  }

  /** What a valid insertion hands up: a node at level h with one more leaf, u, or two
      valid non-root nodes at level h whose leaves together are those plus u. */
  ghost predicate GrownWell(g: Grown, h: nat, m: nat, isRoot: bool, before: multiset<nat>, u: nat)
  {
    (forall i :: 0 <= i < |Handed(g)| ==> ValidBelow(Handed(g)[i], h, m, if g.Fits? && isRoot then 2 else MinChildren(m)))
    && BagOf(Handed(g)) == before + multiset{u}
  }

  lemma {:induction false} BagPair(a: Tree, b: Tree)
    ensures BagOf([a, b]) == Bag(a) + Bag(b)
  {
    SplitChildBag([], a, b);
    assert [] + [a, b] == [a, b];
  }

  /** The overflow step keeps the invariant: the children are m + 1 at most, and a split
      leaves min children in the old node and m + 1 - min >= min in the new one. */
  lemma {:induction false} OverflowValid(k: nat, cs: seq<Tree>, h: nat, m: nat, isRoot: bool, next: nat, up: Option<Ref>,
                                        before: multiset<nat>, u: nat)
    requires m >= 3 && h >= 1 && AllValid(cs, h - 1, m)
    requires (if isRoot then 2 else MinChildren(m)) <= |cs| <= m + 1
    requires BagOf(cs) == before + multiset{u}
    ensures GrownWell(Overflow(k, cs, m, next, up).grown, h, m, isRoot, before, u)
  {
    if |cs| > m {
      OverflowSplits(k, cs, h, m, next, before, u);
    } else {
      var g := Fits(Multi(k, cs));
      BagOne(g.node);
      assert ValidBelow(Handed(g)[0], h, m, if isRoot then 2 else MinChildren(m));
    }
  }

  lemma {:induction false} OverflowSplits(k: nat, cs: seq<Tree>, h: nat, m: nat, next: nat, before: multiset<nat>, u: nat)
    requires m >= 3 && h >= 1 && AllValid(cs, h - 1, m) && |cs| == m + 1
    requires BagOf(cs) == before + multiset{u}
    ensures GrownWell(Split(Multi(k, cs[..MinChildren(m)]), Multi(next, cs[MinChildren(m)..])), h, m, false, before, u)
  {
    var min := MinChildren(m);
    var g := Split(Multi(k, cs[..min]), Multi(next, cs[min..]));
    AllValidSlices(cs, min, h - 1, m);
    assert ValidBelow(g.stay, h, m, min) && ValidBelow(g.move, h, m, min);
    forall j | 0 <= j < |Handed(g)|
      ensures ValidBelow(Handed(g)[j], h, m, min)
    {
    }
    BagSplit(cs, min);
    BagPair(g.stay, g.move);
  }

  /** Some node of t ends its children with the leaf of x followed by the leaf of u: where
      `addSibling` puts the new leaf (trees.js:170-171). */
  predicate PlacedAfter(t: Tree, x: nat, u: nat)
    decreases t
  {
    t.Multi? &&
    ((|t.children| >= 2 && t.children[|t.children| - 2..] == [Leaf(x), Leaf(u)]) ||
     exists i :: 0 <= i < |t.children| && PlacedAfter(t.children[i], x, u))
  }

  /** One of the nodes an insertion hands up holds the placement. */
  predicate GrownPlaced(g: Grown, x: nat, u: nat)
  {
    exists j :: 0 <= j < |Handed(g)| && PlacedAfter(Handed(g)[j], x, u)
  }

  /** The overflow step keeps a placement found among the children: the node holding it
      stays, or moves to the new node. */
  lemma {:induction false} OverflowPlaced(k: nat, cs: seq<Tree>, m: nat, next: nat, up: Option<Ref>, j: nat, x: nat, u: nat)
    requires m >= 3 && |cs| <= m + 1 && j < |cs| && PlacedAfter(cs[j], x, u)
    ensures GrownPlaced(Overflow(k, cs, m, next, up).grown, x, u)
  {
    var g := Overflow(k, cs, m, next, up).grown;
    var min := MinChildren(m);
    if |cs| > m {
      if j < min {
        assert g.stay.children[j] == cs[j];
        assert PlacedAfter(Handed(g)[0], x, u);
      } else {
        assert g.move.children[j - min] == cs[j];
        assert PlacedAfter(Handed(g)[1], x, u);
      }
    } else {
      assert g.node.children[j] == cs[j];
      assert PlacedAfter(Handed(g)[0], x, u);
    }
  }

  /** Children ending with the leaves of x and u keep them last through the overflow step:
      the new node takes at least the last two. */
  lemma {:induction false} OverflowPlacedLast(k: nat, cs: seq<Tree>, m: nat, next: nat, up: Option<Ref>, x: nat, u: nat)
    requires m >= 3 && 2 <= |cs| <= m + 1 && cs[|cs| - 2..] == [Leaf(x), Leaf(u)]
    ensures GrownPlaced(Overflow(k, cs, m, next, up).grown, x, u)
  {
    var g := Overflow(k, cs, m, next, up).grown;
    if |cs| > m {
      var mv := cs[MinChildren(m)..];
      assert mv[|mv| - 2..] == cs[|cs| - 2..];
      assert PlacedAfter(Handed(g)[1], x, u);
    } else {
      assert PlacedAfter(Handed(g)[0], x, u);
    }
  }

  /** Absorbing a child result that holds the placement keeps it. */
  lemma {:induction false} AbsorbPlaced(k: nat, cs: seq<Tree>, i: nat, below: InsResult, m: nat, up: Option<Ref>, x: nat, u: nat)
    requires m >= 3 && i < |cs| && |cs| <= m && GrownPlaced(below.grown, x, u)
    ensures GrownPlaced(Absorb(k, cs, i, below, m, up).grown, x, u)
  {
    var j :| 0 <= j < |Handed(below.grown)| && PlacedAfter(Handed(below.grown)[j], x, u);
    match below.grown
    case Fits(c) =>
      var n := Multi(k, cs[i := c]);
      assert n.children[i] == c;
      assert PlacedAfter(Handed(Fits(n))[0], x, u);
    case Split(a, b) =>
      var cs' := Without(cs, i) + [a, b];
      assert cs'[|cs'| - 2] == a && cs'[|cs'| - 1] == b;
      OverflowPlaced(k, cs', m, below.next, up, |cs'| - 2 + j, x, u);
  }

  /** A placement means both users have leaves there. */
  lemma {:induction false} PlacedHolds(t: Tree, x: nat, u: nat)
    requires PlacedAfter(t, x, u)
    ensures x in Leaves(t) && u in Leaves(t)
    decreases t
  {
    var cs := t.children;
    if |cs| >= 2 && cs[|cs| - 2..] == [Leaf(x), Leaf(u)] {
      assert cs[|cs| - 2] == Leaf(x) && cs[|cs| - 1] == Leaf(u);
      InLeavesOf(cs, x);
      InLeavesOf(cs, u);
    } else {
      var i :| 0 <= i < |cs| && PlacedAfter(cs[i], x, u);
      PlacedHolds(cs[i], x, u);
      InLeavesOf(cs, x);
      InLeavesOf(cs, u);
    }
  }

  /** Two different children hold leaves of the node between them. */
  lemma {:induction false} BagOfTwo(cs: seq<Tree>, j: nat, l: nat)
    requires j < |cs| && l < |cs| && j != l
    ensures Bag(cs[j]) + Bag(cs[l]) <= BagOf(cs)
  {
    BagWithout(cs, j);
    var w := Without(cs, j);
    var l' := if l < j then l else l - 1;
    assert w[l'] == cs[l];
    BagWithout(w, l');
  }

  /** A user with one leaf is below exactly one child: the first that holds it. */
  lemma {:induction false} OnlyChildWith(t: Tree, j: nat, u: nat)
    requires t.Multi? && j < |t.children| && u in Leaves(t.children[j])
    requires multiset(Leaves(t))[u] == 1
    ensures u in LeavesOf(t.children) && ChildWith(t.children, u) == j
    ensures multiset(Leaves(t.children[j]))[u] == 1
  {
    var cs := t.children;
    InLeavesOf(cs, u);
    BagIsLeaves(t);
    BagIsLeaves(cs[j]);
    var c := ChildWith(cs, u);
    if c != j {
      BagOfTwo(cs, j, c);
      BagIsLeaves(cs[c]);
      assert false;
    }
    BagWithout(cs, j);
  }

  /** The node above u's leaf (the parent on the path from the root) ends its children with
      the leaf of x and then u's. */
  predicate ParentEndsWith(t: Tree, x: nat, u: nat)
  {
    var q := PathTo(t, u);
    |q| >= 2 && var cs := Children(q[|q| - 2]);
    |cs| >= 2 && cs[|cs| - 2..] == [Leaf(x), Leaf(u)]
  }

  /** With one leaf of u, the placement is that of the node above u's leaf: its children end
      with x's leaf and then u's. */
  lemma {:induction false} PlacedAfterIsParent(t: Tree, x: nat, u: nat)
    requires PlacedAfter(t, x, u) && multiset(Leaves(t))[u] == 1
    ensures ParentEndsWith(t, x, u)
    decreases t
  {
    var cs := t.children;
    if |cs| >= 2 && cs[|cs| - 2..] == [Leaf(x), Leaf(u)] {
      PlacedHere(t, x, u);
    } else {
      var i :| 0 <= i < |cs| && PlacedAfter(cs[i], x, u);
      PlacedHolds(cs[i], x, u);
      OnlyChildWith(t, i, u);
      PlacedAfterIsParent(cs[i], x, u);
      ParentLifted(t, i, x, u);
    }
  }

  /** The placement at t itself: t is the node above u's leaf. */
  lemma {:induction false} PlacedHere(t: Tree, x: nat, u: nat)
    requires t.Multi? && |t.children| >= 2 && t.children[|t.children| - 2..] == [Leaf(x), Leaf(u)]
    requires multiset(Leaves(t))[u] == 1
    ensures ParentEndsWith(t, x, u)
  {
    var cs := t.children;
    assert cs[|cs| - 1] == Leaf(u);
    OnlyChildWith(t, |cs| - 1, u);
    assert PathTo(Leaf(u), u) == [Leaf(u)];
    assert PathTo(t, u) == [t, Leaf(u)];
  }

  /** The path to u goes through the child holding it, so the node above u's leaf is the same
      seen from t. */
  lemma {:induction false} ParentLifted(t: Tree, i: nat, x: nat, u: nat)
    requires t.Multi? && i < |t.children| && u in LeavesOf(t.children) && ChildWith(t.children, u) == i
    requires ParentEndsWith(t.children[i], x, u)
    ensures ParentEndsWith(t, x, u)
  {
    var q' := PathTo(t.children[i], u);
    var q := PathTo(t, u);
    assert q == [t] + q';
    assert q[|q| - 2] == q'[|q'| - 2];
  }

  /** `addSibling(leaf)` below the node t at level h, for the leaf of x somewhere under t:
      the parent of x moves x to the end of its children followed by the new leaf of u;
      every node that then has more than m children splits, the new half becoming the next
      sibling of the old one after it is moved to the end of its own parent's children. The
      leaves grow by u and the invariant holds again. */
  method Insert(t: Tree, h: nat, m: nat, isRoot: bool, x: nat, u: nat, next: nat, up: Option<Ref>) returns (r: InsResult)
    requires m >= 3 && h >= 1 && ValidAt(t, h, m, isRoot) && x in Leaves(t)
    ensures r.next >= next
    ensures GrownWell(r.grown, h, m, isRoot, Bag(t), u)
    ensures r.grown.Fits? ==> RefOf(r.grown.node) == RefOf(t)
    ensures r.grown.Split? ==> RefOf(r.grown.stay) == RefOf(t)
    ensures GrownPlaced(r.grown, x, u)
    decreases h
  {
    var cs := t.children;
    var i := ChildWith(cs, x);
    assert AllValid(cs, h - 1, m) && Bag(t) == BagOf(cs);
    if cs[i].Leaf? {
      LeafAddedValid(cs, i, h - 1, m, u);
      OverflowValid(t.k, Without(cs, i) + [cs[i], Leaf(u)], h, m, isRoot, next, up, Bag(t), u);
      var cs' := Without(cs, i) + [cs[i], Leaf(u)];
      assert cs[i] == Leaf(x) && cs'[|cs'| - 2..] == [Leaf(x), Leaf(u)];
      OverflowPlacedLast(t.k, cs', m, next, up, x, u);
      r := Overflow(t.k, cs', m, next, up);
    } else {
      assert ValidBelow(cs[i], h - 1, m, MinChildren(m));
      var below := Insert(cs[i], h - 1, m, false, x, u, next, Some(Inner(t.k)));
      AbsorbWell(t.k, cs, i, below, h, m, isRoot, up, u);
      AbsorbPlaced(t.k, cs, i, below, m, up, x, u);
      r := Absorb(t.k, cs, i, below, m, up);
    }
  }

  /** The node k takes what its i-th child handed up: the child rebuilt in its place, or the
      child's two halves moved to the end, which may overflow k in turn. */
  function Absorb(k: nat, cs: seq<Tree>, i: nat, below: InsResult, m: nat, up: Option<Ref>): (r: InsResult)
    requires m >= 3 && i < |cs| && |cs| <= m
    ensures r.next >= below.next
    ensures r.grown.Fits? ==> RefOf(r.grown.node) == Inner(k)
    ensures r.grown.Split? ==> RefOf(r.grown.stay) == Inner(k)
  {
    match below.grown
    case Fits(c) => InsResult(Fits(Multi(k, cs[i := c])), below.next, below.events)
    case Split(a, b) =>
      var o := Overflow(k, Without(cs, i) + [a, b], m, below.next, up);
      InsResult(o.grown, o.next, below.events + o.events)
  }

  /** Absorbing a valid child result keeps the node valid and its leaves grown by u. */
  lemma {:induction false} AbsorbWell(k: nat, cs: seq<Tree>, i: nat, below: InsResult, h: nat, m: nat, isRoot: bool,
                                     up: Option<Ref>, u: nat)
    requires m >= 3 && h >= 1 && i < |cs| && AllValid(cs, h - 1, m)
    requires (if isRoot then 2 else MinChildren(m)) <= |cs| <= m
    requires GrownWell(below.grown, h - 1, m, false, Bag(cs[i]), u)
    ensures GrownWell(Absorb(k, cs, i, below, m, up).grown, h, m, isRoot, BagOf(cs), u)
  {
    match below.grown
    case Fits(c) =>
      ChildReplacedValid(cs, i, below.grown, h - 1, m, u);
      OverflowValid(k, cs[i := c], h, m, isRoot, below.next, up, BagOf(cs), u);
    case Split(a, b) =>
      ChildSplitValid(cs, i, below.grown, h - 1, m, u);
      OverflowValid(k, Without(cs, i) + [a, b], h, m, isRoot, below.next, up, BagOf(cs), u);
  }

  /** Adding u to one of two equal bags of leaves. */
  lemma {:induction false} BagCancel(a: multiset<nat>, b: multiset<nat>, c: multiset<nat>, d: multiset<nat>, u: nat)
    requires a + c == b + d && d == c + multiset{u}
    ensures a == b + multiset{u}
  {
    assert forall x :: a[x] == (a + c)[x] - c[x];
  }

  /** The parent of x gains the leaf of u: its children are still valid, one more, and
      hold u besides. */
  lemma {:induction false} LeafAddedValid(cs: seq<Tree>, i: nat, h: nat, m: nat, u: nat)
    requires AllValid(cs, h, m) && i < |cs| && cs[i].Leaf?
    ensures AllValid(Without(cs, i) + [cs[i], Leaf(u)], h, m)
    ensures BagOf(Without(cs, i) + [cs[i], Leaf(u)]) == BagOf(cs) + multiset{u}
  {
    assert ValidBelow(cs[i], h, m, MinChildren(m));
    assert h == 0;
    AllValidWithout(cs, i, h, m);
    assert AllValid([cs[i], Leaf(u)], h, m);
    AllValidAppend(Without(cs, i), [cs[i], Leaf(u)], h, m);
    BagWithout(cs, i);
    InsertedLeafBag(Without(cs, i), cs[i], u);
  }

  /** A child that absorbed the new leaf replaces the old one. */
  lemma {:induction false} ChildReplacedValid(cs: seq<Tree>, i: nat, g: Grown, h: nat, m: nat, u: nat)
    requires AllValid(cs, h, m) && i < |cs|
    requires g.Fits? && GrownWell(g, h, m, false, Bag(cs[i]), u)
    ensures AllValid(cs[i := g.node], h, m)
    ensures BagOf(cs[i := g.node]) == BagOf(cs) + multiset{u}
  {
    var cs' := cs[i := g.node];
    assert ValidBelow(Handed(g)[0], h, m, MinChildren(m));
    forall j | 0 <= j < |cs'|
      ensures ValidBelow(cs'[j], h, m, MinChildren(m))
    {
      if j != i {
        assert cs'[j] == cs[j];
      }
    }
    BagUpdate(cs, i, g.node);
    BagOne(g.node);
    BagCancel(BagOf(cs'), BagOf(cs), Bag(cs[i]), Bag(g.node), u);
  }

  /** A child that split is replaced by its two halves, at the end of the children. */
  lemma {:induction false} ChildSplitValid(cs: seq<Tree>, i: nat, g: Grown, h: nat, m: nat, u: nat)
    requires AllValid(cs, h, m) && i < |cs|
    requires g.Split? && GrownWell(g, h, m, false, Bag(cs[i]), u)
    ensures AllValid(Without(cs, i) + [g.stay, g.move], h, m)
    ensures BagOf(Without(cs, i) + [g.stay, g.move]) == BagOf(cs) + multiset{u}
  {
    var a, b := g.stay, g.move;
    AllValidWithout(cs, i, h, m);
    assert ValidBelow(Handed(g)[0], h, m, MinChildren(m)) && ValidBelow(Handed(g)[1], h, m, MinChildren(m));
    assert AllValid([a, b], h, m);
    AllValidAppend(Without(cs, i), [a, b], h, m);
    BagWithout(cs, i);
    SplitChildBag(Without(cs, i), a, b);
    BagPair(a, b);
    BagCancel(BagOf(Without(cs, i) + [a, b]), BagOf(cs), Bag(cs[i]), Bag(a) + Bag(b), u);
  }

  lemma {:induction false} InsertedLeafBag(rest: seq<Tree>, c: Tree, u: nat)
    ensures BagOf(rest + [c, Leaf(u)]) == BagOf(rest) + Bag(c) + multiset{u}
  {
    BagAppend(rest, [c, Leaf(u)]);
    assert [c, Leaf(u)] == [c] + [Leaf(u)];
    BagAppend([c], [Leaf(u)]);
    BagOne(c);
    BagOne(Leaf(u));
  }

  lemma {:induction false} SplitChildBag(rest: seq<Tree>, a: Tree, b: Tree)
    ensures BagOf(rest + [a, b]) == BagOf(rest) + Bag(a) + Bag(b)
  {
    BagAppend(rest, [a, b]);
    assert [a, b] == [a] + [b];
    BagAppend([a], [b]);
    BagOne(a);
    BagOne(b);
  }

  /** What `add` (`addSibling` from the leaf of x) leaves: the root, the next free node
      number and the callbacks made. */
  datatype Outcome = Outcome(root: Tree, next: nat, events: seq<Event>)

  /** `add(leaf, hint)` in the 'greedy' position: `addSibling` from the leaf of x, the hint.
      A lone leaf and a root that splits get a new root above them (numbered from `next`).
      A valid B-tree stays valid, gains exactly the leaf of u, and grows by one level at
      most. */
  method AddSibling(t: Tree, m: nat, x: nat, u: nat, next: nat) returns (r: Outcome)
    requires m >= 3 && Valid(t, m) && x in Leaves(t)
    ensures Valid(r.root, m)
    ensures multiset(Leaves(r.root)) == multiset(Leaves(t)) + multiset{u}
    ensures Height(r.root) == Height(t) || Height(r.root) == Height(t) + 1
    ensures r.next >= next
    ensures PlacedAfter(r.root, x, u)
    ensures u !in Leaves(t) ==> ParentEndsWith(r.root, x, u)
  {
    BagIsLeaves(t);
    if t.Leaf? {
      r := Outcome(Multi(next, [t, Leaf(u)]), next + 1, []);
      LoneLeafRooted(t, m, x, u, next);
    } else {
      var h := Height(t);
      var ins := Insert(t, h, m, true, x, u, next, None);
      match ins.grown
      case Fits(n) =>
        r := Outcome(n, ins.next, ins.events);
        FitsRooted(ins.grown, h, m, Bag(t), x, u);
      case Split(a, b) =>
        r := Outcome(Multi(ins.next, [a, b]), ins.next + 1, ins.events);
        SplitRooted(ins.grown, h, m, Bag(t), x, u, ins.next);
    }
    BagIsLeaves(r.root);
    PlacedParent(t, r.root, x, u);
  }

  /** A lone leaf gets a new root above it and the new leaf. */
  lemma {:induction false} LoneLeafRooted(t: Tree, m: nat, x: nat, u: nat, next: nat)
    requires m >= 3 && t.Leaf? && x in Leaves(t)
    ensures var root := Multi(next, [t, Leaf(u)]);
            Valid(root, m) && Height(root) == 1 && PlacedAfter(root, x, u) &&
            Bag(root) == Bag(t) + multiset{u}
  {
    var root := Multi(next, [t, Leaf(u)]);
    assert root.children[0..] == [Leaf(x), Leaf(u)];
    BagPair(t, Leaf(u));
    assert AllValid([t, Leaf(u)], 0, m) by {
      assert ValidBelow([t, Leaf(u)][0], 0, m, MinChildren(m)) && ValidBelow([t, Leaf(u)][1], 0, m, MinChildren(m));
    }
    ValidHeight(root, 1, m, 2);
  }

  /** A root that absorbed the new leaf stays the root. */
  lemma {:induction false} FitsRooted(g: Grown, h: nat, m: nat, before: multiset<nat>, x: nat, u: nat)
    requires m >= 3 && h >= 1 && g.Fits? && GrownWell(g, h, m, true, before, u) && GrownPlaced(g, x, u)
    ensures Valid(g.node, m) && Height(g.node) == h && PlacedAfter(g.node, x, u) &&
            Bag(g.node) == before + multiset{u}
  {
    assert PlacedAfter(Handed(g)[0], x, u);
    BagOne(g.node);
    assert ValidBelow(Handed(g)[0], h, m, 2);
    ValidHeight(g.node, h, m, 2);
  }

  /** A root that split gets a new root above its two halves. */
  lemma {:induction false} SplitRooted(g: Grown, h: nat, m: nat, before: multiset<nat>, x: nat, u: nat, k: nat)
    requires m >= 3 && h >= 1 && g.Split? && GrownWell(g, h, m, true, before, u) && GrownPlaced(g, x, u)
    ensures var root := Multi(k, [g.stay, g.move]);
            Valid(root, m) && Height(root) == h + 1 && PlacedAfter(root, x, u) &&
            Bag(root) == before + multiset{u}
  {
    var a, b := g.stay, g.move;
    var root := Multi(k, [a, b]);
    var j :| 0 <= j < 2 && PlacedAfter(Handed(g)[j], x, u);
    assert root.children[j] == Handed(g)[j];
    BagPair(a, b);
    assert ValidBelow(Handed(g)[0], h, m, MinChildren(m)) && ValidBelow(Handed(g)[1], h, m, MinChildren(m));
    assert AllValid([a, b], h, m) by {
      assert ValidBelow([a, b][0], h, m, MinChildren(m)) && ValidBelow([a, b][1], h, m, MinChildren(m));
    }
    ValidHeight(root, h + 1, m, 2);
  }

  /** A tree that gained u beside x, where u was not before, has u's leaf right after x's. */
  lemma {:induction false} PlacedParent(t: Tree, root: Tree, x: nat, u: nat)
    requires PlacedAfter(root, x, u)
    requires multiset(Leaves(root)) == multiset(Leaves(t)) + multiset{u}
    ensures u !in Leaves(t) ==> ParentEndsWith(root, x, u)
  {
    if u !in Leaves(t) {
      assert multiset(Leaves(root))[u] == 1;
      PlacedAfterIsParent(root, x, u);
    }
  }

  /** The first child with more than `min` children, from `from` on: where `removeSelf`
      borrows a child. */
  function FirstRich(cs: seq<Tree>, min: nat, from: nat): (j: Option<nat>)
    requires from <= |cs|
    ensures j.Some? ==> from <= j.value < |cs| && |Children(cs[j.value])| > min
    ensures j.Some? ==> forall l :: from <= l < j.value ==> |Children(cs[l])| <= min
    ensures j.None? ==> forall l :: from <= l < |cs| ==> |Children(cs[l])| <= min
    decreases |cs| - from
  {
    if from == |cs| then None
    else if |Children(cs[from])| > min then Some(from)
    else FirstRich(cs, min, from + 1)
  }

  /** The first child other than the i-th whose children and those of the i-th number at
      most m together, from `from` on: where `removeSelf` merges the underfull node. */
  function FirstMergeable(cs: seq<Tree>, i: nat, m: nat, from: nat): (j: Option<nat>)
    requires i < |cs| && from <= |cs|
    ensures j.Some? ==> from <= j.value < |cs| && j.value != i && |Children(cs[j.value])| + |Children(cs[i])| <= m
    ensures j.Some? ==> forall l :: from <= l < j.value && l != i ==> |Children(cs[l])| + |Children(cs[i])| > m
    ensures j.None? ==> forall l :: from <= l < |cs| && l != i ==> |Children(cs[l])| + |Children(cs[i])| > m
    decreases |cs| - from
  {
    if from == |cs| then None
    else if from != i && |Children(cs[from])| + |Children(cs[i])| <= m then Some(from)
    else FirstMergeable(cs, i, m, from + 1)
  }

  datatype Refilled = Refilled(children: seq<Tree>, events: seq<Event>)

  /** A node without its last child, and that child. */
  function Popped(t: Tree): Tree
    requires t.Multi? && |t.children| >= 1
  {
    Multi(t.k, t.children[..|t.children| - 1])
  }

  function LastChild(t: Tree): Tree
    requires t.Multi? && |t.children| >= 1
  {
    t.children[|t.children| - 1]
  }

  /** A node with c pushed after its children. */
  function Pushed(t: Tree, c: Tree): Tree
    requires t.Multi?
  {
    Multi(t.k, t.children + [c])
  }

  /** The node t with the children of c appended. */
  function Merged(t: Tree, c: Tree): Tree
    requires t.Multi? && c.Multi?
  {
    Multi(t.k, t.children + c.children)
  }

  /** The underfull i-th child takes the last child of the j-th. */
  function Borrow(cs: seq<Tree>, i: nat, j: nat): (r: seq<Tree>)
    requires i < |cs| && j < |cs| && i != j && cs[i].Multi? && cs[j].Multi? && |cs[j].children| >= 1
    ensures |r| == |cs|
  {
    cs[j := Popped(cs[j])][i := Pushed(cs[i], LastChild(cs[j]))]
  }

  /** The j-th child takes the children of the underfull i-th, which is dropped. */
  function Merge(cs: seq<Tree>, i: nat, j: nat): (r: seq<Tree>)
    requires i < |cs| && j < |cs| && i != j && cs[i].Multi? && cs[j].Multi?
    ensures |r| == |cs| - 1
  {
    Without(cs[j := Merged(cs[j], cs[i])], i)
  }

  /** The repair `removeSelf` makes at the node k when its i-th child has fewer than min
      children: move the last child of the first child with more than min to the end of
      the underfull one, and `onRemoveChild(p, node, moved)`; failing that, append the
      underfull one's children to the first other child that can take them,
      `onAddChild(p, node, ...children)`, and drop it. One of the two always applies. */
  function Refill(k: nat, cs: seq<Tree>, i: nat, m: nat): (r: Refilled)
    requires m >= 3 && i < |cs| && |cs| >= 2
    requires forall j :: 0 <= j < |cs| ==> cs[j].Multi?
    requires |Children(cs[i])| < MinChildren(m)
    requires forall j :: 0 <= j < |cs| && j != i ==> |Children(cs[j])| >= MinChildren(m)
    ensures |r.children| == |cs| || |r.children| == |cs| - 1
  {
    match FirstRich(cs, MinChildren(m), 0)
    case Some(j) =>
      Refilled(Borrow(cs, i, j), [RemovedChildren(Inner(cs[j].k), Some(Inner(k)), [RefOf(LastChild(cs[j]))], RefsOf(Popped(cs[j]).children))])
    case None =>
      MergeExists(cs, i, m);
      var j := FirstMergeable(cs, i, m, 0).value;
      Refilled(Merge(cs, i, j), [AddedChildren(Inner(cs[j].k), Some(Inner(k)), RefsOf(cs[i].children), RefsOf(cs[j].children))])
  }

  /** With no child to borrow from, some other child can take the underfull one's children:
      it has exactly min, and min + (min - 1) <= m. */
  lemma {:induction false} MergeExists(cs: seq<Tree>, i: nat, m: nat)
    requires m >= 3 && i < |cs| && |cs| >= 2
    requires |Children(cs[i])| < MinChildren(m)
    requires forall j :: 0 <= j < |cs| && j != i ==> |Children(cs[j])| >= MinChildren(m)
    requires FirstRich(cs, MinChildren(m), 0).None?
    ensures FirstMergeable(cs, i, m, 0).Some?
  {
    var j := if i == 0 then 1 else 0;
    assert |Children(cs[j])| <= MinChildren(m);
    assert |Children(cs[j])| + |Children(cs[i])| <= m;
  }

  /** Children valid except the i-th. */
  ghost predicate ValidExcept(cs: seq<Tree>, i: nat, h: nat, m: nat)
  {
    forall j {:trigger ValidBelow(cs[j], h, m, MinChildren(m))} :: 0 <= j < |cs| && j != i ==> ValidBelow(cs[j], h, m, MinChildren(m))
  }

  /** Valid children, the i-th of which is underfull by one. */
  ghost predicate Underfull(cs: seq<Tree>, i: nat, h: nat, m: nat)
  {
    m >= 3 && h >= 1 && i < |cs| && ValidExcept(cs, i, h, m)
    && ValidBelow(cs[i], h, m, MinChildren(m) - 1) && |Children(cs[i])| < MinChildren(m)
  }

  /** A node above min keeps min or more after giving up its last child. */
  lemma {:induction false} PoppedWell(t: Tree, h: nat, m: nat)
    requires m >= 3 && h >= 1 && ValidBelow(t, h, m, MinChildren(m)) && |Children(t)| > MinChildren(m)
    ensures t.Multi? && ValidBelow(Popped(t), h, m, MinChildren(m)) && ValidBelow(LastChild(t), h - 1, m, MinChildren(m))
    ensures Bag(Popped(t)) + Bag(LastChild(t)) == Bag(t)
  {
    var d := t.children;
    var n := |d| - 1;
    AllValidSlices(d, n, h - 1, m);
    assert d[n..] == [d[n]];
    BagSplit(d, n);
    BagOne(d[n]);
  }

  /** An underfull node is back to min after taking one child. */
  lemma {:induction false} PushedWell(t: Tree, c: Tree, h: nat, m: nat)
    requires m >= 3 && h >= 1 && ValidBelow(t, h, m, MinChildren(m) - 1) && |Children(t)| < MinChildren(m)
    requires ValidBelow(c, h - 1, m, MinChildren(m))
    ensures t.Multi? && ValidBelow(Pushed(t, c), h, m, MinChildren(m)) && Bag(Pushed(t, c)) == Bag(t) + Bag(c)
  {
    assert AllValid([c], h - 1, m);
    AllValidAppend(t.children, [c], h - 1, m);
    BagAppend(t.children, [c]);
    BagOne(c);
  }

  /** Two nodes whose children number at most m together merge into a valid node. */
  lemma {:induction false} MergedWell(t: Tree, c: Tree, h: nat, m: nat)
    requires m >= 3 && h >= 1 && ValidBelow(t, h, m, MinChildren(m)) && ValidBelow(c, h, m, MinChildren(m) - 1)
    requires |Children(t)| + |Children(c)| <= m
    ensures t.Multi? && c.Multi? && ValidBelow(Merged(t, c), h, m, MinChildren(m)) && Bag(Merged(t, c)) == Bag(t) + Bag(c)
  {
    AllValidAppend(t.children, c.children, h - 1, m);
    BagAppend(t.children, c.children);
  }

  /** Two children replaced. */
  lemma {:induction false} BagUpdate2(cs: seq<Tree>, i: nat, j: nat, a: Tree, b: Tree)
    requires i < |cs| && j < |cs| && i != j
    ensures BagOf(cs[j := a][i := b]) + Bag(cs[i]) + Bag(cs[j]) == BagOf(cs) + Bag(a) + Bag(b)
  {
    BagUpdate(cs, j, a);
    BagUpdate(cs[j := a], i, b);
    assert cs[j := a][i] == cs[i];
  }

  lemma {:induction false} BorrowBag(x: multiset<nat>, y: multiset<nat>, ci: multiset<nat>, cj: multiset<nat>,
                                    p: multiset<nat>, q: multiset<nat>, l: multiset<nat>)
    requires x + ci + cj == y + p + q && p + l == cj && q == ci + l
    ensures x == y
  {
    forall e
      ensures x[e] == y[e]
    {
      assert (x + ci + cj)[e] == (y + p + q)[e] && (p + l)[e] == cj[e] && q[e] == (ci + l)[e];
    }
  }

  /** Borrowing keeps every child valid and the leaves where they were. */
  lemma {:induction false} BorrowWell(cs: seq<Tree>, i: nat, j: nat, h: nat, m: nat)
    requires Underfull(cs, i, h, m) && j < |cs| && j != i && |Children(cs[j])| > MinChildren(m)
    ensures cs[i].Multi? && cs[j].Multi?
    ensures AllValid(Borrow(cs, i, j), h, m) && BagOf(Borrow(cs, i, j)) == BagOf(cs)
  {
    PoppedWell(cs[j], h, m);
    var p, l := Popped(cs[j]), LastChild(cs[j]);
    PushedWell(cs[i], l, h, m);
    var q := Pushed(cs[i], l);
    var r := cs[j := p][i := q];
    forall o | 0 <= o < |r|
      ensures ValidBelow(r[o], h, m, MinChildren(m))
    {
      if o != i && o != j {
        assert r[o] == cs[o];
      }
    }
    BagUpdate2(cs, i, j, p, q);
    BorrowBag(BagOf(r), BagOf(cs), Bag(cs[i]), Bag(cs[j]), Bag(p), Bag(q), Bag(l));
  }

  lemma {:induction false} MergeBag(x: multiset<nat>, y: multiset<nat>, ci: multiset<nat>, cj: multiset<nat>, q: multiset<nat>)
    requires x + ci + cj == y + q && q == cj + ci
    ensures x == y
  {
    forall e
      ensures x[e] == y[e]
    {
      assert (x + ci + cj)[e] == (y + q)[e] && q[e] == (cj + ci)[e];
    }
  }

  /** Merging keeps every child valid and the leaves where they were. */
  lemma {:induction false} MergeWell(cs: seq<Tree>, i: nat, j: nat, h: nat, m: nat)
    requires Underfull(cs, i, h, m) && j < |cs| && j != i && |Children(cs[j])| + |Children(cs[i])| <= m
    ensures cs[i].Multi? && cs[j].Multi?
    ensures AllValid(Merge(cs, i, j), h, m) && BagOf(Merge(cs, i, j)) == BagOf(cs)
  {
    MergedWell(cs[j], cs[i], h, m);
    var q := Merged(cs[j], cs[i]);
    var cs1 := cs[j := q];
    var r := Without(cs1, i);
    forall l | 0 <= l < |r|
      ensures ValidBelow(r[l], h, m, MinChildren(m))
    {
      var o := if l < i then l else l + 1;
      assert r[l] == cs1[o];
      if o != j {
        assert cs1[o] == cs[o];
      }
    }
    BagUpdate(cs, j, q);
    BagWithout(cs1, i);
    assert cs1[i] == cs[i];
    MergeBag(BagOf(r), BagOf(cs), Bag(cs[i]), Bag(cs[j]), Bag(q));
  }

  /** The repair leaves valid children and every leaf under one of them. */
  lemma {:induction false} RefillWell(k: nat, cs: seq<Tree>, i: nat, h: nat, m: nat)
    requires Underfull(cs, i, h, m) && |cs| >= 2
    requires forall j :: 0 <= j < |cs| ==> cs[j].Multi?
    requires forall j :: 0 <= j < |cs| && j != i ==> |Children(cs[j])| >= MinChildren(m)
    ensures AllValid(Refill(k, cs, i, m).children, h, m) && BagOf(Refill(k, cs, i, m).children) == BagOf(cs)
  {
    match FirstRich(cs, MinChildren(m), 0)
    case Some(j) =>
      BorrowWell(cs, i, j, h, m);
    case None =>
      MergeExists(cs, i, m);
      MergeWell(cs, i, FirstMergeable(cs, i, m, 0).value, h, m);
  }
  /** What deleting below a node hands up: the node rebuilt, possibly one child short of
      its minimum, and the callbacks made. */
  datatype Shrunk = Shrunk(node: Tree, events: seq<Event>)

  /** `removeSelf` on the leaf of x below the node t at level h: the parent of the leaf drops
      it; every node that falls below min children is then refilled by its own parent,
      which in the merge case loses a child in turn. The node handed up is valid but may be
      one child short, and has lost exactly the leaf of x. */
  method Delete(t: Tree, h: nat, m: nat, isRoot: bool, x: nat) returns (r: Shrunk)
    requires m >= 3 && h >= 1 && ValidAt(t, h, m, isRoot) && x in Leaves(t)
    ensures r.node.Multi? && RefOf(r.node) == RefOf(t)
    ensures ValidBelow(r.node, h, m, Least(m, isRoot) - 1)
    ensures Bag(r.node) + multiset{x} == Bag(t)
    decreases h
  {
    var cs := t.children;
    var i := ChildWith(cs, x);
    assert AllValid(cs, h - 1, m) && Bag(t) == BagOf(cs);
    if cs[i].Leaf? {
      LeafDropped(t.k, cs, i, h, m, isRoot, x);
      r := Shrunk(Multi(t.k, Without(cs, i)), []);
    } else {
      assert ValidBelow(cs[i], h - 1, m, MinChildren(m));
      var below := Delete(cs[i], h - 1, m, false, x);
      ChildrenAreNodes(cs, h - 1, m);
      SettleWell(t.k, cs, i, below, h, m, isRoot, x);
      r := Settle(t.k, cs, i, below, m);
    }
  }

  /** Inner children with min or more children each. */
  lemma {:induction false} ChildrenAreNodes(cs: seq<Tree>, h: nat, m: nat)
    requires AllValid(cs, h, m) && h >= 1
    ensures forall j :: 0 <= j < |cs| ==> cs[j].Multi? && |cs[j].children| >= MinChildren(m)
  {
    forall j | 0 <= j < |cs|
      ensures cs[j].Multi? && |cs[j].children| >= MinChildren(m)
    {
      assert ValidBelow(cs[j], h, m, MinChildren(m));
    }
  }

  /** The node k takes back its i-th child after a deletion below it, refilling the child
      when it is short. */
  function Settle(k: nat, cs: seq<Tree>, i: nat, below: Shrunk, m: nat): (r: Shrunk)
    requires m >= 3 && i < |cs| && |cs| >= 2 && below.node.Multi?
    requires forall j :: 0 <= j < |cs| ==> cs[j].Multi? && |cs[j].children| >= MinChildren(m)
    ensures r.node.Multi? && r.node.k == k
    ensures |r.node.children| + 1 >= |cs|
  {
    if |below.node.children| >= MinChildren(m) then Shrunk(Multi(k, cs[i := below.node]), below.events)
    else
      var f := Refill(k, cs[i := below.node], i, m);
      Shrunk(Multi(k, f.children), below.events + f.events)
  }

  /** The fewest children a node may have: 2 at the root, min elsewhere. */
  function Least(m: nat, isRoot: bool): nat
  {
    if isRoot then 2 else MinChildren(m)
  }

  /** The parent of the leaf of x drops it. */
  lemma {:induction false} LeafDropped(k: nat, cs: seq<Tree>, i: nat, h: nat, m: nat, isRoot: bool, x: nat)
    requires h >= 1 && AllValid(cs, h - 1, m) && Least(m, isRoot) <= |cs| <= m
    requires i < |cs| && cs[i].Leaf? && x in Leaves(cs[i])
    ensures ValidBelow(Multi(k, Without(cs, i)), h, m, Least(m, isRoot) - 1)
    ensures Bag(Multi(k, Without(cs, i))) + multiset{x} == BagOf(cs)
  {
    assert cs[i] == Leaf(x) && Bag(cs[i]) == multiset{x};
    AllValidWithout(cs, i, h - 1, m);
    BagWithout(cs, i);
  }

  /** A valid child in place of another. */
  lemma {:induction false} ReplaceValid(cs: seq<Tree>, i: nat, c: Tree, h: nat, m: nat)
    requires AllValid(cs, h, m) && i < |cs| && ValidBelow(c, h, m, MinChildren(m))
    ensures AllValid(cs[i := c], h, m)
  {
    var cs' := cs[i := c];
    forall j | 0 <= j < |cs'|
      ensures ValidBelow(cs'[j], h, m, MinChildren(m))
    {
      if j != i {
        assert cs'[j] == cs[j];
      }
    }
  }

  lemma {:induction false} DropBag(a: multiset<nat>, b: multiset<nat>, ci: multiset<nat>, c: multiset<nat>, x: nat)
    requires a + ci == b + c && ci == c + multiset{x}
    ensures a + multiset{x} == b
  {
    forall e
      ensures (a + multiset{x})[e] == b[e]
    {
      assert (a + ci)[e] == (b + c)[e] && ci[e] == (c + multiset{x})[e];
    }
  }

  /** Settling a child that lost the leaf of x keeps the node valid but for one child. */
  lemma {:induction false} SettleWell(k: nat, cs: seq<Tree>, i: nat, below: Shrunk, h: nat, m: nat, isRoot: bool, x: nat)
    requires m >= 3 && h >= 2 && i < |cs| && AllValid(cs, h - 1, m)
    requires Least(m, isRoot) <= |cs| <= m
    requires ValidBelow(below.node, h - 1, m, MinChildren(m) - 1) && Bag(below.node) + multiset{x} == Bag(cs[i])
    requires forall j :: 0 <= j < |cs| ==> cs[j].Multi? && |cs[j].children| >= MinChildren(m)
    ensures ValidBelow(Settle(k, cs, i, below, m).node, h, m, Least(m, isRoot) - 1)
    ensures Bag(Settle(k, cs, i, below, m).node) + multiset{x} == BagOf(cs)
  {
    var c := below.node;
    BagUpdate(cs, i, c);
    DropBag(BagOf(cs[i := c]), BagOf(cs), Bag(cs[i]), Bag(c), x);
    if |c.children| >= MinChildren(m) {
      KeptWell(k, cs, i, c, h, m, isRoot);
    } else {
      RefilledWell(k, cs, i, c, h, m, isRoot);
    }
  }

  /** A child that kept min children or more: the parent is as valid as before. */
  lemma {:induction false} KeptWell(k: nat, cs: seq<Tree>, i: nat, c: Tree, h: nat, m: nat, isRoot: bool)
    requires m >= 3 && h >= 2 && i < |cs| && AllValid(cs, h - 1, m)
    requires Least(m, isRoot) <= |cs| <= m
    requires ValidBelow(c, h - 1, m, MinChildren(m) - 1) && c.Multi? && |c.children| >= MinChildren(m)
    ensures ValidBelow(Multi(k, cs[i := c]), h, m, Least(m, isRoot) - 1)
  {
    assert ValidBelow(c, h - 1, m, MinChildren(m));
    ReplaceValid(cs, i, c, h - 1, m);
    NodeWell(k, cs[i := c], h, m, Least(m, isRoot) - 1);
  }

  /** A child left with too few children: after the refill the parent is valid, one child
      short at most, and holds the same leaves. */
  lemma {:induction false} RefilledWell(k: nat, cs: seq<Tree>, i: nat, c: Tree, h: nat, m: nat, isRoot: bool)
    requires m >= 3 && h >= 2 && i < |cs| && AllValid(cs, h - 1, m)
    requires Least(m, isRoot) <= |cs| <= m
    requires ValidBelow(c, h - 1, m, MinChildren(m) - 1) && c.Multi? && |c.children| < MinChildren(m)
    requires forall j :: 0 <= j < |cs| ==> cs[j].Multi? && |cs[j].children| >= MinChildren(m)
    ensures ValidBelow(Multi(k, Refill(k, cs[i := c], i, m).children), h, m, Least(m, isRoot) - 1)
    ensures BagOf(Refill(k, cs[i := c], i, m).children) == BagOf(cs[i := c])
  {
    var cs1 := cs[i := c];
    assert Underfull(cs1, i, h - 1, m) by {
      forall j | 0 <= j < |cs1| && j != i
        ensures ValidBelow(cs1[j], h - 1, m, MinChildren(m))
      {
        assert cs1[j] == cs[j];
      }
    }
    var f := Refill(k, cs1, i, m);
    RefillWell(k, cs1, i, h - 1, m);
    NodeWell(k, f.children, h, m, Least(m, isRoot) - 1);
  }

  /** A node over valid children, as many as its level allows. */
  lemma {:induction false} NodeWell(k: nat, cs: seq<Tree>, h: nat, m: nat, lo: nat)
    requires h >= 1 && AllValid(cs, h - 1, m) && lo <= |cs| <= m
    ensures ValidBelow(Multi(k, cs), h, m, lo) && Bag(Multi(k, cs)) == BagOf(cs)
  {
  }

  /** What `remove` (`removeSelf` on the leaf of x) leaves: the root and the callbacks made. */
  datatype Removed = Removed(root: Tree, events: seq<Event>)

  /** `remove(leaf)`: `removeSelf` from the root down; the root is replaced by its only child
      when it has one child left. A tree that is a lone leaf cannot lose it ('attempting to
      delete the last node'). Otherwise a valid B-tree stays valid, loses exactly the leaf
      of x, and is lowered by one level at most. */
  method RemoveSelf(t: Tree, m: nat, x: nat) returns (r: Option<Removed>)
    requires m >= 3 && Valid(t, m) && x in Leaves(t)
    ensures r.None? <==> t.Leaf?
    ensures r.Some? ==> Valid(r.value.root, m)
    ensures r.Some? ==> multiset(Leaves(r.value.root)) + multiset{x} == multiset(Leaves(t))
    ensures r.Some? ==> Height(r.value.root) == Height(t) || Height(r.value.root) + 1 == Height(t)
  {
    if t.Leaf? {
      return None;
    }
    var h := Height(t);
    var d := Delete(t, h, m, true, x);
    var root;
    if |d.node.children| == 1 {
      Collapsed(d.node, h, m);
      root := d.node.children[0];
    } else {
      Uncollapsed(d.node, h, m);
      root := d.node;
    }
    BagIsLeaves(t);
    BagIsLeaves(root);
    r := Some(Removed(root, d.events));
  }

  /** A root left with one child hands over to it. */
  lemma {:induction false} Collapsed(n: Tree, h: nat, m: nat)
    requires m >= 3 && h >= 1 && ValidBelow(n, h, m, 1) && |Children(n)| == 1
    ensures Valid(n.children[0], m) && Bag(n.children[0]) == Bag(n) && Height(n.children[0]) + 1 == h
  {
    var root := n.children[0];
    assert ValidBelow(root, h - 1, m, MinChildren(m));
    assert ValidBelow(root, h - 1, m, 2);
    ValidHeight(root, h - 1, m, 2);
    assert n.children == [root];
    BagOne(root);
  }

  /** A root left with two children or more stays. */
  lemma {:induction false} Uncollapsed(n: Tree, h: nat, m: nat)
    requires m >= 3 && h >= 1 && ValidBelow(n, h, m, 1) && |Children(n)| != 1
    ensures Valid(n, m) && Height(n) == h
  {
    assert ValidBelow(n, h, m, 2);
    ValidHeight(n, h, m, 2);
  }
}
