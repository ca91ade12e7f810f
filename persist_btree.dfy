/** The persistent `BTree` of order m (src/trees/BTree.js): `max = m`, `min = ceil(m / 2)`.
    The constructor asserts the shape of every node it builds: an inner node has between 2
    and max children, all one level lower, and each inner child has at least min children
    of its own. `addSibling` and `removeSelf` climb from a node to the root through the
    parent links of the persistent base class, which is not part of this model; here the
    climb is a recursion down the path of child indices that leads from the root to the
    node, and the node objects the source compares by identity are named by their places
    on that path. `parent.replace(epoch, node)` rebuilds the ancestors of the replaced node
    at the epoch, each traced to the child on the path. */
module PersistBTrees {
  import opened Utils
  import opened PersistTrees

  /** `min = Math.ceil(m / 2)` */
  function MinChildren(m: nat): nat
  {
    (m + 1) / 2
  }

  /** A node at level h whose children number between lo and m, each a valid non-root node
      one level lower. */
  ghost predicate ValidBelow(t: Node, h: nat, m: nat, lo: nat)
    decreases h, 0
  {
    if h == 0 then IsLeaf(t)
    else lo <= |t.children| <= m && AllValid(t.children, h - 1, m)
  }

  /** Valid non-root nodes at level h: inner ones have at least min children. */
  ghost predicate AllValid(cs: seq<Node>, h: nat, m: nat)
    decreases h, 1
  {
    forall i {:trigger ValidBelow(cs[i], h, m, MinChildren(m))} :: 0 <= i < |cs| ==> ValidBelow(cs[i], h, m, MinChildren(m))
  }

  /** The invariant of a whole tree of order m: the root has at least 2 children. */
  ghost predicate Valid(t: Node, m: nat)
  {
    m >= 3 && ValidBelow(t, Height(t), m, 2)
  }

  /** A valid node's level is its height, as the constructor asserts of every child. */
  lemma {:induction false} ValidHeight(t: Node, h: nat, m: nat, lo: nat)
    requires ValidBelow(t, h, m, lo) && lo >= 1
    ensures Height(t) == h
    decreases h, 0, 0
  {
    if h > 0 {
      ValidHeights(t.children, h - 1, m);
    }
  }

  lemma {:induction false} ValidHeights(cs: seq<Node>, h: nat, m: nat)
    requires AllValid(cs, h, m) && cs != [] && m >= 1
    ensures MaxHeight(cs) == h
    decreases h, 1, |cs|
  {
    ValidHeight(cs[0], h, m, MinChildren(m));
    if |cs| > 1 {
      assert AllValid(cs[1..], h, m) by {
        assert forall i :: 0 <= i < |cs[1..]| ==> cs[1..][i] == cs[i + 1];
      }
      ValidHeights(cs[1..], h, m);
    } else {
      assert cs[1..] == [];
    }
  }

  /** The leaves below a node, counted with multiplicity. */
  function Bag(t: Node): multiset<Node>
    decreases t, 1
  {
    if t.children == [] then multiset{t} else BagOf(t.children)
  }

  function BagOf(cs: seq<Node>): multiset<Node>
    decreases cs, 0
  {
    if cs == [] then multiset{} else Bag(cs[0]) + BagOf(cs[1..])
  }

  /** The bag holds the leaves. */
  lemma {:induction false} BagIsLeaves(t: Node)
    ensures Bag(t) == multiset(Leaves(t))
    decreases t, 1
  {
    if t.children != [] {
      BagOfIsLeaves(t.children);
    }
  }

  lemma {:induction false} BagOfIsLeaves(cs: seq<Node>)
    ensures BagOf(cs) == multiset(LeavesOf(cs))
    decreases cs, 0
  {
    if cs != [] {
      BagIsLeaves(cs[0]);
      BagOfIsLeaves(cs[1..]);
    }
  }

  lemma {:induction false} BagAppend(a: seq<Node>, b: seq<Node>)
    ensures BagOf(a + b) == BagOf(a) + BagOf(b)
    decreases |a|
  {
    if a == [] {
      assert a + b == b;
    } else {
      assert (a + b)[0] == a[0] && (a + b)[1..] == a[1..] + b;
      BagAppend(a[1..], b);
    }
  }

  lemma {:induction false} BagOne(c: Node)
    ensures BagOf([c]) == Bag(c)
  {
    assert [c][1..] == [];
  }

  lemma {:induction false} BagWithout(cs: seq<Node>, i: nat)
    requires i < |cs|
    ensures BagOf(Without(cs, i)) + Bag(cs[i]) == BagOf(cs)
  {
    assert cs == cs[..i] + [cs[i]] + cs[i + 1..];
    BagAppend(cs[..i] + [cs[i]], cs[i + 1..]);
    BagAppend(cs[..i], [cs[i]]);
    BagAppend(cs[..i], cs[i + 1..]);
    BagOne(cs[i]);
  }

  lemma {:induction false} BagUpdate(cs: seq<Node>, i: nat, c: Node)
    requires i < |cs|
    ensures BagOf(cs[i := c]) + Bag(cs[i]) == BagOf(cs) + Bag(c)
  {
    BagWithout(cs, i);
    BagWithout(cs[i := c], i);
    assert Without(cs[i := c], i) == Without(cs, i);
  }

  lemma {:induction false} BagSplit(cs: seq<Node>, n: nat)
    requires n <= |cs|
    ensures BagOf(cs[..n]) + BagOf(cs[n..]) == BagOf(cs)
  {
    assert cs == cs[..n] + cs[n..];
    BagAppend(cs[..n], cs[n..]);
  }

  /** Valid children stay valid when some are dropped, reordered or added. */
  lemma {:induction false} AllValidWithout(cs: seq<Node>, i: nat, h: nat, m: nat)
    requires AllValid(cs, h, m) && i < |cs|
    ensures AllValid(Without(cs, i), h, m)
  {
  }

  lemma {:induction false} AllValidAppend(a: seq<Node>, b: seq<Node>, h: nat, m: nat)
    requires AllValid(a, h, m) && AllValid(b, h, m)
    ensures AllValid(a + b, h, m)
  {
    assert forall i :: 0 <= i < |a + b| ==> (a + b)[i] == if i < |a| then a[i] else b[i - |a|];
  }

  lemma {:induction false} AllValidSlices(cs: seq<Node>, n: nat, h: nat, m: nat)
    requires AllValid(cs, h, m) && n <= |cs|
    ensures AllValid(cs[..n], h, m) && AllValid(cs[n..], h, m)
  {
    assert forall i :: 0 <= i < |cs[n..]| ==> cs[n..][i] == cs[n + i];
  }

  /** b to the power e, for `Math.pow(min, h - 1)`. */
  function Power(b: nat, e: nat): nat
  {
    if e == 0 then 1 else b * Power(b, e - 1)
  }

  /** The size `initGivenHeight` gives child j of k when splitting n: n / k, one more for
      the first n % k children. */
  function ChildSize(n: nat, k: nat, j: nat): nat
    requires k > 0
  {
    n / k + if j < n % k then 1 else 0
  }

  /** The sizes of children i to k - 1. */
  function Sizes(n: nat, k: nat, i: nat): nat
    requires k > 0 && i <= k
    decreases k - i
  {
    if i == k then 0 else ChildSize(n, k, i) + Sizes(n, k, i + 1)
  }

  /** The sizes from child i on: a share n / k for each, and one each for those of the
      first n % k that remain. */
  lemma {:induction false} SizesFrom(n: nat, k: nat, i: nat)
    requires k > 0 && i <= k
    ensures Sizes(n, k, i) == (k - i) * (n / k) + (if i < n % k then n % k - i else 0)
    decreases k - i
  {
    if i < k {
      SizesFrom(n, k, i + 1);
      assert (k - i) * (n / k) == (k - i - 1) * (n / k) + n / k;
    }
  }

  /** The children's sizes add up to n. */
  lemma {:induction false} SizesSum(n: nat, k: nat)
    requires k > 0
    ensures Sizes(n, k, 0) == n
  {
    SizesFrom(n, k, 0);
    assert n == k * (n / k) + n % k;
  }

  /** Each child of a split of n >= k >= 2 leaves gets at least one leaf and fewer than n. */
  lemma {:induction false} ChildSizeBounds(n: nat, k: nat, j: nat)
    requires 2 <= k <= n
    ensures 1 <= ChildSize(n, k, j) < n
  {
    var q, r := n / k, n % k;
    assert n == k * q + r;
    MulLeft(2, k, q);
    assert k * q > 0;
  }

  /** Multiplying by a larger factor gives a larger product. */
  lemma {:induction false} MulLeft(a: nat, b: nat, x: nat)
    requires a <= b
    ensures a * x <= b * x
  {
  }

  /** The fan-out of an `initGivenHeight` node: `Math.min(Math.floor(n / M), max)`. */
  function Fanout(n: nat, mm: nat, m: nat): (k: nat)
    requires mm >= 1
    ensures k <= m && k <= n
  {
    DivAtMost(n, mm);
    Min(n / mm, m)
  }

  lemma {:induction false} DivAtMost(n: nat, d: nat)
    requires d >= 1
    ensures n / d <= n
  {
    var q, r := n / d, n % d;
    assert n == d * q + r;
    MulLeft(1, d, q);
  }

  /** min^e is at least 1. */
  lemma {:induction false} PowerPositive(b: nat, e: nat)
    requires b >= 1
    ensures Power(b, e) >= 1
  {
    if e > 0 {
      PowerPositive(b, e - 1);
      assert b * Power(b, e - 1) >= Power(b, e - 1);
    }
  }

  /** `initGivenHeight(epoch, n, h, forcingMin)`: a tree of height h over n leaves. Below
      the top the node must hold at least min * min^(h-1) leaves; it gets
      k = min(n / min^(h-1), max) children, sized as `ChildSize` says. None stands for a
      failed assertion: h = 0 with more than one leaf, too few leaves, fewer than two
      children (no child at all would make a leaf in the source, not a tree of n leaves),
      or a child whose own assertion or the constructor's fails. */
  function InitGivenHeight(epoch: nat, m: nat, n: nat, h: nat, forcingMin: bool): (r: Option<Node>)
    requires m >= 3 && n >= 1
    ensures r.Some? ==> ValidBelow(r.value, h, m, 2) && |Leaves(r.value)| == n
    decreases n, 1
  {
    if n == 1 then
      if h == 0 then Some(NewLeaf(epoch)) else None
    else if h == 0 then None
    else
      var mm := Power(MinChildren(m), h - 1);
      PowerPositive(MinChildren(m), h - 1);
      if forcingMin && n < MinChildren(m) * mm then None
      else
        var k := Fanout(n, mm, m);
        if k < 2 then None
        else
          match InitChildren(epoch, m, n, k, h - 1, 0)
          case None => None
          case Some(cs) =>
            SizesSum(n, k);
            var t := Node(epoch, cs, Some(0), false);
            assert Leaves(t) == LeavesOf(cs);
            Some(t)
  }

  /** Children i to k - 1 of an `initGivenHeight` node over n leaves, each as high as h and
      with at least min children when it is an inner node; none when one fails. */
  function InitChildren(epoch: nat, m: nat, n: nat, k: nat, h: nat, i: nat): (r: Option<seq<Node>>)
    requires m >= 3 && 2 <= k <= n && i <= k
    ensures r.Some? ==> |r.value| == k - i && AllValid(r.value, h, m) && |LeavesOf(r.value)| == Sizes(n, k, i)
    decreases n, 0, k - i
  {
    if i == k then Some([])
    else
      var size := ChildSize(n, k, i);
      ChildSizeBounds(n, k, i);
      match InitGivenHeight(epoch, m, size, h, true)
      case None => None
      case Some(c) =>
        if h > 0 && |c.children| < MinChildren(m) then None
        else
          match InitChildren(epoch, m, n, k, h, i + 1)
          case None => None
          case Some(cs) =>
            Prepend(c, cs, h, m);
            Some([c] + cs)
  }

  /** A valid child put before valid children. */
  lemma {:induction false} Prepend(c: Node, cs: seq<Node>, h: nat, m: nat)
    requires ValidBelow(c, h, m, 2) && (h > 0 ==> |c.children| >= MinChildren(m)) && AllValid(cs, h, m)
    ensures AllValid([c] + cs, h, m) && |LeavesOf([c] + cs)| == |Leaves(c)| + |LeavesOf(cs)|
  {
    var r := [c] + cs;
    assert r[1..] == cs;
    assert ValidBelow(c, h, m, MinChildren(m));
    assert forall j :: 1 <= j < |r| ==> r[j] == cs[j - 1];
  }

  /** ceil(n / b) for n >= 2: it lies strictly below n and b times it just reaches n. */
  lemma {:induction false} CeilDiv(n: nat, b: nat)
    requires n >= 2 && b >= 2
    ensures var c := (n + b - 1) / b; 1 <= c < n && n <= b * c && b * (c - 1) < n
  {
    var c, r := (n + b - 1) / b, (n + b - 1) % b;
    assert n + b - 1 == b * c + r;
    assert b * c > 0;
    assert b * (c - 1) == b * c - b;
    MulLeft(2, b, c - 1);
  }

  /** ceil(log_b n): the least h with n <= b^h. */
  function CeilLog(b: nat, n: nat): (h: nat)
    requires b >= 2 && n >= 1
    ensures n <= Power(b, h) && (h > 0 ==> Power(b, h - 1) < n)
    decreases n
  {
    if n == 1 then 0
    else
      var c := (n + b - 1) / b;
      CeilDiv(n, b);
      var g := CeilLog(b, c);
      CeilLogStep(b, n, c, g);
      g + 1
  }

  lemma {:induction false} CeilLogStep(b: nat, n: nat, c: nat, g: nat)
    requires b >= 2 && n >= 2 && 1 <= c && n <= b * c && b * (c - 1) < n
    requires c <= Power(b, g) && (g > 0 ==> Power(b, g - 1) < c)
    ensures n <= Power(b, g + 1) && Power(b, g) < n
  {
    assert Power(b, g + 1) == b * Power(b, g);
    MulRight(b, c, Power(b, g));
    if g > 0 {
      MulRight(b, Power(b, g - 1), c - 1);
    }
  }

  lemma {:induction false} MulRight(b: nat, x: nat, y: nat)
    requires x <= y
    ensures b * x <= b * y
  {
  }

  /** `init(n)`: the source asserts n is a positive integer; one user is a lone leaf, more
      are spread by `initGivenHeight` over ceil(log_max n) levels. */
  function Init(epoch: nat, m: nat, n: nat): (r: Option<Node>)
    requires m >= 3 && n > 0
    ensures r.Some? ==> Valid(r.value, m) && |Leaves(r.value)| == n
  {
    if n == 1 then
      Some(NewLeaf(epoch))
    else
      var r := InitGivenHeight(epoch, m, n, CeilLog(m, n), false);
      if r.Some? then
        ValidHeight(r.value, CeilLog(m, n), m, 2);
        r
      else r
  }

  /** A path of child indices leading down from a node through existing children. */
  predicate PathOk(t: Node, p: seq<nat>)
    decreases |p|
  {
    p == [] || (p[0] < |t.children| && PathOk(t.children[p[0]], p[1..]))
  }

  /** The node a path leads to. */
  function Get(t: Node, p: seq<nat>): Node
    requires PathOk(t, p)
    decreases |p|
  {
    if p == [] then t else Get(t.children[p[0]], p[1..])
  }

  /** In a valid tree a path ends at a valid node as many levels lower as it is long; a path
      to a leaf reaches the bottom level. */
  lemma {:induction false} PathDepth(t: Node, p: seq<nat>, h: nat, m: nat, lo: nat)
    requires ValidBelow(t, h, m, lo) && PathOk(t, p) && m >= 3 && lo >= 2
    ensures |p| <= h && ValidBelow(Get(t, p), h - |p|, m, if p == [] then lo else MinChildren(m))
    ensures IsLeaf(Get(t, p)) ==> |p| == h
    decreases |p|
  {
    if p != [] {
      PathDepth(t.children[p[0]], p[1..], h - 1, m, MinChildren(m));
    }
  }

  /** Valid children stay valid when one of them is replaced by a valid node. */
  lemma {:induction false} AllValidUpdate(cs: seq<Node>, i: nat, c: Node, h: nat, m: nat)
    requires AllValid(cs, h, m) && i < |cs| && ValidBelow(c, h, m, MinChildren(m))
    ensures AllValid(cs[i := c], h, m)
  {
    assert forall j :: 0 <= j < |cs| ==> cs[i := c][j] == if j == i then c else cs[j];
  }

  lemma {:induction false} AllValidOne(c: Node, h: nat, m: nat)
    requires ValidBelow(c, h, m, MinChildren(m))
    ensures AllValid([c], h, m)
  {
    assert [c][0] == c;
  }

  // ---------------------------------------------------------------------------------------
  // addSibling and add

  /** What adding below a node hands to the node above: the node rebuilt, or the node split
      into the part that stays and a new node holding the added one. */
  datatype Grown = Fits(node: Node) | Split(stay: Node, move: Node)

  /** `max` odd and the replaced node right at the middle of full peers: it is moved to the
      end so that it lands on the no-larger side. */
  predicate AtMiddle(m: nat, i: nat)
  {
    m % 2 == 1 && i == MinChildren(m) - 1
  }

  /** The full peers in the order `addSibling` splits them. */
  function Reordered(m: nat, peers: seq<Node>, i: nat): seq<Node>
    requires i < |peers|
  {
    if AtMiddle(m, i) then Without(peers, i) + [peers[i]] else peers
  }

  /** Where the replaced node is in `Reordered`. */
  function Moved(m: nat, i: nat): nat
  {
    if AtMiddle(m, i) then m - 1 else i
  }

  /** The step of `addSibling` at a parent whose children, with `nodeReplace` put in place
      of child i, are peers: with room, the sibling joins them at the end and the rebuilt
      parent is traced to it; a full parent keeps min of the peers and a new node takes the
      others on the side of `nodeReplace`, then the sibling, traced to the sibling. */
  function Peers(epoch: nat, m: nat, peers: seq<Node>, i: nat, sib: Node): (g: Grown)
    requires m >= 3 && i < |peers| <= m
  {
    if |peers| < m then
      Fits(Node(epoch, peers + [sib], Some(|peers|), false))
    else
      var order, j := Reordered(m, peers, i), Moved(m, i);
      var move := Move(m, order, j);
      Split(Node(epoch, Stay(m, order, j), None, false), Node(epoch, move + [sib], Some(|move|), false))
  }

  /** The peers that stay: the first min when the replaced node is at j >= min, else the
      last min. */
  function Stay(m: nat, order: seq<Node>, j: nat): seq<Node>
    requires |order| == m
  {
    var min := MinChildren(m);
    if j >= min then order[..min] else order[m - min..]
  }

  /** The peers that move: the others. */
  function Move(m: nat, order: seq<Node>, j: nat): seq<Node>
    requires |order| == m
  {
    var min := MinChildren(m);
    if j >= min then order[min..] else order[..m - min]
  }

  /** A rebuilt or split node is valid at level h (a rebuilt root has lo as its lower
      bound), and the nodes together hold the leaves of bag. */
  ghost predicate GrownOk(g: Grown, h: nat, m: nat, lo: nat, bag: multiset<Node>)
  {
    match g
    case Fits(n) => ValidBelow(n, h, m, lo) && Bag(n) == bag
    case Split(s, mv) =>
      ValidBelow(s, h, m, MinChildren(m)) && ValidBelow(mv, h, m, MinChildren(m)) && Bag(s) + Bag(mv) == bag
  }

  /** Where the traces of the node holding the added one lead. */
  function TracedTo(g: Grown): Node
  {
    match g
    case Fits(n) => FollowTrace(n)
    case Split(_, mv) => FollowTrace(mv)
  }

  /** The reordering keeps the peers and puts the replaced node at `Moved`. */
  lemma {:induction false} ReorderedKeeps(m: nat, peers: seq<Node>, i: nat, h: nat)
    requires i < |peers| == m && m >= 3 && AllValid(peers, h, m)
    ensures |Reordered(m, peers, i)| == m && Moved(m, i) < m && Reordered(m, peers, i)[Moved(m, i)] == peers[i]
    ensures AllValid(Reordered(m, peers, i), h, m) && BagOf(Reordered(m, peers, i)) == BagOf(peers)
  {
    if AtMiddle(m, i) {
      AllValidWithout(peers, i, h, m);
      AllValidOne(peers[i], h, m);
      AllValidAppend(Without(peers, i), [peers[i]], h, m);
      BagAppend(Without(peers, i), [peers[i]]);
      BagOne(peers[i]);
      BagWithout(peers, i);
    }
  }

  /** With room, the sibling joins the peers: a valid node over their leaves and the
      sibling's, traced to the sibling. */
  lemma {:induction false} PeersFits(epoch: nat, m: nat, peers: seq<Node>, i: nat, sib: Node, h: nat, lo: nat)
    requires m >= 3 && i < |peers| < m && 1 <= lo <= |peers|
    requires AllValid(peers, h, m) && ValidBelow(sib, h, m, MinChildren(m))
    ensures GrownOk(Peers(epoch, m, peers, i, sib), h + 1, m, lo, BagOf(peers) + Bag(sib))
    ensures TracedTo(Peers(epoch, m, peers, i, sib)) == FollowTrace(sib)
  {
    WithSibling(peers, sib, h, m);
    NodeOk(epoch, peers + [sib], Some(|peers|), h, m, lo);
  }

  /** A node over valid children, as many as its bounds allow, is valid one level up and
      holds their leaves. */
  lemma {:induction false} NodeOk(epoch: nat, cs: seq<Node>, trace: Option<nat>, h: nat, m: nat, lo: nat)
    requires 1 <= lo <= |cs| <= m && AllValid(cs, h, m)
    ensures ValidBelow(Node(epoch, cs, trace, false), h + 1, m, lo) && Bag(Node(epoch, cs, trace, false)) == BagOf(cs)
  {
  }

  /** A sibling put after valid children. */
  lemma {:induction false} WithSibling(cs: seq<Node>, sib: Node, h: nat, m: nat)
    requires AllValid(cs, h, m) && ValidBelow(sib, h, m, MinChildren(m))
    ensures AllValid(cs + [sib], h, m) && BagOf(cs + [sib]) == BagOf(cs) + Bag(sib) && (cs + [sib])[|cs|] == sib
  {
    AllValidOne(sib, h, m);
    AllValidAppend(cs, [sib], h, m);
    BagAppend(cs, [sib]);
    BagOne(sib);
  }

  /** The halves of full peers: min stay, m - min move, the node at j among the movers,
      valid and over the same leaves. */
  lemma {:induction false} Halves(m: nat, order: seq<Node>, j: nat, h: nat)
    requires m >= 3 && |order| == m && j < m && !(m % 2 == 1 && j == MinChildren(m) - 1)
    requires AllValid(order, h, m)
    ensures |Stay(m, order, j)| == MinChildren(m) && |Move(m, order, j)| == m - MinChildren(m)
    ensures AllValid(Stay(m, order, j), h, m) && AllValid(Move(m, order, j), h, m)
    ensures BagOf(Stay(m, order, j)) + BagOf(Move(m, order, j)) == BagOf(order)
    ensures order[j] in Move(m, order, j)
  {
    var min := MinChildren(m);
    HalvesIndex(m, j);
    var k := if j >= min then min else m - min;
    AllValidSlices(order, k, h, m);
    BagSplit(order, k);
    if j >= min {
      assert Move(m, order, j) == order[min..];
      assert order[min..][j - min] == order[j];
    } else {
      assert Move(m, order, j) == order[..m - min];
      assert order[..m - min][j] == order[j];
    }
  }

  /** The replaced node's index falls in the part that moves: min peers stay, and for odd m
      the middle index is excluded. */
  lemma {:induction false} HalvesIndex(m: nat, j: nat)
    requires m >= 3 && j < m && !(m % 2 == 1 && j == MinChildren(m) - 1)
    ensures MinChildren(m) <= m && (j >= MinChildren(m) || j < m - MinChildren(m))
  {
    if m % 2 == 0 {
      assert MinChildren(m) * 2 == m;
    } else {
      assert MinChildren(m) * 2 == m + 1;
    }
  }

  /** A full parent splits into a node of min peers and a node of the other m - min and the
      sibling, both valid non-root nodes, together over all the leaves; the replaced node
      moves with the sibling, to the side that is no larger before the sibling joins it. */
  lemma {:induction false} PeersSplit(epoch: nat, m: nat, peers: seq<Node>, i: nat, sib: Node, h: nat)
    requires m >= 3 && i < |peers| == m
    requires AllValid(peers, h, m) && ValidBelow(sib, h, m, MinChildren(m))
    ensures var g := Peers(epoch, m, peers, i, sib);
      g.Split? && GrownOk(g, h + 1, m, 2, BagOf(peers) + Bag(sib)) && TracedTo(g) == FollowTrace(sib)
      && peers[i] in g.move.children && |g.move.children| <= |g.stay.children| + 1
  {
    var order, j := Reordered(m, peers, i), Moved(m, i);
    ReorderedKeeps(m, peers, i, h);
    Halves(m, order, j, h);
    var stay, move := Stay(m, order, j), Move(m, order, j);
    WithSibling(move, sib, h, m);
    NodeOk(epoch, stay, None, h, m, MinChildren(m));
    NodeOk(epoch, move + [sib], Some(|move|), h, m, MinChildren(m));
  }

  /** Both cases of a step of `addSibling` at a parent of level h. */
  lemma {:induction false} PeersWell(epoch: nat, m: nat, peers: seq<Node>, i: nat, sib: Node, h: nat, lo: nat)
    requires m >= 3 && h >= 1 && i < |peers| <= m && 2 <= lo <= |peers|
    requires AllValid(peers, h - 1, m) && ValidBelow(sib, h - 1, m, MinChildren(m))
    ensures GrownOk(Peers(epoch, m, peers, i, sib), h, m, lo, BagOf(peers) + Bag(sib))
    ensures TracedTo(Peers(epoch, m, peers, i, sib)) == FollowTrace(sib)
  {
    if |peers| < m {
      PeersFits(epoch, m, peers, i, sib, h - 1, lo);
    } else {
      PeersSplit(epoch, m, peers, i, sib, h - 1);
    }
  }

  /** `addSibling` from the node reached by p below node, which is at level h: the parent
      of that node takes the sibling; a split parent is handed, with the new node as its
      sibling, to its own parent; a rebuilt one is put in place by `replace`, which traces
      every ancestor to the child on the path. */
  function AddAt(epoch: nat, m: nat, node: Node, p: seq<nat>, sib: Node, h: nat, lo: nat): (g: Grown)
    requires m >= 3 && ValidBelow(node, h, m, lo) && PathOk(node, p) && |p| >= 1
    decreases |p|
  {
    var a, cs := p[0], node.children;
    if |p| == 1 then
      Peers(epoch, m, cs, a, sib)
    else
      assert h > 0 && AllValid(cs, h - 1, m);
      assert ValidBelow(cs[a], h - 1, m, MinChildren(m));
      Up(epoch, m, cs, a, AddAt(epoch, m, cs[a], p[1..], sib, h - 1, MinChildren(m)))
  }

  /** What the parent of a node does with what adding below the node handed up: a rebuilt
      node is put in place, traced to; a split node's staying part is put in place and its
      new part added as a sibling. */
  function Up(epoch: nat, m: nat, cs: seq<Node>, a: nat, g: Grown): Grown
    requires m >= 3 && a < |cs| <= m
  {
    match g
    case Fits(n) => Fits(Node(epoch, cs[a := n], Some(a), false))
    case Split(s, mv) => Peers(epoch, m, cs[a := s], a, mv)
  }

  /** A rebuilt child put in place: the parent, traced to it, is valid and holds the extra
      leaves too. */
  lemma {:induction false} FitsUp(epoch: nat, m: nat, cs: seq<Node>, a: nat, n: Node, h: nat, lo: nat, extra: multiset<Node>)
    requires m >= 3 && a < |cs| && 1 <= lo <= |cs| <= m && AllValid(cs, h, m)
    requires ValidBelow(n, h, m, MinChildren(m)) && Bag(n) == Bag(cs[a]) + extra
    ensures var r := Node(epoch, cs[a := n], Some(a), false);
      ValidBelow(r, h + 1, m, lo) && Bag(r) == BagOf(cs) + extra && FollowTrace(r) == FollowTrace(n)
  {
    AllValidUpdate(cs, a, n, h, m);
    BagUpdate(cs, a, n);
    BagCancel(BagOf(cs[a := n]), BagOf(cs) + extra, Bag(cs[a]));
    NodeOk(epoch, cs[a := n], Some(a), h, m, lo);
  }

  /** Multiset cancellation. */
  lemma {:induction false} BagCancel(a: multiset<Node>, b: multiset<Node>, c: multiset<Node>)
    requires a + c == b + c
    ensures a == b
  {
    assert forall x :: a[x] == (a + c)[x] - c[x];
  }

  /** A split child: its staying part takes its place and the new part becomes a sibling. */
  lemma {:induction false} SplitUp(epoch: nat, m: nat, cs: seq<Node>, a: nat, s: Node, mv: Node, h: nat, lo: nat, extra: multiset<Node>)
    requires m >= 3 && a < |cs| && 2 <= lo <= |cs| <= m && AllValid(cs, h, m)
    requires ValidBelow(s, h, m, MinChildren(m)) && ValidBelow(mv, h, m, MinChildren(m))
    requires Bag(s) + Bag(mv) == Bag(cs[a]) + extra
    ensures GrownOk(Peers(epoch, m, cs[a := s], a, mv), h + 1, m, lo, BagOf(cs) + extra)
    ensures TracedTo(Peers(epoch, m, cs[a := s], a, mv)) == FollowTrace(mv)
  {
    AllValidUpdate(cs, a, s, h, m);
    BagUpdate(cs, a, s);
    forall x
      ensures (BagOf(cs[a := s]) + Bag(mv))[x] == (BagOf(cs) + extra)[x]
    {
      assert (BagOf(cs[a := s]) + Bag(cs[a]))[x] == (BagOf(cs) + Bag(s))[x];
      assert (Bag(s) + Bag(mv))[x] == (Bag(cs[a]) + extra)[x];
    }
    PeersWell(epoch, m, cs[a := s], a, mv, h + 1, lo);
  }

  /** Adding keeps every rebuilt node valid, adds the sibling's leaves and nothing else, and
      the traces lead to the sibling. */
  lemma {:induction false} AddAtWell(epoch: nat, m: nat, node: Node, p: seq<nat>, sib: Node, h: nat, lo: nat)
    requires m >= 3 && 2 <= lo && ValidBelow(node, h, m, lo) && PathOk(node, p) && 1 <= |p| <= h
    requires ValidBelow(sib, h - |p|, m, MinChildren(m))
    ensures GrownOk(AddAt(epoch, m, node, p, sib, h, lo), h, m, lo, Bag(node) + Bag(sib))
    ensures TracedTo(AddAt(epoch, m, node, p, sib, h, lo)) == FollowTrace(sib)
    decreases |p|
  {
    var a, cs := p[0], node.children;
    assert Bag(node) == BagOf(cs) && AllValid(cs, h - 1, m);
    if |p| == 1 {
      PeersWell(epoch, m, cs, a, sib, h, lo);
    } else {
      var c := cs[a];
      assert ValidBelow(c, h - 1, m, MinChildren(m));
      var g := AddAt(epoch, m, c, p[1..], sib, h - 1, MinChildren(m));
      assert AddAt(epoch, m, node, p, sib, h, lo) == Up(epoch, m, cs, a, g);
      AddAtWell(epoch, m, c, p[1..], sib, h - 1, MinChildren(m));
      UpWell(epoch, m, cs, a, g, h, lo, Bag(sib));
    }
  }

  /** Both cases of `Up` at a parent of level h. */
  lemma {:induction false} UpWell(epoch: nat, m: nat, cs: seq<Node>, a: nat, g: Grown, h: nat, lo: nat, extra: multiset<Node>)
    requires m >= 3 && h >= 1 && a < |cs| && 2 <= lo <= |cs| <= m && AllValid(cs, h - 1, m)
    requires GrownOk(g, h - 1, m, MinChildren(m), Bag(cs[a]) + extra)
    ensures GrownOk(Up(epoch, m, cs, a, g), h, m, lo, BagOf(cs) + extra)
    ensures TracedTo(Up(epoch, m, cs, a, g)) == TracedTo(g)
  {
    match g
    case Fits(n) =>
      FitsUp(epoch, m, cs, a, n, h - 1, lo, extra);
    case Split(s, mv) =>
      SplitUp(epoch, m, cs, a, s, mv, h - 1, lo, extra);
  }

  /** `leaf.addSibling(epoch, newLeaf)` for the leaf at path p: a lone leaf gets a new root
      above it and the new leaf; a split root gets a new root above its two halves, traced
      to the half holding the new leaf. */
  function AddSibling(epoch: nat, m: nat, t: Node, p: seq<nat>, leaf: Node): (r: Node)
    requires Valid(t, m) && PathOk(t, p)
  {
    if p == [] then
      Node(epoch, [t, leaf], Some(1), false)
    else
      match AddAt(epoch, m, t, p, leaf, Height(t), 2)
      case Fits(n) => n
      case Split(s, mv) => Node(epoch, [s, mv], Some(1), false)
  }

  /** Adding a leaf next to a leaf keeps the tree valid, adds exactly the new leaf, grows
      the height by one at most, and the traces from the new root lead to the new leaf. */
  lemma {:induction false} AddSiblingWell(epoch: nat, m: nat, t: Node, p: seq<nat>, leaf: Node)
    requires Valid(t, m) && PathOk(t, p) && IsLeaf(Get(t, p)) && IsLeaf(leaf)
    ensures var r := AddSibling(epoch, m, t, p, leaf);
      Valid(r, m) && Bag(r) == Bag(t) + multiset{leaf} && FollowTrace(r) == leaf
      && Height(t) <= Height(r) <= Height(t) + 1
  {
    var h := Height(t);
    PathDepth(t, p, h, m, 2);
    if p == [] {
      NewRoot(epoch, m, t, leaf, 0);
    } else {
      AddAtWell(epoch, m, t, p, leaf, h, 2);
      match AddAt(epoch, m, t, p, leaf, h, 2)
      case Fits(n) =>
        ValidHeight(n, h, m, 2);
      case Split(s, mv) =>
        NewRoot(epoch, m, s, mv, h);
    }
  }

  /** A new root over two valid nodes of level h, traced to the second. */
  lemma {:induction false} NewRoot(epoch: nat, m: nat, l: Node, r: Node, h: nat)
    requires m >= 3 && ValidBelow(l, h, m, MinChildren(m)) && ValidBelow(r, h, m, MinChildren(m))
    ensures var t := Node(epoch, [l, r], Some(1), false);
      Valid(t, m) && Height(t) == h + 1 && Bag(t) == Bag(l) + Bag(r) && FollowTrace(t) == FollowTrace(r)
  {
    AllValidOne(l, h, m);
    AllValidOne(r, h, m);
    AllValidAppend([l], [r], h, m);
    assert [l] + [r] == [l, r];
    NodeOk(epoch, [l, r], Some(1), h, m, 2);
    ValidHeight(Node(epoch, [l, r], Some(1), false), h + 1, m, 2);
    BagAppend([l], [r]);
    BagOne(l);
    BagOne(r);
  }

  /** The positions a `BTree` offers. */
  datatype Position = Greedy | RandomPosition

  /** `add(epoch, leaf, hint)`: the new leaf becomes a sibling of the hint when the position
      is greedy and there is one, else of a leaf picked at random (the path `random`). */
  function Add(position: Position, epoch: nat, m: nat, t: Node, hint: Option<seq<nat>>, random: seq<nat>, leaf: Node): (r: Node)
    requires Valid(t, m) && IsLeaf(leaf) && PathOk(t, random) && IsLeaf(Get(t, random))
    requires hint.Some? ==> PathOk(t, hint.value) && IsLeaf(Get(t, hint.value))
    ensures Valid(r, m) && Bag(r) == Bag(t) + multiset{leaf} && FollowTrace(r) == leaf
  {
    var p := if position == Greedy && hint.Some? then hint.value else random;
    AddSiblingWell(epoch, m, t, p, leaf);
    AddSibling(epoch, m, t, p, leaf)
  }

  // ---------------------------------------------------------------------------------------
  // removeSelf and remove

  /** What removing below a node hands to the node above: the node rebuilt, or, for a node
      other than the root left with min - 1 children, those children and the index of the
      one the rebuilt node is to be traced to. */
  datatype Shrunk = Done(node: Node) | Short(siblings: seq<Node>, trace: Option<nat>)

  /** The index child j has once child i is gone. */
  function Shift(j: nat, i: nat): nat
  {
    if j > i then j - 1 else j
  }

  /** The first part of `removeSelf` at a parent whose children, with the pending
      replacement (`siblingToReplace` by `nodeReplace`, at index pending) already made, are
      peers, and of which child i goes: a root left with one child hands that child over as
      the new root; a root, or a node keeping at least min children, is rebuilt and traced to
      the replacement; any other node is short. */
  function Classify(epoch: nat, m: nat, peers: seq<Node>, i: nat, pending: Option<nat>, isRoot: bool): (r: Shrunk)
    requires i < |peers|
    ensures isRoot ==> r.Done?
  {
    var siblings := Without(peers, i);
    var trace := if pending.Some? then Some(Shift(pending.value, i)) else None;
    if isRoot && |siblings| == 1 then Done(siblings[0])
    else if isRoot || |siblings| >= MinChildren(m) then Done(Node(epoch, siblings, trace, false))
    else Short(siblings, trace)
  }

  /** What a removal of the leaf x hands up from a node of level h whose leaves were before:
      a valid node holding all of them but x (a new root may be one level lower), or the
      min - 1 valid children left to a node that is not the root, holding the same. */
  ghost predicate ShrunkOk(r: Shrunk, h: nat, m: nat, isRoot: bool, before: multiset<Node>, x: Node)
  {
    match r
    case Done(n) =>
      (if isRoot then ValidBelow(n, h, m, 2) || (h >= 1 && ValidBelow(n, h - 1, m, 2))
       else ValidBelow(n, h, m, MinChildren(m)))
      && Bag(n) + multiset{x} == before
    case Short(sibs, _) =>
      !isRoot && h >= 1 && |sibs| + 1 == MinChildren(m) && AllValid(sibs, h - 1, m)
      && BagOf(sibs) + multiset{x} == before
  }

  /** A valid node meets every lower bound below its own. */
  lemma {:induction false} ValidLower(t: Node, h: nat, m: nat, lo: nat, lo2: nat)
    requires ValidBelow(t, h, m, lo) && lo2 <= lo
    ensures ValidBelow(t, h, m, lo2)
  {
  }

  /** The first part of `removeSelf` keeps the invariant: the children left are valid and
      hold every leaf but x. */
  lemma {:induction false} ClassifyWell(epoch: nat, m: nat, peers: seq<Node>, i: nat, pending: Option<nat>, isRoot: bool,
                                        h: nat, before: multiset<Node>, x: Node)
    requires m >= 3 && h >= 1 && i < |peers| <= m && (if isRoot then 2 else MinChildren(m)) <= |peers|
    requires AllValid(Without(peers, i), h - 1, m) && BagOf(Without(peers, i)) + multiset{x} == before
    ensures ShrunkOk(Classify(epoch, m, peers, i, pending, isRoot), h, m, isRoot, before, x)
  {
    var siblings := Without(peers, i);
    var trace := if pending.Some? then Some(Shift(pending.value, i)) else None;
    if isRoot && |siblings| == 1 {
      var s := siblings[0];
      assert ValidBelow(s, h - 1, m, MinChildren(m));
      ValidLower(s, h - 1, m, MinChildren(m), 2);
      assert siblings == [s];
      BagOne(s);
    } else if isRoot || |siblings| >= MinChildren(m) {
      NodeOk(epoch, siblings, trace, h - 1, m, if isRoot then 2 else MinChildren(m));
    }
  }

  /** A parent sibling into which a node left with min - 1 children can be merged: it has
      at most max - min + 1 children. */
  predicate Mergeable(m: nat, s: Node)
  {
    |s.children| <= m - MinChildren(m) + 1
  }

  /** The last of the first n children, other than child a, into which a merge can go. */
  function LastFit(m: nat, cs: seq<Node>, a: nat, n: nat): (b: Option<nat>)
    requires n <= |cs|
    ensures b.Some? ==> b.value < n && b.value != a && Mergeable(m, cs[b.value])
    ensures b.Some? ==> forall k :: b.value < k < n && k != a ==> !Mergeable(m, cs[k])
    ensures b.None? ==> forall k :: 0 <= k < n && k != a ==> !Mergeable(m, cs[k])
    decreases n
  {
    if n == 0 then None
    else if n - 1 != a && Mergeable(m, cs[n - 1]) then Some(n - 1)
    else LastFit(m, cs, a, n - 1)
  }

  /** The search of `removeSelf` through the parent's siblings, the children of the
      grandparent other than child a: each one a merge can go into replaces the one found
      before it, so the last one is picked. */
  method LastMergeable(m: nat, cs: seq<Node>, a: nat) returns (b: Option<nat>)
    ensures b == LastFit(m, cs, a, |cs|)
  {
    b := None;
    var k := 0;
    while k < |cs|
      invariant k <= |cs| && b == LastFit(m, cs, a, k)
    {
      if k != a && Mergeable(m, cs[k]) {
        b := Some(k);
      }
      k := k + 1;
    }
  }

  /** The parent of the hint, when it is a sibling of the short node a, and the index of the
      hint in it; the hint is a path from the grandparent. */
  function HintedSibling(cs: seq<Node>, a: nat, hint: Option<seq<nat>>): (r: Option<(nat, nat)>)
    ensures r.Some? ==> r.value.0 < |cs| && r.value.0 != a && r.value.1 < |cs[r.value.0].children|
  {
    if hint.Some? && |hint.value| >= 2 && hint.value[0] < |cs| && hint.value[0] != a
       && hint.value[1] < |cs[hint.value[0]].children|
    then Some((hint.value[0], hint.value[1]))
    else None
  }

  /** The children of the borrowed parent sibling split into those that stay and those that
      move: with the hint at i, the first `l - min` when i is among them, the last `l - min`
      when i is among those, else the hint alone; with no hint, the last `l - min`. */
  function Cousins(m: nat, kids: seq<Node>, hint: Option<nat>): (r: (seq<Node>, seq<Node>))
    requires MinChildren(m) < |kids| && (hint.Some? ==> hint.value < |kids|)
  {
    var min, l := MinChildren(m), |kids|;
    match hint
    case None => (kids[..min], kids[min..])
    case Some(i) =>
      if i >= min then (kids[..min], kids[min..])
      else if i < l - min then (kids[l - min..], kids[..l - min])
      else (Without(kids, i), [kids[i]])
  }

  /** Borrowing leaves at least min cousins and moves at least one and at most `l - min`,
      the hint among them; the two parts are valid and hold the parent sibling's leaves. */
  lemma {:induction false} CousinsWell(m: nat, kids: seq<Node>, hint: Option<nat>, h: nat)
    requires m >= 3 && MinChildren(m) < |kids| && (hint.Some? ==> hint.value < |kids|) && AllValid(kids, h, m)
    ensures var (stay, move) := Cousins(m, kids, hint);
      MinChildren(m) <= |stay| && 1 <= |move| <= |kids| - MinChildren(m) && |stay| + |move| == |kids|
      && AllValid(stay, h, m) && AllValid(move, h, m) && BagOf(stay) + BagOf(move) == BagOf(kids)
      && (hint.Some? ==> kids[hint.value] in move)
  {
    var min, l := MinChildren(m), |kids|;
    if hint.Some? && l - min <= hint.value < min {
      var i := hint.value;
      AllValidWithout(kids, i, h, m);
      AllValidOne(kids[i], h, m);
      BagWithout(kids, i);
      BagOne(kids[i]);
    } else if hint.Some? && hint.value < min && hint.value < l - min {
      AllValidSlices(kids, l - min, h, m);
      BagSplit(kids, l - min);
      assert kids[..l - min][hint.value] == kids[hint.value];
    } else {
      AllValidSlices(kids, min, h, m);
      BagSplit(kids, min);
      if hint.Some? {
        assert kids[min..][hint.value - min] == kids[hint.value];
      }
    }
  }

  /** The index of the replaced node once k nodes are put before it. */
  function After(trace: Option<nat>, k: nat): Option<nat>
  {
    if trace.Some? then Some(k + trace.value) else None
  }

  /** Borrowing: the short node a takes the moving cousins before its own children and is
      traced to the replaced node; the parent sibling b keeps the others; the grandparent is
      rebuilt traced to the short node. */
  function Borrow(epoch: nat, m: nat, cs: seq<Node>, a: nat, b: nat, sibs: seq<Node>, trace: Option<nat>, hint: Option<nat>): Node
    requires a < |cs| && b < |cs| && MinChildren(m) < |cs[b].children|
    requires hint.Some? ==> hint.value < |cs[b].children|
  {
    var (stay, move) := Cousins(m, cs[b].children, hint);
    var parentNew := Node(epoch, move + sibs, After(trace, |move|), false);
    var siblingNew := Node(epoch, stay, None, false);
    Node(epoch, cs[a := parentNew][b := siblingNew], Some(a), false)
  }

  /** Merging: the short node's children go after those of the parent sibling b, traced to
      the replaced node; the short node a then leaves the grandparent, with the merged node
      as the pending replacement. */
  function Merge(epoch: nat, m: nat, cs: seq<Node>, a: nat, b: nat, sibs: seq<Node>, trace: Option<nat>, isRoot: bool): (r: Shrunk)
    requires a < |cs| && b < |cs|
    ensures isRoot ==> r.Done?
  {
    var kids := cs[b].children;
    var siblingNew := Node(epoch, kids + sibs, After(trace, |kids|), false);
    Classify(epoch, m, cs[b := siblingNew], a, Some(b), isRoot)
  }

  /** The second part of `removeSelf`, for the short child a of cs: merge next to the hint
      when the hint's parent is a sibling with room, else borrow around the hint from it;
      without such a hint, merge into the last sibling with room, else borrow from the
      first sibling. */
  function Rebalance(epoch: nat, m: nat, cs: seq<Node>, a: nat, sibs: seq<Node>, trace: Option<nat>, hint: Option<seq<nat>>, isRoot: bool): (r: Shrunk)
    requires m >= 3 && a < |cs| && |cs| >= 2
    ensures isRoot ==> r.Done?
  {
    match HintedSibling(cs, a, hint)
    case Some((b, i)) =>
      if Mergeable(m, cs[b]) then Merge(epoch, m, cs, a, b, sibs, trace, isRoot)
      else Done(Borrow(epoch, m, cs, a, b, sibs, trace, Some(i)))
    case None =>
      match LastFit(m, cs, a, |cs|)
      case Some(b) => Merge(epoch, m, cs, a, b, sibs, trace, isRoot)
      case None => Done(Borrow(epoch, m, cs, a, if a == 0 then 1 else 0, sibs, trace, None))
  }

  /** What a node does with what removing below its child a handed up: a rebuilt child is
      put in place by `replace`, traced to; a short child is rebalanced. */
  function Settle(epoch: nat, m: nat, cs: seq<Node>, a: nat, r: Shrunk, hint: Option<seq<nat>>, isRoot: bool): (s: Shrunk)
    requires m >= 3 && a < |cs| && |cs| >= 2
    ensures isRoot ==> s.Done?
  {
    match r
    case Done(c) => Done(Node(epoch, cs[a := c], Some(a), false))
    case Short(sibs, trace) => Rebalance(epoch, m, cs, a, sibs, trace, hint, isRoot)
  }

  /** `removeSelf` of the node reached by p below node, which is at level h; the hint is a
      path from node, and is followed down as long as it goes the way p goes. */
  function Del(epoch: nat, m: nat, node: Node, p: seq<nat>, hint: Option<seq<nat>>, h: nat, isRoot: bool): (r: Shrunk)
    requires m >= 3 && ValidBelow(node, h, m, if isRoot then 2 else MinChildren(m)) && PathOk(node, p) && |p| >= 1
    ensures isRoot ==> r.Done?
    decreases |p|
  {
    var a, cs := p[0], node.children;
    if |p| == 1 then
      Classify(epoch, m, cs, a, None, isRoot)
    else
      assert h > 0 && AllValid(cs, h - 1, m);
      assert ValidBelow(cs[a], h - 1, m, MinChildren(m));
      var down := if hint.Some? && |hint.value| >= 1 && hint.value[0] == a then Some(hint.value[1..]) else None;
      Settle(epoch, m, cs, a, Del(epoch, m, cs[a], p[1..], down, h - 1, false), hint, isRoot)
  }

  /** `remove(epoch, leaf, hint)`: `leaf.removeSelf(epoch, hint)` for the leaf at path p, the
      hint a path to another leaf; removing the only leaf fails ('attempting to remove the
      last node'). */
  function Remove(epoch: nat, m: nat, t: Node, p: seq<nat>, hint: Option<seq<nat>>): (r: Option<Node>)
    requires Valid(t, m) && PathOk(t, p) && IsLeaf(Get(t, p))
    requires hint.Some? ==> PathOk(t, hint.value) && IsLeaf(Get(t, hint.value))
  {
    if p == [] then None
    else
      var r := Del(epoch, m, t, p, hint, Height(t), true);
      Some(r.node)
  }

  /** The two nodes a borrowing builds are valid non-root nodes and hold the cousins' and
      the short node's leaves. */
  lemma {:induction false} BorrowParts(epoch: nat, m: nat, kids: seq<Node>, hint: Option<nat>, sibs: seq<Node>, trace: Option<nat>, h: nat)
    requires m >= 3 && MinChildren(m) < |kids| <= m && (hint.Some? ==> hint.value < |kids|) && AllValid(kids, h, m)
    requires |sibs| + 1 == MinChildren(m) && AllValid(sibs, h, m)
    ensures var (stay, move) := Cousins(m, kids, hint);
      var parentNew, siblingNew := Node(epoch, move + sibs, After(trace, |move|), false), Node(epoch, stay, None, false);
      ValidBelow(parentNew, h + 1, m, MinChildren(m)) && ValidBelow(siblingNew, h + 1, m, MinChildren(m))
      && Bag(parentNew) + Bag(siblingNew) == BagOf(kids) + BagOf(sibs)
  {
    var (stay, move) := Cousins(m, kids, hint);
    CousinsWell(m, kids, hint, h);
    AllValidAppend(move, sibs, h, m);
    BagAppend(move, sibs);
    NodeOk(epoch, move + sibs, After(trace, |move|), h, m, MinChildren(m));
    NodeOk(epoch, stay, None, h, m, MinChildren(m));
  }

  /** Borrowing keeps the grandparent valid (as the root, or not) and drops only x. */
  lemma {:induction false} BorrowWell(epoch: nat, m: nat, cs: seq<Node>, a: nat, b: nat, sibs: seq<Node>, trace: Option<nat>,
                                      hint: Option<nat>, isRoot: bool, h: nat, x: Node)
    requires m >= 3 && h >= 2 && a < |cs| && b < |cs| && a != b
    requires (if isRoot then 2 else MinChildren(m)) <= |cs| <= m && AllValid(cs, h - 1, m)
    requires MinChildren(m) < |cs[b].children| && (hint.Some? ==> hint.value < |cs[b].children|)
    requires |sibs| + 1 == MinChildren(m) && AllValid(sibs, h - 2, m) && BagOf(sibs) + multiset{x} == Bag(cs[a])
    ensures ShrunkOk(Done(Borrow(epoch, m, cs, a, b, sibs, trace, hint)), h, m, isRoot, BagOf(cs), x)
  {
    var kids := cs[b].children;
    assert ValidBelow(cs[b], h - 1, m, MinChildren(m));
    assert AllValid(kids, h - 2, m) && Bag(cs[b]) == BagOf(kids);
    var (stay, move) := Cousins(m, kids, hint);
    var parentNew, siblingNew := Node(epoch, move + sibs, After(trace, |move|), false), Node(epoch, stay, None, false);
    BorrowParts(epoch, m, kids, hint, sibs, trace, h - 2);
    forall y
      ensures (Bag(parentNew) + Bag(siblingNew) + multiset{x})[y] == (Bag(cs[a]) + Bag(cs[b]))[y]
    {
      assert (Bag(parentNew) + Bag(siblingNew))[y] == (BagOf(kids) + BagOf(sibs))[y];
      assert (BagOf(sibs) + multiset{x})[y] == Bag(cs[a])[y];
    }
    Regrouped(epoch, m, cs, a, b, parentNew, siblingNew, h - 1, if isRoot then 2 else MinChildren(m), x);
  }

  /** The grandparent rebuilt around two new children in place of a and b, traced to a,
      stays valid and drops only x when they drop only x. */
  lemma {:induction false} Regrouped(epoch: nat, m: nat, cs: seq<Node>, a: nat, b: nat, pn: Node, sn: Node, h: nat, lo: nat, x: Node)
    requires m >= 3 && a < |cs| && b < |cs| && a != b && 1 <= lo <= |cs| <= m && AllValid(cs, h, m)
    requires ValidBelow(pn, h, m, MinChildren(m)) && ValidBelow(sn, h, m, MinChildren(m))
    requires Bag(pn) + Bag(sn) + multiset{x} == Bag(cs[a]) + Bag(cs[b])
    ensures var r := Node(epoch, cs[a := pn][b := sn], Some(a), false);
      ValidBelow(r, h + 1, m, lo) && Bag(r) + multiset{x} == BagOf(cs)
  {
    var cs1 := cs[a := pn];
    var cs2 := cs1[b := sn];
    AllValidUpdate(cs, a, pn, h, m);
    AllValidUpdate(cs1, b, sn, h, m);
    NodeOk(epoch, cs2, Some(a), h, m, lo);
    BagUpdate(cs, a, pn);
    BagUpdate(cs1, b, sn);
    assert cs1[b] == cs[b];
    forall y
      ensures (BagOf(cs2) + multiset{x})[y] == BagOf(cs)[y]
    {
      assert (BagOf(cs2) + Bag(cs[b]))[y] == (BagOf(cs1) + Bag(sn))[y];
      assert (BagOf(cs1) + Bag(cs[a]))[y] == (BagOf(cs) + Bag(pn))[y];
      assert (Bag(pn) + Bag(sn) + multiset{x})[y] == (Bag(cs[a]) + Bag(cs[b]))[y];
    }
  }

  /** The node a merge builds is a valid non-root node over both nodes' leaves. */
  lemma {:induction false} MergedNode(epoch: nat, m: nat, s: Node, sibs: seq<Node>, trace: Option<nat>, h: nat)
    requires m >= 3 && ValidBelow(s, h + 1, m, MinChildren(m)) && Mergeable(m, s)
    requires |sibs| + 1 == MinChildren(m) && AllValid(sibs, h, m)
    ensures var merged := Node(epoch, s.children + sibs, After(trace, |s.children|), false);
      ValidBelow(merged, h + 1, m, MinChildren(m)) && Bag(merged) == Bag(s) + BagOf(sibs)
  {
    AllValidAppend(s.children, sibs, h, m);
    BagAppend(s.children, sibs);
    NodeOk(epoch, s.children + sibs, After(trace, |s.children|), h, m, MinChildren(m));
  }

  /** Merging keeps the invariant and drops only x. */
  lemma {:induction false} MergeWell(epoch: nat, m: nat, cs: seq<Node>, a: nat, b: nat, sibs: seq<Node>, trace: Option<nat>,
                                     isRoot: bool, h: nat, x: Node)
    requires m >= 3 && h >= 2 && a < |cs| && b < |cs| && a != b
    requires (if isRoot then 2 else MinChildren(m)) <= |cs| <= m && AllValid(cs, h - 1, m) && Mergeable(m, cs[b])
    requires |sibs| + 1 == MinChildren(m) && AllValid(sibs, h - 2, m) && BagOf(sibs) + multiset{x} == Bag(cs[a])
    ensures ShrunkOk(Merge(epoch, m, cs, a, b, sibs, trace, isRoot), h, m, isRoot, BagOf(cs), x)
  {
    var s := cs[b];
    assert ValidBelow(s, h - 1, m, MinChildren(m));
    var merged := Node(epoch, s.children + sibs, After(trace, |s.children|), false);
    MergedNode(epoch, m, s, sibs, trace, h - 2);
    var peers := cs[b := merged];
    AllValidUpdate(cs, b, merged, h - 1, m);
    AllValidWithout(peers, a, h - 1, m);
    BagUpdate(cs, b, merged);
    BagWithout(peers, a);
    assert peers[a] == cs[a];
    forall y
      ensures (BagOf(Without(peers, a)) + multiset{x})[y] == BagOf(cs)[y]
    {
      assert (BagOf(Without(peers, a)) + Bag(cs[a]))[y] == BagOf(peers)[y];
      assert (BagOf(peers) + Bag(s))[y] == (BagOf(cs) + Bag(merged))[y];
      assert Bag(merged)[y] == (Bag(s) + BagOf(sibs))[y];
      assert (BagOf(sibs) + multiset{x})[y] == Bag(cs[a])[y];
    }
    ClassifyWell(epoch, m, peers, a, Some(b), isRoot, h, BagOf(cs), x);
  }

  /** Every choice `removeSelf` makes for a short child keeps the invariant and drops only
      x. */
  lemma {:induction false} RebalanceWell(epoch: nat, m: nat, cs: seq<Node>, a: nat, sibs: seq<Node>, trace: Option<nat>,
                                         hint: Option<seq<nat>>, isRoot: bool, h: nat, x: Node)
    requires m >= 3 && h >= 2 && a < |cs|
    requires (if isRoot then 2 else MinChildren(m)) <= |cs| <= m && AllValid(cs, h - 1, m)
    requires |sibs| + 1 == MinChildren(m) && AllValid(sibs, h - 2, m) && BagOf(sibs) + multiset{x} == Bag(cs[a])
    ensures ShrunkOk(Rebalance(epoch, m, cs, a, sibs, trace, hint, isRoot), h, m, isRoot, BagOf(cs), x)
  {
    match HintedSibling(cs, a, hint)
    case Some((b, i)) =>
      if Mergeable(m, cs[b]) {
        MergeWell(epoch, m, cs, a, b, sibs, trace, isRoot, h, x);
      } else {
        BorrowWell(epoch, m, cs, a, b, sibs, trace, Some(i), isRoot, h, x);
      }
    case None =>
      match LastFit(m, cs, a, |cs|)
      case Some(b) =>
        MergeWell(epoch, m, cs, a, b, sibs, trace, isRoot, h, x);
      case None =>
        var b := if a == 0 then 1 else 0;
        assert !Mergeable(m, cs[b]);
        BorrowWell(epoch, m, cs, a, b, sibs, trace, None, isRoot, h, x);
  }

  /** A rebuilt child put in place keeps its parent valid, and the parent drops only x. */
  lemma {:induction false} DoneUp(epoch: nat, m: nat, cs: seq<Node>, a: nat, c: Node, h: nat, lo: nat, x: Node)
    requires m >= 3 && a < |cs| && 1 <= lo <= |cs| <= m && AllValid(cs, h, m)
    requires ValidBelow(c, h, m, MinChildren(m)) && Bag(c) + multiset{x} == Bag(cs[a])
    ensures var r := Node(epoch, cs[a := c], Some(a), false);
      ValidBelow(r, h + 1, m, lo) && Bag(r) + multiset{x} == BagOf(cs)
  {
    AllValidUpdate(cs, a, c, h, m);
    BagUpdate(cs, a, c);
    NodeOk(epoch, cs[a := c], Some(a), h, m, lo);
    forall y
      ensures (BagOf(cs[a := c]) + multiset{x})[y] == BagOf(cs)[y]
    {
      assert (BagOf(cs[a := c]) + Bag(cs[a]))[y] == (BagOf(cs) + Bag(c))[y];
    }
  }

  /** Both cases of `Settle` at a node of level h. */
  lemma {:induction false} SettleWell(epoch: nat, m: nat, cs: seq<Node>, a: nat, r: Shrunk, hint: Option<seq<nat>>, isRoot: bool,
                                      h: nat, x: Node)
    requires m >= 3 && h >= 2 && a < |cs|
    requires (if isRoot then 2 else MinChildren(m)) <= |cs| <= m && AllValid(cs, h - 1, m)
    requires ShrunkOk(r, h - 1, m, false, Bag(cs[a]), x)
    ensures ShrunkOk(Settle(epoch, m, cs, a, r, hint, isRoot), h, m, isRoot, BagOf(cs), x)
  {
    match r
    case Done(c) =>
      DoneUp(epoch, m, cs, a, c, h - 1, if isRoot then 2 else MinChildren(m), x);
    case Short(sibs, trace) =>
      RebalanceWell(epoch, m, cs, a, sibs, trace, hint, isRoot, h, x);
  }

  /** Removing the leaf at the end of p, at the bottom level, keeps every rebuilt node valid
      and drops that leaf and nothing else. */
  lemma {:induction false} DelWell(epoch: nat, m: nat, node: Node, p: seq<nat>, hint: Option<seq<nat>>, h: nat, isRoot: bool)
    requires m >= 3 && ValidBelow(node, h, m, if isRoot then 2 else MinChildren(m)) && PathOk(node, p) && 1 <= |p| == h
    ensures ShrunkOk(Del(epoch, m, node, p, hint, h, isRoot), h, m, isRoot, Bag(node), Get(node, p))
    decreases |p|
  {
    var a, cs := p[0], node.children;
    assert Bag(node) == BagOf(cs) && AllValid(cs, h - 1, m);
    if |p| == 1 {
      assert ValidBelow(cs[a], h - 1, m, MinChildren(m));
      assert p[1..] == [];
      assert Get(node, p) == cs[a] && IsLeaf(cs[a]);
      AllValidWithout(cs, a, 0, m);
      BagWithout(cs, a);
      ClassifyWell(epoch, m, cs, a, None, isRoot, 1, Bag(node), cs[a]);
    } else {
      var c := cs[a];
      assert ValidBelow(c, h - 1, m, MinChildren(m));
      assert Get(node, p) == Get(c, p[1..]);
      var down := if hint.Some? && |hint.value| >= 1 && hint.value[0] == a then Some(hint.value[1..]) else None;
      var r := Del(epoch, m, c, p[1..], down, h - 1, false);
      assert Del(epoch, m, node, p, hint, h, isRoot) == Settle(epoch, m, cs, a, r, hint, isRoot);
      DelWell(epoch, m, c, p[1..], down, h - 1, false);
      SettleWell(epoch, m, cs, a, r, hint, isRoot, h, Get(node, p));
    }
  }

  /** Removing fails exactly for a lone leaf; otherwise the tree stays valid, loses the leaf
      at p and nothing else, and its height drops by one at most. */
  lemma {:induction false} RemoveWell(epoch: nat, m: nat, t: Node, p: seq<nat>, hint: Option<seq<nat>>)
    requires Valid(t, m) && PathOk(t, p) && IsLeaf(Get(t, p))
    requires hint.Some? ==> PathOk(t, hint.value) && IsLeaf(Get(t, hint.value))
    ensures var r := Remove(epoch, m, t, p, hint);
      (r.None? <==> IsLeaf(t))
      && (r.Some? ==> Valid(r.value, m) && Bag(r.value) + multiset{Get(t, p)} == Bag(t)
                      && Height(t) <= Height(r.value) + 1 && Height(r.value) <= Height(t))
  {
    var h := Height(t);
    PathDepth(t, p, h, m, 2);
    if p != [] {
      DelWell(epoch, m, t, p, hint, h, true);
      var n := Del(epoch, m, t, p, hint, h, true).node;
      if ValidBelow(n, h, m, 2) {
        ValidHeight(n, h, m, 2);
      } else {
        ValidHeight(n, h - 1, m, 2);
      }
    }
  }
}
