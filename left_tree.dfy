/** The persistent `LeftTree` (src/trees/LeftTree.js): a left-balanced binary tree whose
    left child is always perfect and at least as high as its right child. New leaves go at
    the right end (`append`); removed leaves at the right end are cut off (`truncate`).
    `rawL` and `rawR` are the two children of a node. */
module LeftTrees {
  import opened Utils
  import opened PersistTrees

  /** `isPerfect`: a leaf, or a node whose right child is perfect and as high as its left
      child. */
  function IsPerfect(t: Node): bool
    decreases t
  {
    if |t.children| != 2 then IsLeaf(t)
    else IsPerfect(t.children[1]) && Height(t.children[1]) == Height(t.children[0])
  }

  /** The invariant the constructor asserts, at every node: two children, the left one
      perfect and no lower than the right one. */
  ghost predicate Good(t: Node)
    decreases t
  {
    IsLeaf(t)
    || (|t.children| == 2 && Good(t.children[0]) && Good(t.children[1])
        && IsPerfect(t.children[0]) && Height(t.children[1]) <= Height(t.children[0]))
  }

  /** `new LeftTree(epoch, [l, r], trace)`: the constructor asserts the left child perfect
      and no lower than the right; the node is perfect exactly when its right child is
      perfect and as high. */
  function Join(epoch: nat, l: Node, r: Node, trace: Option<nat>): (t: Node)
    requires Good(l) && Good(r) && IsPerfect(l) && Height(r) <= Height(l)
    ensures Good(t) && t.children == [l, r] && t.epoch == epoch && t.trace == trace
    ensures Height(t) == Height(l) + 1 && Leaves(t) == Leaves(l) + Leaves(r)
    ensures IsPerfect(t) <==> IsPerfect(r) && Height(r) == Height(l)
  {
    var t := Node(epoch, [l, r], trace, false);
    Binary(t);
    t
  }

  /** A perfect tree is complete: 2^height leaves. */
  lemma {:induction false} PerfectIsFull(t: Node)
    requires Good(t) && IsPerfect(t)
    ensures |Leaves(t)| == Pow2(Height(t))
    decreases t
  {
    if !IsLeaf(t) {
      Binary(t);
      PerfectIsFull(t.children[0]);
      PerfectIsFull(t.children[1]);
    }
  }

  /** An imperfect tree is not complete: fewer than 2^height leaves. */
  lemma {:induction false} ImperfectIsNotFull(t: Node)
    requires Good(t) && !IsPerfect(t)
    ensures |Leaves(t)| < Pow2(Height(t))
    decreases t
  {
    var l, r := t.children[0], t.children[1];
    Binary(t);
    PerfectIsFull(l);
    if IsPerfect(r) {
      PerfectIsFull(r);
      Pow2Monotone(Height(r) + 1, Height(l));
    } else {
      ImperfectIsNotFull(r);
      Pow2Monotone(Height(r), Height(l));
    }
  }

  /** `initPerfect(epoch, h)`: a perfect tree of 2^h live leaves. */
  function InitPerfect(epoch: nat, h: nat): (t: Node)
    ensures Good(t) && IsPerfect(t) && Height(t) == h
    ensures Leaves(t) == Repeat(NewLeaf(epoch), Pow2(h))
    decreases h
  {
    if h == 0 then NewLeaf(epoch)
    else
      var c := InitPerfect(epoch, h - 1);
      var t := Join(epoch, c, c, Some(0));
      RepeatAdd(NewLeaf(epoch), Pow2(h - 1), Pow2(h - 1));
      t
  }

  /** `initLeft(epoch, n)`: n live leaves, a perfect left child of 2^floor(log2 n) of them
      and the rest, left-balanced, on the right. */
  function InitLeft(epoch: nat, n: nat): (t: Node)
    requires n >= 1
    ensures Good(t) && Height(t) == CeilLog2(n)
    ensures Leaves(t) == Repeat(NewLeaf(epoch), n)
    decreases n, 1
  {
    if n == 1 then NewLeaf(epoch)
    else
      var h := Log2(n);
      if Pow2(h) == n then
        CeilLog2Exact(n, h);
        InitPerfect(epoch, h)
      else
        InitSplit(epoch, n, h)
  }

  /** The branch of `initLeft` where n is not a power of two: a perfect tree of 2^h leaves
      on the left, the n - 2^h others on the right. */
  function InitSplit(epoch: nat, n: nat, h: nat): (t: Node)
    requires Pow2(h) < n < 2 * Pow2(h)
    ensures Good(t) && Height(t) == CeilLog2(n)
    ensures Leaves(t) == Repeat(NewLeaf(epoch), n)
    decreases n, 0
  {
    var nL := Pow2(h);
    CeilLog2Exact(n, h);
    CeilBelow(n - nL, h);
    RepeatAdd(NewLeaf(epoch), nL, n - nL);
    Join(epoch, InitPerfect(epoch, h), InitLeft(epoch, n - nL), Some(0))
  }

  /** n leaves with 2^h <= n need h levels when n = 2^h, and h + 1 above it. */
  lemma {:induction false} CeilLog2Exact(n: nat, h: nat)
    requires 1 <= n && Pow2(h) <= n < 2 * Pow2(h)
    ensures CeilLog2(n) == if Pow2(h) == n then h else h + 1
  {
    if Pow2(h) < n {
      Log2Unique(n - 1, h);
    } else if h > 0 {
      Log2Unique(n - 1, h - 1);
    }
  }

  /** A count below 2^h needs at most h levels. */
  lemma {:induction false} CeilBelow(n: nat, h: nat)
    requires 1 <= n <= Pow2(h)
    ensures CeilLog2(n) <= h
  {
    var k := CeilLog2(n);
    if k > h {
      Pow2Monotone(h, k - 1);
    }
  }

  /** `init(n)`: the tree of n users. The source asserts n is a positive integer. */
  function Init(n: nat, epoch: nat): (t: Node)
    requires n > 0
    ensures Good(t) && |Leaves(t)| == n
  {
    InitLeft(epoch, n)
  }

  /** `append(epoch, leaf)`: a perfect tree becomes the left child of a new root whose right
      child is the leaf; otherwise the leaf is appended to the right child. Either way the
      new root is traced to its right child, the leaf comes last, and the tree grows one
      level exactly when it was perfect. */
  function Append(epoch: nat, t: Node, leaf: Node): (r: Node)
    requires Good(t) && IsLeaf(leaf)
    ensures Good(r) && Leaves(r) == Leaves(t) + [leaf]
    ensures Height(r) == if IsPerfect(t) then Height(t) + 1 else Height(t)
    ensures r.epoch == epoch && r.trace == Some(1) && FollowTrace(r) == leaf
    decreases t
  {
    if IsPerfect(t) then
      Join(epoch, t, leaf, Some(1))
    else
      Binary(t);
      Join(epoch, t.children[0], Append(epoch, t.children[1], leaf), Some(1))
  }

  /** The positions of `add` that the tree type offers. */
  datatype Position = Greedy | RandomPosition | AppendOnly

  /** `add(epoch, leaf, hint)` when it appends: with no removed leaf to reuse every position
      appends (for 'random', `randint(1)` is 0), and 'append' always does. */
  function Add(position: Position, epoch: nat, t: Node, leaf: Node): (r: Node)
    requires Good(t) && IsLeaf(leaf)
    requires position == AppendOnly || SizeLeafRemoved(t) == 0
    ensures Good(r) && Leaves(r) == Leaves(t) + [leaf]
  {
    Append(epoch, t, leaf)
  }

  /** The leaves of the roots from the last to the first. */
  function LeavesBackwards(roots: seq<Node>): seq<Node>
    decreases |roots|
  {
    if roots == [] then [] else LeavesBackwards(roots[1..]) + Leaves(roots[0])
  }

  /** Roots a merge can take, as the constructor's assertions demand: all left-balanced,
      all perfect but maybe the first, rising in height, the first two possibly equal. */
  ghost predicate Mergeable(roots: seq<Node>)
  {
    |roots| > 0
    && (forall i :: 0 <= i < |roots| ==> Good(roots[i]))
    && (forall i :: 1 <= i < |roots| ==> IsPerfect(roots[i]))
    && (|roots| > 1 ==> Height(roots[0]) <= Height(roots[1]))
    && (forall i :: 1 <= i < |roots| - 1 ==> Height(roots[i]) < Height(roots[i + 1]))
  }

  /** `merge(epoch, roots)`: the first two roots are replaced by a node whose right child is
      the first and left child the second, traced to the right child when that child is of
      this epoch, until one root remains. The result is left-balanced and holds all the
      leaves, the last root's first. */
  function Merge(epoch: nat, roots: seq<Node>): (t: Node)
    requires Mergeable(roots)
    ensures Good(t) && Leaves(t) == LeavesBackwards(roots)
    decreases |roots|
  {
    if |roots| == 1 then
      assert roots[1..] == [];
      roots[0]
    else
      var childR, childL := roots[0], roots[1];
      var node := Join(epoch, childL, childR, if childR.epoch == epoch then Some(1) else None);
      MergeStep(roots, node);
      Merge(epoch, [node] + roots[2..])
  }

  /** One step of a merge keeps the roots mergeable and their leaves. */
  lemma {:induction false} MergeStep(roots: seq<Node>, node: Node)
    requires Mergeable(roots) && |roots| > 1
    requires Good(node) && Height(node) == Height(roots[1]) + 1
    requires Leaves(node) == Leaves(roots[1]) + Leaves(roots[0])
    ensures Mergeable([node] + roots[2..])
    ensures LeavesBackwards([node] + roots[2..]) == LeavesBackwards(roots)
  {
    var rest := [node] + roots[2..];
    assert forall i :: 1 <= i < |rest| ==> rest[i] == roots[i + 1];
    assert rest[1..] == roots[2..];
    assert roots[1..][1..] == roots[2..];
  }

  /** `getRightPerfect()`: down the right spine of an imperfect tree, the first perfect
      node; it is strictly lower and holds the last leaves. */
  function GetRightPerfect(t: Node): (p: Node)
    requires Good(t) && !IsPerfect(t)
    ensures Good(p) && IsPerfect(p) && Height(p) < Height(t)
    ensures exists front :: Leaves(t) == front + Leaves(p)
    decreases t
  {
    var r := t.children[1];
    Binary(t);
    if IsPerfect(r) then
      assert Leaves(t) == Leaves(t.children[0]) + Leaves(r);
      r
    else
      var p := GetRightPerfect(r);
      var front :| Leaves(r) == front + Leaves(p);
      assert Leaves(t) == (Leaves(t.children[0]) + front) + Leaves(p);
      p
  }

  /** The leaves without the removed ones at the end. */
  function Trim(s: seq<Node>): (r: seq<Node>)
    ensures |r| <= |s| && r == s[..|r|]
    ensures forall i :: |r| <= i < |s| ==> s[i].removed
    ensures r != [] ==> !r[|r| - 1].removed
    decreases |s|
  {
    if s == [] then []
    else if s[|s| - 1].removed then Trim(s[..|s| - 1])
    else s
  }

  /** Trimming a concatenation trims the second part, or all of it and then the first. */
  lemma {:induction false} TrimAppend(a: seq<Node>, b: seq<Node>)
    ensures Trim(a + b) == if Trim(b) == [] then Trim(a) else a + Trim(b)
    decreases |b|
  {
    if b != [] {
      assert (a + b)[..|a + b| - 1] == a + b[..|b| - 1];
      if b[|b| - 1].removed {
        TrimAppend(a, b[..|b| - 1]);
      }
    } else {
      assert a + b == a;
    }
  }

  /** A tree is all removed exactly when nothing is left of its leaves after trimming. */
  lemma {:induction false} TrimEmpty(t: Node)
    ensures AllRemoved(t) <==> Trim(Leaves(t)) == []
  {
    var s := Leaves(t);
    if Trim(s) != [] {
      assert !s[|Trim(s)| - 1].removed;
    }
  }

  /** `truncate(epoch)`: none of an all-removed tree; else the tree without its trailing
      removed leaves: the node itself when nothing is cut, a new node over the shortened
      right child, or the truncated left child when the right child goes. */
  function Truncate(epoch: nat, t: Node): (r: Option<Node>)
    requires Good(t)
    ensures r.None? <==> AllRemoved(t)
    ensures r.Some? ==> Good(r.value) && Height(r.value) <= Height(t) && Leaves(r.value) == Trim(Leaves(t))
    decreases t
  {
    TrimEmpty(t);
    if AllRemoved(t) then None
    else if IsLeaf(t) then Some(t)
    else
      var l, r := t.children[0], t.children[1];
      Binary(t);
      TrimAppend(Leaves(l), Leaves(r));
      TrimEmpty(r);
      match Truncate(epoch, r)
      case Some(c) =>
        if c == r then Some(t)
        else Some(Join(epoch, l, c, if c.epoch == epoch then Some(1) else None))
      case None => Truncate(epoch, l)
  }

  /** The base class's removal of leaf k: a removed leaf in its place, the nodes above it
      rebuilt at the epoch and traced towards it. */
  function Tombstone(epoch: nat, t: Node, k: nat): (r: Node)
    requires Good(t) && k < |Leaves(t)|
    ensures Good(r) && Height(r) == Height(t) && IsPerfect(r) == IsPerfect(t)
    ensures Leaves(r) == Leaves(t)[k := NewRemoved(epoch)]
    decreases t
  {
    if IsLeaf(t) then NewRemoved(epoch)
    else
      var l, rr := t.children[0], t.children[1];
      Binary(t);
      if k < |Leaves(l)| then Join(epoch, Tombstone(epoch, l, k), rr, Some(0))
      else Join(epoch, l, Tombstone(epoch, rr, k - |Leaves(l)|), Some(1))
  }

  /** The removal policies `remove` follows after tombstoning the leaf. */
  datatype TruncatePolicy = TruncateTail | Keep

  /** `remove(epoch, leaf)`: leaf k is tombstoned; 'truncate' then cuts the removed leaves
      at the right end, and fails ('attempting to remove the last node') when nothing is
      left; 'keep' leaves the tombstone. */
  function Remove(policy: TruncatePolicy, epoch: nat, t: Node, k: nat): (r: Option<Node>)
    requires Good(t) && k < |Leaves(t)|
    ensures r.None? <==> policy == TruncateTail && forall j :: 0 <= j < |Leaves(t)| && j != k ==> Leaves(t)[j].removed
    ensures r.Some? ==> Good(r.value)
    ensures r.Some? ==> Leaves(r.value) == if policy == Keep then Leaves(t)[k := NewRemoved(epoch)]
                                          else Trim(Leaves(t)[k := NewRemoved(epoch)])
  {
    var g := Tombstone(epoch, t, k);
    match policy
    case Keep => Some(g)
    case TruncateTail =>
      assert AllRemoved(g) <==> forall j :: 0 <= j < |Leaves(t)| && j != k ==> Leaves(t)[j].removed by {
        assert forall j :: 0 <= j < |Leaves(t)| && j != k ==> Leaves(g)[j] == Leaves(t)[j];
        assert Leaves(g)[k].removed;
      }
      Truncate(epoch, g)
  }

  /** Removing a leaf keeps every other live leaf, in order: after trimming, what is cut
      is removed leaves only. */
  lemma {:induction false} RemoveKeepsLive(policy: TruncatePolicy, epoch: nat, t: Node, k: nat, j: nat)
    requires Good(t) && k < |Leaves(t)| && j < |Leaves(t)| && j != k && !Leaves(t)[j].removed
    ensures var r := Remove(policy, epoch, t, k);
            r.Some? && j < |Leaves(r.value)| && Leaves(r.value)[j] == Leaves(t)[j]
  {
    var s := Leaves(t)[k := NewRemoved(epoch)];
    assert s[j] == Leaves(t)[j];
    var r := Remove(policy, epoch, t, k);
    assert r.Some?;
    if policy == TruncateTail {
      assert Leaves(r.value) == Trim(s);
      assert j < |Trim(s)|;
    }
  }
}
