/** The LLRB plug-in of the persistent B-tree (src/trees/LLRBTree.js): each 2-3-4 node of a
    B-tree is mirrored by red-black binary nodes. The mirror of a node and the binary nodes
    over its left and right pairs of children are cached on the node (its fields `RB`, `RL`
    and `RR`), so that a later epoch reuses whatever it has not changed.

    Nodes are objects compared by identity; here the B-tree nodes and the red-black nodes
    live in two arenas and are named by their position. Children come before their parent,
    a trace is the index of the traced child among the children, and a cache that is `null`
    in the source is `None`. */
module LLRBTrees {
  import opened Utils

  /** A node of either arena: its epoch, its children, the index of its traced child. */
  datatype Cell = Cell(epoch: nat, children: seq<nat>, trace: Option<nat>)

  /** Node x's children were made before it, and its trace names one of them. */
  predicate CellOk(c: Cell, x: nat)
  {
    && (forall j :: 0 <= j < |c.children| ==> c.children[j] < x)
    && (c.trace.Some? ==> c.trace.value < |c.children|)
  }

  ghost predicate Arena(cells: seq<Cell>)
  {
    forall x :: 0 <= x < |cells| ==> CellOk(cells[x], x)
  }

  /** The B-tree nodes: no node has the same child twice. */
  ghost predicate BArena(bs: seq<Cell>)
  {
    && Arena(bs)
    && forall x :: 0 <= x < |bs| ==> Distinct(bs[x].children)
  }

  /** A red-black node is a leaf or binary, and its trace leads to a child of its own
      epoch. */
  ghost predicate RBCellOk(rbs: seq<Cell>, r: nat)
    requires Arena(rbs) && r < |rbs|
  {
    && (|rbs[r].children| == 0 || |rbs[r].children| == 2)
    && (rbs[r].trace.Some? ==> rbs[rbs[r].children[rbs[r].trace.value]].epoch == rbs[r].epoch)
  }

  ghost predicate RBArena(rbs: seq<Cell>)
  {
    && Arena(rbs)
    && forall r :: 0 <= r < |rbs| ==> RBCellOk(rbs, r)
  }

  /** Every reference in a column of caches names an existing node. */
  predicate Refs(s: seq<Option<nat>>, n: nat)
  {
    forall i :: 0 <= i < |s| && s[i].Some? ==> s[i].value < n
  }

  /** A cache column only ever gains entries: a set cache keeps its value. */
  ghost predicate Keeps(s: seq<Option<nat>>, s': seq<Option<nat>>)
  {
    && |s| == |s'|
    && forall a :: 0 <= a < |s| && s[a].Some? ==> s'[a] == s[a]
  }

  /** Red-black node q is the binary node over the mirrors of B-nodes a and b. */
  ghost predicate Pair(rbs: seq<Cell>, rb: seq<Option<nat>>, q: nat, a: nat, b: nat)
  {
    && q < |rbs| && a < |rb| && b < |rb| && rb[a].Some? && rb[b].Some?
    && rbs[q].children == [rb[a].value, rb[b].value]
  }

  /** Red-black node r mirrors B-node x: a leaf by a leaf, a 2-node by the binary node over
      its children's mirrors, a 3-node by [pair(c0, c1), c2] and a 4-node by
      [pair(c0, c1), pair(c2, c3)]. No other arity has a mirror. */
  ghost predicate Mirrors(bs: seq<Cell>, rbs: seq<Cell>, rb: seq<Option<nat>>, x: nat, r: nat)
    requires x < |bs|
  {
    var cs := bs[x].children;
    && r < |rbs|
    && if |cs| == 0 then rbs[r].children == []
       else if |cs| == 2 then Pair(rbs, rb, r, cs[0], cs[1])
       else if |cs| == 3 then
         && |rbs[r].children| == 2 && Pair(rbs, rb, rbs[r].children[0], cs[0], cs[1])
         && cs[2] < |rb| && rb[cs[2]] == Some(rbs[r].children[1])
       else if |cs| == 4 then
         && |rbs[r].children| == 2 && Pair(rbs, rb, rbs[r].children[0], cs[0], cs[1])
         && Pair(rbs, rb, rbs[r].children[1], cs[2], cs[3])
       else false
  }

  /** B-node x's `RB`, when set, mirrors it. */
  ghost predicate MirrorCached(bs: seq<Cell>, rbs: seq<Cell>, rb: seq<Option<nat>>, x: nat)
    requires x < |bs| && x < |rb|
  {
    rb[x].Some? ==> Mirrors(bs, rbs, rb, x, rb[x].value)
  }

  /** B-node x's `RL`, when set, is the pair over its first two children, and x is a 3- or
      4-node. */
  ghost predicate LeftCached(bs: seq<Cell>, rbs: seq<Cell>, rb: seq<Option<nat>>, rl: seq<Option<nat>>, x: nat)
    requires x < |bs| && x < |rl|
  {
    rl[x].Some? ==> 3 <= |bs[x].children| <= 4 && Pair(rbs, rb, rl[x].value, bs[x].children[0], bs[x].children[1])
  }

  /** B-node x's `RR`, when set, is the pair over its last two children, and x is a
      4-node. */
  ghost predicate RightCached(bs: seq<Cell>, rbs: seq<Cell>, rb: seq<Option<nat>>, rr: seq<Option<nat>>, x: nat)
    requires x < |bs| && x < |rr|
  {
    rr[x].Some? ==> |bs[x].children| == 4 && Pair(rbs, rb, rr[x].value, bs[x].children[2], bs[x].children[3])
  }

  /** The caches agree with the arenas, and a red-black node's `B` names a node whose `RB`
      is that red-black node. */
  ghost predicate Caches(bs: seq<Cell>, rbs: seq<Cell>, rb: seq<Option<nat>>, rl: seq<Option<nat>>,
                         rr: seq<Option<nat>>, back: seq<Option<nat>>)
  {
    && |rb| == |bs| && |rl| == |bs| && |rr| == |bs| && |back| == |rbs|
    && (forall x :: 0 <= x < |bs| ==> MirrorCached(bs, rbs, rb, x))
    && (forall x :: 0 <= x < |bs| ==> LeftCached(bs, rbs, rb, rl, x))
    && (forall x :: 0 <= x < |bs| ==> RightCached(bs, rbs, rb, rr, x))
    && (forall r :: 0 <= r < |back| && back[r].Some? ==> back[r].value < |rb| && rb[back[r].value] == Some(r))
  }

  lemma PairKeeps(rbs: seq<Cell>, rb: seq<Option<nat>>, rbs': seq<Cell>, rb': seq<Option<nat>>, q: nat, a: nat, b: nat)
    requires Pair(rbs, rb, q, a, b) && rbs <= rbs' && Keeps(rb, rb')
    ensures Pair(rbs', rb', q, a, b)
  {
    assert rbs'[q] == rbs[q];
  }

  lemma MirrorsKeeps(bs: seq<Cell>, rbs: seq<Cell>, rb: seq<Option<nat>>, rbs': seq<Cell>, rb': seq<Option<nat>>, x: nat, r: nat)
    requires x < |bs| && Mirrors(bs, rbs, rb, x, r) && rbs <= rbs' && Keeps(rb, rb')
    ensures Mirrors(bs, rbs', rb', x, r)
  {
    var cs := bs[x].children;
    assert rbs'[r] == rbs[r];
    if |cs| == 2 {
      PairKeeps(rbs, rb, rbs', rb', r, cs[0], cs[1]);
    } else if |cs| == 3 {
      PairKeeps(rbs, rb, rbs', rb', rbs[r].children[0], cs[0], cs[1]);
    } else if |cs| == 4 {
      PairKeeps(rbs, rb, rbs', rb', rbs[r].children[0], cs[0], cs[1]);
      PairKeeps(rbs, rb, rbs', rb', rbs[r].children[1], cs[2], cs[3]);
    }
  }

  /** Caches stay consistent while the red-black arena grows and caches are only set. */
  lemma CachesKeep(bs: seq<Cell>, rbs: seq<Cell>, rb: seq<Option<nat>>, rl: seq<Option<nat>>, rr: seq<Option<nat>>,
                   back: seq<Option<nat>>, rbs': seq<Cell>, rb': seq<Option<nat>>, back': seq<Option<nat>>)
    requires Caches(bs, rbs, rb, rl, rr, back)
    requires rbs <= rbs' && Keeps(rb, rb') && |back'| == |rbs'|
    requires forall r :: 0 <= r < |back'| && back'[r].Some? ==> back'[r].value < |rb'| && rb'[back'[r].value] == Some(r)
    requires forall x :: 0 <= x < |bs| && rb[x].None? && rb'[x].Some? ==> Mirrors(bs, rbs', rb', x, rb'[x].value)
    ensures Caches(bs, rbs', rb', rl, rr, back')
  {
    forall x | 0 <= x < |bs|
      ensures MirrorCached(bs, rbs', rb', x)
    {
      assert MirrorCached(bs, rbs, rb, x);
      if rb[x].Some? {
        MirrorsKeeps(bs, rbs, rb, rbs', rb', x, rb[x].value);
      }
    }
    forall x | 0 <= x < |bs|
      ensures LeftCached(bs, rbs', rb', rl, x)
    {
      assert LeftCached(bs, rbs, rb, rl, x);
      if rl[x].Some? {
        PairKeeps(rbs, rb, rbs', rb', rl[x].value, bs[x].children[0], bs[x].children[1]);
      }
    }
    forall x | 0 <= x < |bs|
      ensures RightCached(bs, rbs', rb', rr, x)
    {
      assert RightCached(bs, rbs, rb, rr, x);
      if rr[x].Some? {
        PairKeeps(rbs, rb, rbs', rb', rr[x].value, bs[x].children[2], bs[x].children[3]);
      }
    }
  }

  /** A new red-black node, leaf or binary over older nodes, keeps the arena well formed. */
  lemma RBArenaGrow(rbs: seq<Cell>, c: Cell)
    requires RBArena(rbs) && CellOk(c, |rbs|) && (|c.children| == 0 || |c.children| == 2)
    requires c.trace.Some? ==> rbs[c.children[c.trace.value]].epoch == c.epoch
    ensures RBArena(rbs + [c])
  {
    var rbs' := rbs + [c];
    assert forall r :: 0 <= r < |rbs| ==> rbs'[r] == rbs[r];
    forall r | 0 <= r < |rbs'|
      ensures CellOk(rbs'[r], r)
    {
      if r < |rbs| {
        assert CellOk(rbs[r], r);
      }
    }
    forall r | 0 <= r < |rbs'|
      ensures RBCellOk(rbs', r)
    {
      if r < |rbs| {
        assert RBCellOk(rbs, r) && CellOk(rbs[r], r);
      }
    }
  }

  // ---------------------------------------------------------------------------------------
  // `align(nodeNew, nodeOld)`
  // ---------------------------------------------------------------------------------------

  /** The three caches of one B-node. */
  datatype Slots = Slots(rb: Option<nat>, rl: Option<nat>, rr: Option<nat>)

  /** The old node, with children co and caches prev, keeps v as the binary node over the
      pair (a, b): as `RB` of a 2-node or `RL` of a 3- or 4-node when (a, b) are its first two
      children, as `RR` of a 4-node when they are its last two. */
  predicate Covers(co: seq<nat>, prev: Slots, a: nat, b: nat, v: Option<nat>)
  {
    || (|co| == 2 && co[0] == a && co[1] == b && v == prev.rb)
    || (3 <= |co| <= 4 && co[0] == a && co[1] == b && v == prev.rl)
    || (|co| == 4 && co[2] == a && co[3] == b && v == prev.rr)
  }

  /** Some cache slot of the old node stands for the pair (a, b). */
  predicate Matches(co: seq<nat>, a: nat, b: nat)
  {
    || (2 <= |co| <= 4 && co[0] == a && co[1] == b)
    || (|co| == 4 && co[2] == a && co[3] == b)
  }

  /** The old node's cache for the pair (a, b), its first pair before its last pair; none
      when it keeps none for that pair. */
  function Cached(co: seq<nat>, prev: Slots, a: nat, b: nat): Option<Option<nat>>
  {
    if 2 <= |co| <= 4 && co[0] == a && co[1] == b then Some(if |co| == 2 then prev.rb else prev.rl)
    else if |co| == 4 && co[2] == a && co[3] == b then Some(prev.rr)
    else None
  }

  function Or(c: Option<Option<nat>>, keep: Option<nat>): Option<nat>
  {
    if c.Some? then c.value else keep
  }

  /** The caches of the new node (children cn, caches cur) after `align` with the old node
      (children co, caches prev): nothing changes when either is a leaf; otherwise a 2-node's
      `RB`, a 3- or 4-node's `RL` and a 4-node's `RR` take the old node's cache for the same
      pair of children, whenever the old node keeps one, and only then. */
  function Aligned(cn: seq<nat>, co: seq<nat>, cur: Slots, prev: Slots): (s: Slots)
    ensures |cn| == 0 || |co| == 0 ==> s == cur
    ensures s.rb != cur.rb ==> |cn| == 2 && Covers(co, prev, cn[0], cn[1], s.rb)
    ensures s.rl != cur.rl ==> 3 <= |cn| <= 4 && Covers(co, prev, cn[0], cn[1], s.rl)
    ensures s.rr != cur.rr ==> |cn| == 4 && Covers(co, prev, cn[2], cn[3], s.rr)
    ensures |cn| == 2 && Matches(co, cn[0], cn[1]) ==> Covers(co, prev, cn[0], cn[1], s.rb)
    ensures 3 <= |cn| <= 4 && Matches(co, cn[0], cn[1]) ==> Covers(co, prev, cn[0], cn[1], s.rl)
    ensures |cn| == 4 && Matches(co, cn[2], cn[3]) ==> Covers(co, prev, cn[2], cn[3], s.rr)
  {
    if |cn| == 0 || |co| == 0 then cur
    else
      Slots(if |cn| == 2 then Or(Cached(co, prev, cn[0], cn[1]), cur.rb) else cur.rb,
            if 3 <= |cn| <= 4 then Or(Cached(co, prev, cn[0], cn[1]), cur.rl) else cur.rl,
            if |cn| == 4 then Or(Cached(co, prev, cn[2], cn[3]), cur.rr) else cur.rr)
  }

  /** A slot the old node covers a pair with is the binary node over that pair. */
  lemma CoveredPair(bs: seq<Cell>, rbs: seq<Cell>, rb: seq<Option<nat>>, rl: seq<Option<nat>>, rr: seq<Option<nat>>,
                    back: seq<Option<nat>>, o: nat, a: nat, b: nat, v: Option<nat>)
    requires Caches(bs, rbs, rb, rl, rr, back) && o < |bs|
    requires Covers(bs[o].children, Slots(rb[o], rl[o], rr[o]), a, b, v) && v.Some?
    ensures Pair(rbs, rb, v.value, a, b)
  {
    assert MirrorCached(bs, rbs, rb, o) && LeftCached(bs, rbs, rb, rl, o) && RightCached(bs, rbs, rb, rr, o);
  }

  /** `align` keeps the caches consistent when the new node has no mirror yet, as a node
      just built by the B-tree has not. */
  lemma {:induction false} AlignKeepsCaches(bs: seq<Cell>, rbs: seq<Cell>, rb: seq<Option<nat>>, rl: seq<Option<nat>>,
                                             rr: seq<Option<nat>>, back: seq<Option<nat>>, n: nat, o: nat, s: Slots)
    requires Caches(bs, rbs, rb, rl, rr, back) && n < |bs| && o < |bs| && rb[n].None?
    requires s == Aligned(bs[n].children, bs[o].children, Slots(rb[n], rl[n], rr[n]), Slots(rb[o], rl[o], rr[o]))
    ensures Caches(bs, rbs, rb[n := s.rb], rl[n := s.rl], rr[n := s.rr], back)
  {
    var cn := bs[n].children;
    var rb', rl', rr' := rb[n := s.rb], rl[n := s.rl], rr[n := s.rr];
    assert Keeps(rb, rb');
    forall x | 0 <= x < |bs|
      ensures MirrorCached(bs, rbs, rb', x)
    {
      if x == n {
        if s.rb.Some? {
          CoveredPair(bs, rbs, rb, rl, rr, back, o, cn[0], cn[1], s.rb);
          PairKeeps(rbs, rb, rbs, rb', s.rb.value, cn[0], cn[1]);
        }
      } else {
        assert MirrorCached(bs, rbs, rb, x);
        if rb[x].Some? {
          MirrorsKeeps(bs, rbs, rb, rbs, rb', x, rb[x].value);
        }
      }
    }
    forall x | 0 <= x < |bs|
      ensures LeftCached(bs, rbs, rb', rl', x)
    {
      assert LeftCached(bs, rbs, rb, rl, x);
      if x == n && s.rl != rl[n] && s.rl.Some? {
        CoveredPair(bs, rbs, rb, rl, rr, back, o, cn[0], cn[1], s.rl);
      }
      if rl'[x].Some? {
        PairKeeps(rbs, rb, rbs, rb', rl'[x].value, bs[x].children[0], bs[x].children[1]);
      }
    }
    forall x | 0 <= x < |bs|
      ensures RightCached(bs, rbs, rb', rr', x)
    {
      assert RightCached(bs, rbs, rb, rr, x);
      if x == n && s.rr != rr[n] && s.rr.Some? {
        CoveredPair(bs, rbs, rb, rl, rr, back, o, cn[2], cn[3], s.rr);
      }
      if rr'[x].Some? {
        PairKeeps(rbs, rb, rbs, rb', rr'[x].value, bs[x].children[2], bs[x].children[3]);
      }
    }
  }

  /** The fall-through switch of `align` on the arities of the new node (children cn,
      caches cur) and the old node (children co, caches prev). */
  method AlignSlots(cn: seq<nat>, co: seq<nat>, cur: Slots, prev: Slots) returns (s: Slots)
    ensures s == Aligned(cn, co, cur, prev)
  {
    s := cur;
    if |cn| == 0 || |co| == 0 {
      return;
    }
    // comparisons past the end of a shorter array never matter: the switch only reads them
    // for arities 2 to 4
    var matchLL := |cn| >= 2 && |co| >= 2 && cn[0] == co[0] && cn[1] == co[1];
    var matchLR := |co| == 4 && |cn| >= 2 && cn[0] == co[2] && cn[1] == co[3];
    var matchRL := |cn| == 4 && |co| >= 2 && cn[2] == co[0] && cn[3] == co[1];
    var matchRR := |cn| == 4 && |co| == 4 && cn[2] == co[2] && cn[3] == co[3];
    if |cn| == 4 {
      if |co| == 4 && matchRR {
        s := s.(rr := prev.rr);
      }
      if |co| == 4 || |co| == 3 {
        if matchRL {
          s := s.(rr := prev.rl);
        }
      } else if |co| == 2 {
        if matchRL {
          s := s.(rr := prev.rb);
        }
      }
    }
    if |cn| == 4 || |cn| == 3 {
      if |co| == 4 && matchLR {
        s := s.(rl := prev.rr);
      }
      if |co| == 4 || |co| == 3 {
        if matchLL {
          s := s.(rl := prev.rl);
        }
      } else if |co| == 2 {
        if matchLL {
          s := s.(rl := prev.rb);
        }
      }
    } else if |cn| == 2 {
      if |co| == 4 && matchLR {
        s := s.(rb := prev.rr);
      }
      if |co| == 4 || |co| == 3 {
        if matchLL {
          s := s.(rb := prev.rl);
        }
      } else if |co| == 2 {
        if matchLL {
          s := s.(rb := prev.rb);
        }
      }
    }
  }

  // ---------------------------------------------------------------------------------------
  // The trace of a new red-black node
  // ---------------------------------------------------------------------------------------

  /** The epochs of the given red-black nodes. */
  function EpochsOf(rbs: seq<Cell>, ids: seq<nat>): (es: seq<nat>)
    requires forall j :: 0 <= j < |ids| ==> ids[j] < |rbs|
    ensures |es| == |ids| && forall j :: 0 <= j < |ids| ==> es[j] == rbs[ids[j]].epoch
  {
    seq(|ids|, j requires 0 <= j < |ids| => rbs[ids[j]].epoch)
  }

  /** The last index whose epoch is the given one, passing over `skip`. */
  function LastAt(es: seq<nat>, epoch: nat, skip: Option<nat>): (k: Option<nat>)
    ensures k.Some? ==> k.value < |es| && es[k.value] == epoch && skip != k
    ensures forall j :: (if k.Some? then k.value + 1 else 0) <= j < |es| && es[j] == epoch ==> skip == Some(j)
    decreases |es|
  {
    if es == [] then None
    else if es[|es| - 1] == epoch && skip != Some(|es| - 1) then Some(|es| - 1)
    else LastAt(es[..|es| - 1], epoch, skip)
  }

  /** The child a new red-black node is traced to, given the epochs of the children's
      mirrors and the B-node's trace t: t when its mirror is at the current epoch, otherwise
      the last child whose mirror is; none exactly when no mirror is at the current epoch. */
  function PickTrace(es: seq<nat>, epoch: nat, t: Option<nat>): (k: Option<nat>)
    ensures k.Some? ==> k.value < |es| && es[k.value] == epoch
    ensures k.None? <==> forall j :: 0 <= j < |es| ==> es[j] != epoch
    ensures t.Some? && t.value < |es| && es[t.value] == epoch ==> k == t
    ensures k.Some? && k != t ==> forall j :: k.value < j < |es| ==> es[j] != epoch
  {
    if t.Some? && t.value < |es| && es[t.value] == epoch then t else LastAt(es, epoch, t)
  }

  /** Following the trace one or two steps down from red-black node r reaches target. */
  ghost predicate Reaches(rbs: seq<Cell>, r: nat, target: nat)
    requires RBArena(rbs) && r < |rbs|
  {
    match rbs[r].trace
    case None => false
    case Some(i) =>
      var c := rbs[r].children[i];
      || c == target
      || (rbs[c].trace.Some? && rbs[c].children[rbs[c].trace.value] == target)
  }

  // ---------------------------------------------------------------------------------------
  // Leaves
  // ---------------------------------------------------------------------------------------

  /** The leaves under node x, left to right. */
  ghost function Fringe(cells: seq<Cell>, x: nat): (r: seq<nat>)
    requires Arena(cells) && x < |cells|
    ensures forall j :: 0 <= j < |r| ==> r[j] <= x
    decreases x, 1
  {
    if cells[x].children == [] then [x] else FringeAll(cells, cells[x].children, x)
  }

  ghost function FringeAll(cells: seq<Cell>, ids: seq<nat>, bound: nat): (r: seq<nat>)
    requires Arena(cells) && bound <= |cells| && forall j :: 0 <= j < |ids| ==> ids[j] < bound
    ensures forall j :: 0 <= j < |r| ==> r[j] < bound
    decreases bound, 0, |ids|
  {
    if ids == [] then [] else Fringe(cells, ids[0]) + FringeAll(cells, ids[1..], bound)
  }

  /** The caches of the given B-nodes. */
  function Images(rb: seq<Option<nat>>, ids: seq<nat>): (r: seq<Option<nat>>)
    requires forall j :: 0 <= j < |ids| ==> ids[j] < |rb|
    ensures |r| == |ids| && forall j :: 0 <= j < |ids| ==> r[j] == rb[ids[j]]
  {
    seq(|ids|, j requires 0 <= j < |ids| => rb[ids[j]])
  }

  function Somes(ids: seq<nat>): (r: seq<Option<nat>>)
    ensures |r| == |ids| && forall j :: 0 <= j < |ids| ==> r[j] == Some(ids[j])
  {
    seq(|ids|, j requires 0 <= j < |ids| => Some(ids[j]))
  }

  lemma ImagesConcat(rb: seq<Option<nat>>, a: seq<nat>, b: seq<nat>)
    requires forall j :: 0 <= j < |a| ==> a[j] < |rb|
    requires forall j :: 0 <= j < |b| ==> b[j] < |rb|
    ensures Images(rb, a + b) == Images(rb, a) + Images(rb, b)
  {
    assert forall j :: 0 <= j < |a + b| ==> Images(rb, a + b)[j] == (Images(rb, a) + Images(rb, b))[j];
  }

  lemma SomesConcat(a: seq<nat>, b: seq<nat>)
    ensures Somes(a + b) == Somes(a) + Somes(b)
  {
    assert forall j :: 0 <= j < |a + b| ==> Somes(a + b)[j] == (Somes(a) + Somes(b))[j];
  }

  /** The leaves of two nodes side by side. */
  lemma FringeTwo(cells: seq<Cell>, x: nat, a: nat, b: nat)
    requires Arena(cells) && x < |cells| && a < |cells| && b < |cells| && cells[x].children == [a, b]
    ensures Fringe(cells, x) == Fringe(cells, a) + Fringe(cells, b)
  {
    var cs := cells[x].children;
    assert cs[1..] == [b] && cs[1..][1..] == [];
    assert FringeAll(cells, cs[1..], x) == Fringe(cells, b) + FringeAll(cells, [], x);
  }

  /** The mirror of a B-node has the same leaves in the same order: leaf by leaf, the
      red-black fringe is the fringe of the B-tree seen through `RB`. */
  lemma {:induction false} MirrorFringe(bs: seq<Cell>, rbs: seq<Cell>, rb: seq<Option<nat>>, rl: seq<Option<nat>>,
                                         rr: seq<Option<nat>>, back: seq<Option<nat>>, x: nat)
    requires BArena(bs) && RBArena(rbs) && Caches(bs, rbs, rb, rl, rr, back) && Refs(rb, |rbs|)
    requires x < |bs| && rb[x].Some?
    ensures Images(rb, Fringe(bs, x)) == Somes(Fringe(rbs, rb[x].value))
    decreases x
  {
    var cs, r := bs[x].children, rb[x].value;
    assert MirrorCached(bs, rbs, rb, x);
    forall j | 0 <= j < |cs|
      ensures rb[cs[j]].Some? && Images(rb, Fringe(bs, cs[j])) == Somes(Fringe(rbs, rb[cs[j]].value))
    {
      assert CellOk(bs[x], x);
      assert MirrorCached(bs, rbs, rb, cs[j]) && rb[cs[j]].Some? by {
        if |cs| == 3 && j == 2 {
        } else if j < 2 {
          assert Pair(rbs, rb, if |cs| == 2 then r else rbs[r].children[0], cs[0], cs[1]);
        } else {
          assert Pair(rbs, rb, rbs[r].children[1], cs[2], cs[3]);
        }
      }
      MirrorFringe(bs, rbs, rb, rl, rr, back, cs[j]);
    }
    if |cs| == 0 {
    } else if |cs| == 2 {
      FringeStep2(bs, rbs, rb, x, r);
    } else if |cs| == 3 {
      FringeStep3(bs, rbs, rb, x, r);
    } else {
      FringeStep4(bs, rbs, rb, x, r);
    }
  }

  /** Whenever each child's leaves are mirrored, so are the node's, for each mirrored arity. */
  ghost predicate ChildrenMirrored(bs: seq<Cell>, rbs: seq<Cell>, rb: seq<Option<nat>>, x: nat)
    requires Arena(bs) && RBArena(rbs) && x < |bs| && |rb| == |bs| && Refs(rb, |rbs|)
  {
    forall j :: 0 <= j < |bs[x].children| ==>
      rb[bs[x].children[j]].Some? && Images(rb, Fringe(bs, bs[x].children[j])) == Somes(Fringe(rbs, rb[bs[x].children[j]].value))
  }

  lemma FringeStep2(bs: seq<Cell>, rbs: seq<Cell>, rb: seq<Option<nat>>, x: nat, r: nat)
    requires Arena(bs) && RBArena(rbs) && x < |bs| && |rb| == |bs| && Refs(rb, |rbs|)
    requires |bs[x].children| == 2 && Mirrors(bs, rbs, rb, x, r) && ChildrenMirrored(bs, rbs, rb, x)
    ensures Images(rb, Fringe(bs, x)) == Somes(Fringe(rbs, r))
  {
    var cs := bs[x].children;
    assert CellOk(bs[x], x);
    var a, b := rb[cs[0]].value, rb[cs[1]].value;
    assert Images(rb, Fringe(bs, cs[0])) == Somes(Fringe(rbs, a));
    assert Images(rb, Fringe(bs, cs[1])) == Somes(Fringe(rbs, b));
    FringeTwo(bs, x, cs[0], cs[1]);
    FringeTwo(rbs, r, a, b);
    Split2(bs, rb, cs[0], cs[1]);
    SomesConcat(Fringe(rbs, a), Fringe(rbs, b));
  }

  lemma FringeStep3(bs: seq<Cell>, rbs: seq<Cell>, rb: seq<Option<nat>>, x: nat, r: nat)
    requires Arena(bs) && RBArena(rbs) && x < |bs| && |rb| == |bs| && Refs(rb, |rbs|)
    requires |bs[x].children| == 3 && Mirrors(bs, rbs, rb, x, r) && ChildrenMirrored(bs, rbs, rb, x)
    ensures Images(rb, Fringe(bs, x)) == Somes(Fringe(rbs, r))
  {
    var cs, rcs := bs[x].children, rbs[r].children;
    assert CellOk(bs[x], x);
    var a, b, c := rb[cs[0]].value, rb[cs[1]].value, rb[cs[2]].value;
    assert Images(rb, Fringe(bs, cs[0])) == Somes(Fringe(rbs, a));
    assert Images(rb, Fringe(bs, cs[1])) == Somes(Fringe(rbs, b));
    assert Images(rb, Fringe(bs, cs[2])) == Somes(Fringe(rbs, c));
    FringeThree(bs, x);
    FringeTwo(rbs, r, rcs[0], c);
    FringeTwo(rbs, rcs[0], a, b);
    Split3(bs, rb, cs[0], cs[1], cs[2]);
    SomesConcat(Fringe(rbs, a), Fringe(rbs, b));
    SomesConcat(Fringe(rbs, rcs[0]), Fringe(rbs, c));
  }

  lemma FringeStep4(bs: seq<Cell>, rbs: seq<Cell>, rb: seq<Option<nat>>, x: nat, r: nat)
    requires Arena(bs) && RBArena(rbs) && x < |bs| && |rb| == |bs| && Refs(rb, |rbs|)
    requires |bs[x].children| == 4 && Mirrors(bs, rbs, rb, x, r) && ChildrenMirrored(bs, rbs, rb, x)
    ensures Images(rb, Fringe(bs, x)) == Somes(Fringe(rbs, r))
  {
    var cs, rcs := bs[x].children, rbs[r].children;
    assert CellOk(bs[x], x);
    var a, b, c, d := rb[cs[0]].value, rb[cs[1]].value, rb[cs[2]].value, rb[cs[3]].value;
    assert Images(rb, Fringe(bs, cs[0])) == Somes(Fringe(rbs, a));
    assert Images(rb, Fringe(bs, cs[1])) == Somes(Fringe(rbs, b));
    assert Images(rb, Fringe(bs, cs[2])) == Somes(Fringe(rbs, c));
    assert Images(rb, Fringe(bs, cs[3])) == Somes(Fringe(rbs, d));
    FringeFour(bs, x);
    FringeTwo(rbs, r, rcs[0], rcs[1]);
    FringeTwo(rbs, rcs[0], a, b);
    FringeTwo(rbs, rcs[1], c, d);
    Split2(bs, rb, cs[0], cs[1]);
    Split2(bs, rb, cs[2], cs[3]);
    ImagesConcat(rb, Fringe(bs, cs[0]) + Fringe(bs, cs[1]), Fringe(bs, cs[2]) + Fringe(bs, cs[3]));
    SomesConcat(Fringe(rbs, a), Fringe(rbs, b));
    SomesConcat(Fringe(rbs, c), Fringe(rbs, d));
    SomesConcat(Fringe(rbs, rcs[0]), Fringe(rbs, rcs[1]));
  }

  lemma Split2(bs: seq<Cell>, rb: seq<Option<nat>>, a: nat, b: nat)
    requires Arena(bs) && a < |bs| && b < |bs| && |rb| == |bs|
    ensures Images(rb, Fringe(bs, a) + Fringe(bs, b)) == Images(rb, Fringe(bs, a)) + Images(rb, Fringe(bs, b))
  {
    ImagesConcat(rb, Fringe(bs, a), Fringe(bs, b));
  }

  lemma Split3(bs: seq<Cell>, rb: seq<Option<nat>>, a: nat, b: nat, c: nat)
    requires Arena(bs) && a < |bs| && b < |bs| && c < |bs| && |rb| == |bs|
    ensures Images(rb, Fringe(bs, a) + Fringe(bs, b) + Fringe(bs, c))
         == Images(rb, Fringe(bs, a)) + Images(rb, Fringe(bs, b)) + Images(rb, Fringe(bs, c))
  {
    ImagesConcat(rb, Fringe(bs, a), Fringe(bs, b));
    ImagesConcat(rb, Fringe(bs, a) + Fringe(bs, b), Fringe(bs, c));
  }

  lemma FringeThree(bs: seq<Cell>, x: nat)
    requires Arena(bs) && x < |bs| && |bs[x].children| == 3
    ensures var cs := bs[x].children; Fringe(bs, x) == Fringe(bs, cs[0]) + Fringe(bs, cs[1]) + Fringe(bs, cs[2])
  {
    var cs := bs[x].children;
    assert CellOk(bs[x], x);
    assert FringeAll(bs, cs, x) == Fringe(bs, cs[0]) + FringeAll(bs, cs[1..], x);
    assert FringeAll(bs, cs[1..], x) == Fringe(bs, cs[1]) + FringeAll(bs, cs[1..][1..], x);
    assert FringeAll(bs, cs[1..][1..], x) == Fringe(bs, cs[2]) + FringeAll(bs, cs[1..][1..][1..], x);
    assert cs[1..][1..][1..] == [];
  }

  lemma FringeFour(bs: seq<Cell>, x: nat)
    requires Arena(bs) && x < |bs| && |bs[x].children| == 4
    ensures var cs := bs[x].children;
      Fringe(bs, x) == (Fringe(bs, cs[0]) + Fringe(bs, cs[1])) + (Fringe(bs, cs[2]) + Fringe(bs, cs[3]))
  {
    var cs := bs[x].children;
    assert CellOk(bs[x], x);
    assert FringeAll(bs, cs, x) == Fringe(bs, cs[0]) + FringeAll(bs, cs[1..], x);
    assert FringeAll(bs, cs[1..], x) == Fringe(bs, cs[1]) + FringeAll(bs, cs[1..][1..], x);
    assert FringeAll(bs, cs[1..][1..], x) == Fringe(bs, cs[2]) + FringeAll(bs, cs[1..][1..][1..], x);
    assert FringeAll(bs, cs[1..][1..][1..], x) == Fringe(bs, cs[3]) + FringeAll(bs, cs[1..][1..][1..][1..], x);
    assert cs[1..][1..][1..][1..] == [];
  }

  /** The pair cached on x (`RL` over its first two children, `RR` over its last two)
      holds the mirrors of those children. */
  lemma CachedPair(bs: seq<Cell>, rbs: seq<Cell>, rb: seq<Option<nat>>, rl: seq<Option<nat>>, rr: seq<Option<nat>>,
                   back: seq<Option<nat>>, x: nat, right: bool)
    requires Caches(bs, rbs, rb, rl, rr, back) && x < |bs| && (if right then rr[x] else rl[x]).Some?
    ensures |bs[x].children| >= Offset(right) + 2
    ensures Pair(rbs, rb, (if right then rr[x] else rl[x]).value,
                 bs[x].children[Offset(right)], bs[x].children[Offset(right) + 1])
  {
    assert LeftCached(bs, rbs, rb, rl, x) && RightCached(bs, rbs, rb, rr, x);
  }

  /** Caching a pair over the right children keeps the caches consistent. */
  lemma StorePair(bs: seq<Cell>, rbs: seq<Cell>, rb: seq<Option<nat>>, rl: seq<Option<nat>>, rr: seq<Option<nat>>,
                  back: seq<Option<nat>>, x: nat, q: nat, right: bool)
    requires Caches(bs, rbs, rb, rl, rr, back) && x < |bs|
    requires if right then |bs[x].children| == 4 else 3 <= |bs[x].children| <= 4
    requires Pair(rbs, rb, q, bs[x].children[Offset(right)], bs[x].children[Offset(right) + 1])
    ensures right ==> Caches(bs, rbs, rb, rl, rr[x := Some(q)], back)
    ensures !right ==> Caches(bs, rbs, rb, rl[x := Some(q)], rr, back)
  {
    var rl', rr' := rl[x := Some(q)], rr[x := Some(q)];
    if right {
      forall y | 0 <= y < |bs|
        ensures RightCached(bs, rbs, rb, rr', y)
      {
        assert RightCached(bs, rbs, rb, rr, y);
      }
    } else {
      forall y | 0 <= y < |bs|
        ensures LeftCached(bs, rbs, rb, rl', y)
      {
        assert LeftCached(bs, rbs, rb, rl, y);
      }
    }
  }

  /** Where a pair starts among a 4-node's children: 0 for the left pair, 2 for the right. */
  function Offset(right: bool): nat
  {
    if right then 2 else 0
  }

  // ---------------------------------------------------------------------------------------
  // The caches as objects
  // ---------------------------------------------------------------------------------------

  /** The B-tree nodes with their caches, and the red-black nodes built so far with their
      `B` field. */
  class Mirror {
    const bs: seq<Cell>
    var rbs: seq<Cell>
    var RB: seq<Option<nat>>
    var RL: seq<Option<nat>>
    var RR: seq<Option<nat>>
    /** the `B` field of each red-black node: the B-node it was last handed out for */
    var B: seq<Option<nat>>

    ghost predicate Valid()
      reads this
    {
      && |RB| == |bs| && |RL| == |bs| && |RR| == |bs| && |B| == |rbs|
      && BArena(bs) && RBArena(rbs)
      && Refs(RB, |rbs|) && Refs(RL, |rbs|) && Refs(RR, |rbs|) && Refs(B, |bs|)
    }

    ghost predicate CacheOk()
      reads this
    {
      Caches(bs, rbs, RB, RL, RR, B)
    }

    function SlotsOf(x: nat): Slots
      reads this
      requires Valid() && x < |bs|
    {
      Slots(RB[x], RL[x], RR[x])
    }

    /** B-nodes as the B-tree's constructor leaves them: every cache `null`, and no
        red-black node yet. */
    constructor(bs: seq<Cell>)
      requires BArena(bs)
      ensures Valid() && CacheOk() && this.bs == bs && rbs == [] && B == []
      ensures RB == RL == RR == seq(|bs|, _ => None)
    {
      this.bs := bs;
      rbs, B := [], [];
      RB := seq(|bs|, _ => None);
      RL := RB;
      RR := RB;
    }

    /** `align(nodeNew, nodeOld)`: nodeNew's caches take whichever cache of nodeOld stands
        for the same pair of children. The source reads nodeOld's caches after writing
        nodeNew's; when the two are one node, whose children are distinct, the switch only
        copies a slot onto itself, so reading them first changes nothing. */
    method Align(nodeNew: nat, nodeOld: nat)
      requires Valid() && nodeNew < |bs| && nodeOld < |bs|
      modifies this
      ensures Valid() && rbs == old(rbs) && B == old(B)
      ensures var s := Aligned(bs[nodeNew].children, bs[nodeOld].children, old(SlotsOf(nodeNew)), old(SlotsOf(nodeOld)));
        RB == old(RB)[nodeNew := s.rb] && RL == old(RL)[nodeNew := s.rl] && RR == old(RR)[nodeNew := s.rr]
      ensures old(CacheOk()) && old(RB[nodeNew]).None? ==> CacheOk()
    {
      var s := AlignSlots(bs[nodeNew].children, bs[nodeOld].children, SlotsOf(nodeNew), SlotsOf(nodeOld));
      if CacheOk() && RB[nodeNew].None? {
        AlignKeepsCaches(bs, rbs, RB, RL, RR, B, nodeNew, nodeOld, s);
      }
      RB, RL, RR := RB[nodeNew := s.rb], RL[nodeNew := s.rl], RR[nodeNew := s.rr];
    }

    /** The loop of `isomorph` that picks the trace among the children's mirrors: the
        mirror of the B-node's traced child, or else the last other one at the current
        epoch. */
    method TraceIndex(children: seq<nat>, epoch: nat, t: Option<nat>) returns (idx: Option<nat>)
      requires forall j :: 0 <= j < |children| ==> children[j] < |rbs|
      ensures idx == PickTrace(EpochsOf(rbs, children), epoch, t)
    {
      ghost var es := EpochsOf(rbs, children);
      var indexTrace: Option<nat> := None;
      var indexOther: Option<nat> := None;
      for i := 0 to |children|
        invariant indexTrace == if t.Some? && t.value < i && es[t.value] == epoch then t else None
        invariant indexOther == LastAt(es[..i], epoch, t)
      {
        assert es[..i + 1][..i] == es[..i];
        if rbs[children[i]].epoch == epoch {
          if t == Some(i) {
            indexTrace := Some(i);
          } else {
            indexOther := Some(i);
          }
        }
      }
      assert es[..|children|] == es;
      idx := if indexTrace.None? && indexOther.Some? then indexOther else indexTrace;
    }

    /** `new this(epoch, children, childTrace)`: a red-black node whose `B` is `null`. */
    method NewCell(c: Cell) returns (r: nat)
      requires Valid() && CellOk(c, |rbs|) && (|c.children| == 0 || |c.children| == 2)
      requires c.trace.Some? ==> rbs[c.children[c.trace.value]].epoch == c.epoch
      modifies this
      ensures Valid() && r == |old(rbs)| && rbs == old(rbs) + [c] && B == old(B) + [None]
      ensures RB == old(RB) && RL == old(RL) && RR == old(RR)
      ensures old(CacheOk()) ==> CacheOk()
    {
      r := |rbs|;
      if CacheOk() {
        assert Keeps(RB, RB);
        CachesKeep(bs, rbs, RB, RL, RR, B, rbs + [c], RB, B + [None]);
      }
      RBArenaGrow(rbs, c);
      rbs, B := rbs + [c], B + [None];
    }

    /** The last lines of `isomorph`: the new mirror r is stored as `node.RB` and r's `B`
        set to the node. */
    method StoreRB(x: nat, r: nat, ghost children: seq<nat>, ghost epoch: nat)
      requires Valid() && CacheOk() && x < |bs| && r < |rbs| && RB[x].None?
      requires Mirrors(bs, rbs, RB, x, r)
      requires |children| == |bs[x].children|
      requires forall j :: 0 <= j < |children| ==> RB[bs[x].children[j]] == Some(children[j]) && children[j] < |rbs|
      requires Traced(rbs, r, children, bs[x].trace, epoch)
      modifies this
      ensures Valid() && CacheOk()
      ensures rbs == old(rbs) && RB == old(RB)[x := Some(r)] && B == old(B)[r := Some(x)]
      ensures RL == old(RL) && RR == old(RR)
      ensures Follows(bs, rbs, RB, x, r, epoch)
    {
      var t := bs[x].trace;
      if t.Some? && t.value < |children| {
        assert CellOk(bs[x], x);
        assert RB[bs[x].children[t.value]] == Some(children[t.value]);
      }
      var rb' := RB[x := Some(r)];
      assert Keeps(RB, rb');
      MirrorsKeeps(bs, rbs, RB, rbs, rb', x, r);
      CachesKeep(bs, rbs, RB, RL, RR, B, rbs, rb', B[r := Some(x)]);
      RB, B := rb', B[r := Some(x)];
    }

    /** One pair of a 3- or 4-node's mirror in `isomorph`: over x's first two children
        (`nodeL`, cached in `RL`) or, for `right`, its last two (`nodeR`, cached in `RR`).
        A cached pair is reused, and the source then asserts that the trace is not in it
        (failure, ok false). Otherwise a new pair is built at the current epoch, stored in
        the cache and traced to the traced child when it is in the pair, else to its first
        then its second child at the current epoch. */
    method Half(epoch: nat, x: nat, children: seq<nat>, idx: Option<nat>, right: bool) returns (ok: bool, node: nat, built: bool)
      requires Valid() && CacheOk() && x < |bs| && RB[x].None?
      requires if right then |bs[x].children| == 4 else 3 <= |bs[x].children| <= 4
      requires |children| == |bs[x].children|
      requires forall j :: 0 <= j < |children| ==> RB[bs[x].children[j]] == Some(children[j])
      requires idx.Some? ==> idx.value < |children| && rbs[children[idx.value]].epoch == epoch
      modifies this
      ensures Valid() && CacheOk()
      ensures old(rbs) <= rbs && RB == old(RB) && Keeps(old(RL), RL) && Keeps(old(RR), RR)
      ensures forall y :: 0 <= y < |bs| && y != x ==> RL[y] == old(RL[y]) && RR[y] == old(RR[y])
      ensures ok ==> Pair(rbs, RB, node, bs[x].children[Offset(right)], bs[x].children[Offset(right) + 1])
      ensures ok && built ==> rbs[node].epoch == epoch
      ensures ok && idx.Some? && Offset(right) <= idx.value < Offset(right) + 2 ==>
        built && rbs[node].trace == Some(idx.value - Offset(right))
      ensures !ok ==> idx.Some? && Offset(right) <= idx.value < Offset(right) + 2
    {
      var o := Offset(right);
      var cached := if right then RR[x] else RL[x];
      if cached.Some? {
        node := cached.value;
        CachedPair(bs, rbs, RB, RL, RR, B, x, right);
        // the source's assertion that the cached pair holds the same children
        assert rbs[node].children == children[o..o + 2];
        ok, built := !(idx.Some? && o <= idx.value < o + 2), false;
      } else {
        node := BuildPair(epoch, x, children, idx, right);
        ok, built := true, true;
      }
    }

    /** A new pair for `Half`, stored in the cache. */
    method BuildPair(epoch: nat, x: nat, children: seq<nat>, idx: Option<nat>, right: bool) returns (node: nat)
      requires Valid() && CacheOk() && x < |bs|
      requires if right then |bs[x].children| == 4 else 3 <= |bs[x].children| <= 4
      requires |children| == |bs[x].children|
      requires forall j :: 0 <= j < |children| ==> RB[bs[x].children[j]] == Some(children[j])
      requires idx.Some? ==> idx.value < |children| && rbs[children[idx.value]].epoch == epoch
      requires (if right then RR[x] else RL[x]).None?
      modifies this
      ensures Valid() && CacheOk()
      ensures old(rbs) <= rbs && RB == old(RB)
      ensures RL == if right then old(RL) else old(RL)[x := Some(node)]
      ensures RR == if right then old(RR)[x := Some(node)] else old(RR)
      ensures Pair(rbs, RB, node, bs[x].children[Offset(right)], bs[x].children[Offset(right) + 1])
      ensures rbs[node].epoch == epoch
      ensures idx.Some? && Offset(right) <= idx.value < Offset(right) + 2 ==> rbs[node].trace == Some(idx.value - Offset(right))
    {
      var o := Offset(right);
      var cs := bs[x].children;
      var trace := if idx.Some? && o <= idx.value < o + 2 then Some(idx.value - o)
                   else if rbs[children[o]].epoch == epoch then Some(0)
                   else if rbs[children[o + 1]].epoch == epoch then Some(1)
                   else None;
      assert children[o..o + 2] == [children[o], children[o + 1]];
      node := NewCell(Cell(epoch, children[o..o + 2], trace));
      assert Pair(rbs, RB, node, cs[o], cs[o + 1]);
      StorePair(bs, rbs, RB, RL, RR, B, x, node, right);
      if right {
        RR := RR[x := Some(node)];
      } else {
        RL := RL[x := Some(node)];
      }
    }

    /** `isomorph(epoch, node)`: the mirror of B-node x at the given epoch, built bottom-up
        and cached, or none where one of the source's assertions fails (an arity other than
        0, 2, 3 or 4; a child at the current epoch under a node without trace; a trace into
        a cached pair). A cached mirror is returned as it is, its `B` now x. The source's
        assertion that a cached pair holds the same children cannot fail: it follows from
        the caches' consistency, which every call keeps. */
    method Isomorph(epoch: nat, x: nat) returns (res: Option<nat>)
      requires Valid() && CacheOk() && x < |bs|
      modifies this
      ensures Valid() && CacheOk()
      ensures old(rbs) <= rbs && Keeps(old(RB), RB) && Keeps(old(RL), RL) && Keeps(old(RR), RR)
      ensures forall y :: x < y < |bs| ==> RB[y] == old(RB[y]) && RL[y] == old(RL[y]) && RR[y] == old(RR[y])
      ensures res.Some? ==> res.value < |rbs| && RB[x] == res && B[res.value] == Some(x)
      ensures old(RB[x]).Some? ==> res == old(RB[x])
      ensures res.Some? && old(RB[x]).None? ==> rbs[res.value].epoch == epoch && Follows(bs, rbs, RB, x, res.value, epoch)
      ensures old(RB[x]).None? && |bs[x].children| !in {0, 2, 3, 4} ==> res.None?
      decreases x, 1
    {
      if RB[x].Some? {
        var r := RB[x].value;
        B := B[r := Some(x)];
        return Some(r);
      }
      var children := MirrorChildren(epoch, x);
      if children.None? {
        return None;
      }
      res := Assemble(epoch, x, children.value);
    }

    /** `node.children.map(child => this.isomorph(epoch, child))`: the mirrors of x's
        children, left to right, or none as soon as one fails. */
    method MirrorChildren(epoch: nat, x: nat) returns (children: Option<seq<nat>>)
      requires Valid() && CacheOk() && x < |bs|
      modifies this
      ensures Valid() && CacheOk()
      ensures old(rbs) <= rbs && Keeps(old(RB), RB) && Keeps(old(RL), RL) && Keeps(old(RR), RR)
      ensures forall y :: x <= y < |bs| ==> RB[y] == old(RB[y]) && RL[y] == old(RL[y]) && RR[y] == old(RR[y])
      ensures children.Some? ==> Images(RB, bs[x].children) == Somes(children.value)
      decreases x, 0
    {
      var cs := bs[x].children;
      assert CellOk(bs[x], x);
      var mirrors: seq<nat> := [];
      for i := 0 to |cs|
        invariant |mirrors| == i
        invariant Valid() && CacheOk()
        invariant old(rbs) <= rbs && Keeps(old(RB), RB) && Keeps(old(RL), RL) && Keeps(old(RR), RR)
        invariant forall y :: x <= y < |bs| ==> RB[y] == old(RB[y]) && RL[y] == old(RL[y]) && RR[y] == old(RR[y])
        invariant forall j :: 0 <= j < i ==> RB[cs[j]] == Some(mirrors[j])
      {
        var c := Isomorph(epoch, cs[i]);
        if c.None? {
          return None;
        }
        mirrors := mirrors + [c.value];
      }
      return Some(mirrors);
    }

    /** The rest of `isomorph` once the children are mirrored: the trace, then the node for
        x's arity, stored as x's `RB` with x as its `B`. */
    method Assemble(epoch: nat, x: nat, children: seq<nat>) returns (res: Option<nat>)
      requires Valid() && CacheOk() && x < |bs| && RB[x].None?
      requires Images(RB, bs[x].children) == Somes(children)
      modifies this
      ensures Valid() && CacheOk()
      ensures old(rbs) <= rbs && RB == old(RB)[x := res] && Keeps(old(RL), RL) && Keeps(old(RR), RR)
      ensures forall y :: 0 <= y < |bs| && y != x ==> RL[y] == old(RL[y]) && RR[y] == old(RR[y])
      ensures res.Some? ==> res.value < |rbs| && B[res.value] == Some(x)
      ensures res.Some? ==> rbs[res.value].epoch == epoch && Follows(bs, rbs, RB, x, res.value, epoch)
      ensures |bs[x].children| !in {0, 2, 3, 4} ==> res.None?
    {
      var cs := bs[x].children;
      assert CellOk(bs[x], x);
      assert forall j :: 0 <= j < |cs| ==> RB[cs[j]] == Some(children[j]) && children[j] < |rbs|;
      var idx := TraceIndex(children, epoch, bs[x].trace);
      if idx.Some? && bs[x].trace.None? {
        return None;
      }
      var ok, r := Shape(epoch, x, children, idx);
      if !ok {
        return None;
      }
      StoreRB(x, r, children, epoch);
      return Some(r);
    }

    /** The switch on x's arity in `isomorph`: a leaf; the binary node over the two
        children; for a 3-node the pair over the first two beside the third; for a 4-node the
        two pairs. Its trace follows the B-node's trace into the pair that holds it. */
    method Shape(epoch: nat, x: nat, children: seq<nat>, idx: Option<nat>) returns (ok: bool, r: nat)
      requires Valid() && CacheOk() && x < |bs| && RB[x].None?
      requires |children| == |bs[x].children|
      requires forall j :: 0 <= j < |children| ==> RB[bs[x].children[j]] == Some(children[j]) && children[j] < |rbs|
      requires idx == PickTrace(EpochsOf(rbs, children), epoch, bs[x].trace)
      modifies this
      ensures Valid() && CacheOk()
      ensures old(rbs) <= rbs && RB == old(RB) && Keeps(old(RL), RL) && Keeps(old(RR), RR)
      ensures forall y :: 0 <= y < |bs| && y != x ==> RL[y] == old(RL[y]) && RR[y] == old(RR[y])
      ensures ok ==> r < |rbs| && Mirrors(bs, rbs, RB, x, r) && rbs[r].epoch == epoch
      ensures ok ==> Traced(rbs, r, children, bs[x].trace, epoch)
      ensures |bs[x].children| !in {0, 2, 3, 4} ==> !ok
    {
      var cs := bs[x].children;
      r := 0;
      if |cs| == 0 {
        r := NewCell(Cell(epoch, [], None));
        ok := true;
      } else if |cs| == 2 {
        r := NewCell(Cell(epoch, children, idx));
        ok := true;
      } else if |cs| == 3 {
        ok, r := Shape3(epoch, x, children, idx);
      } else if |cs| == 4 {
        ok, r := Shape4(epoch, x, children, idx);
      } else {
        ok := false;
      }
    }

    /** A 3-node: [pair(c0, c1), c2], traced to the third child when it holds the trace,
        else to a newly built pair. */
    method Shape3(epoch: nat, x: nat, children: seq<nat>, idx: Option<nat>) returns (ok: bool, r: nat)
      requires Valid() && CacheOk() && x < |bs| && RB[x].None? && |bs[x].children| == 3
      requires |children| == |bs[x].children|
      requires forall j :: 0 <= j < |children| ==> RB[bs[x].children[j]] == Some(children[j]) && children[j] < |rbs|
      requires idx == PickTrace(EpochsOf(rbs, children), epoch, bs[x].trace)
      modifies this
      ensures Valid() && CacheOk()
      ensures old(rbs) <= rbs && RB == old(RB) && Keeps(old(RL), RL) && Keeps(old(RR), RR)
      ensures forall y :: 0 <= y < |bs| && y != x ==> RL[y] == old(RL[y]) && RR[y] == old(RR[y])
      ensures ok ==> r < |rbs| && Mirrors(bs, rbs, RB, x, r) && rbs[r].epoch == epoch
      ensures ok ==> Traced(rbs, r, children, bs[x].trace, epoch)
    {
      var cs := bs[x].children;
      r := 0;
      var nodeL, builtL;
      ok, nodeL, builtL := Half(epoch, x, children, idx, false);
      if !ok {
        return;
      }
      var trace3 := if idx.Some? && idx.value >= 2 then Some(1) else if builtL then Some(0) else None;
      ghost var rbsL := rbs;
      r := NewCell(Cell(epoch, [nodeL, children[2]], trace3));
      PairKeeps(rbsL, RB, rbs, RB, nodeL, cs[0], cs[1]);
    }

    /** A 4-node: [pair(c0, c1), pair(c2, c3)], traced to the pair that holds the trace, else
        to a newly built pair, the left one first. */
    method Shape4(epoch: nat, x: nat, children: seq<nat>, idx: Option<nat>) returns (ok: bool, r: nat)
      requires Valid() && CacheOk() && x < |bs| && RB[x].None? && |bs[x].children| == 4
      requires |children| == |bs[x].children|
      requires forall j :: 0 <= j < |children| ==> RB[bs[x].children[j]] == Some(children[j]) && children[j] < |rbs|
      requires idx == PickTrace(EpochsOf(rbs, children), epoch, bs[x].trace)
      modifies this
      ensures Valid() && CacheOk()
      ensures old(rbs) <= rbs && RB == old(RB) && Keeps(old(RL), RL) && Keeps(old(RR), RR)
      ensures forall y :: 0 <= y < |bs| && y != x ==> RL[y] == old(RL[y]) && RR[y] == old(RR[y])
      ensures ok ==> r < |rbs| && Mirrors(bs, rbs, RB, x, r) && rbs[r].epoch == epoch
      ensures ok ==> Traced(rbs, r, children, bs[x].trace, epoch)
    {
      r := 0;
      var nodeL, builtL;
      ok, nodeL, builtL := Half(epoch, x, children, idx, false);
      if ok {
        ok, r := Shape4Right(epoch, x, children, idx, nodeL, builtL);
      }
    }

    /** The rest of a 4-node once its left pair is in place: the right pair, then the node
        over both. */
    method Shape4Right(epoch: nat, x: nat, children: seq<nat>, idx: Option<nat>, nodeL: nat, builtL: bool)
      returns (ok: bool, r: nat)
      requires Valid() && CacheOk() && x < |bs| && RB[x].None? && |bs[x].children| == 4
      requires |children| == 4
      requires forall j :: 0 <= j < 4 ==> RB[bs[x].children[j]] == Some(children[j]) && children[j] < |rbs|
      requires idx.Some? ==> idx.value < 4 && rbs[children[idx.value]].epoch == epoch
      requires bs[x].trace.Some? && bs[x].trace.value < 4 && rbs[children[bs[x].trace.value]].epoch == epoch ==> idx == bs[x].trace
      requires Pair(rbs, RB, nodeL, bs[x].children[0], bs[x].children[1])
      requires builtL ==> rbs[nodeL].epoch == epoch
      requires idx.Some? && idx.value < 2 ==> builtL && rbs[nodeL].trace == Some(idx.value)
      modifies this
      ensures Valid() && CacheOk()
      ensures old(rbs) <= rbs && RB == old(RB) && Keeps(old(RL), RL) && Keeps(old(RR), RR)
      ensures forall y :: 0 <= y < |bs| && y != x ==> RL[y] == old(RL[y]) && RR[y] == old(RR[y])
      ensures ok ==> r < |rbs| && Mirrors(bs, rbs, RB, x, r) && rbs[r].epoch == epoch
      ensures ok ==> Traced(rbs, r, children, bs[x].trace, epoch)
    {
      var cs := bs[x].children;
      r := 0;
      ghost var rbsL := rbs;
      var nodeR, builtR;
      ok, nodeR, builtR := Half(epoch, x, children, idx, true);
      if !ok {
        return;
      }
      PairKeeps(rbsL, RB, rbs, RB, nodeL, cs[0], cs[1]);
      var trace4 := if idx.Some? && idx.value >= 2 then Some(1)
                    else if builtL then Some(0)
                    else if builtR then Some(1)
                    else None;
      ghost var rbsR := rbs;
      r := NewCell(Cell(epoch, [nodeL, nodeR], trace4));
      PairKeeps(rbsR, RB, rbs, RB, nodeL, cs[0], cs[1]);
      PairKeeps(rbsR, RB, rbs, RB, nodeR, cs[2], cs[3]);
    }
  }

  /** When the mirror of x's traced child is at the current epoch, the trace of x's mirror r
      leads to it within two steps: through the pair that holds it, for a 3- or 4-node. */
  ghost predicate Follows(bs: seq<Cell>, rbs: seq<Cell>, rb: seq<Option<nat>>, x: nat, r: nat, epoch: nat)
    requires BArena(bs) && RBArena(rbs) && Refs(rb, |rbs|) && |rb| == |bs| && x < |bs| && r < |rbs|
  {
    var cs, t := bs[x].children, bs[x].trace;
    (t.Some? && t.value < |cs| && rb[cs[t.value]].Some? && rbs[rb[cs[t.value]].value].epoch == epoch) ==>
      Reaches(rbs, r, rb[cs[t.value]].value)
  }

  /** The same on the children's mirrors: when the mirror of the traced child t is at the
      current epoch, r's trace reaches it. */
  ghost predicate Traced(rbs: seq<Cell>, r: nat, children: seq<nat>, t: Option<nat>, epoch: nat)
    requires RBArena(rbs) && r < |rbs| && forall j :: 0 <= j < |children| ==> children[j] < |rbs|
  {
    (t.Some? && t.value < |children| && rbs[children[t.value]].epoch == epoch) ==>
      Reaches(rbs, r, children[t.value])
  }
}
