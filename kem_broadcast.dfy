/** The per-node state of TreeKEM (src/TreeKEM.js) and its static `broadcast` (lines
    215-256), which counts the work of sending a fresh secret to a subtree. A leaf carries its
    user's `removed` flag and six counters; an inner node carries `secret` (`true` when every
    child knows the node's secret, else the list of children that know it) and `secretGrand`
    (grandchildren that still know a secret the node had before a split). Nodes are named by
    `Ref`s, so these fields are maps from `Ref`s; a node without an entry has the values the
    source gives a new node (`secret: []`, `secretGrand: []`). */
module KemBroadcast {
  import opened Utils
  import opened Trees

  /** `secret`: `true`, or the children (by `Ref`) that know the node's secret. */
  datatype Secret = Full | Part(covered: seq<Ref>)

  /** The six counters of a leaf, in the order of the `counts` array. */
  datatype Counts = Counts(prg: nat, gen: nat, enc: nat, dec: nat, decPrg: nat, decGen: nat)

  const Zero := Counts(0, 0, 0, 0, 0, 0)

  function SecretOf(secret: map<Ref, Secret>, r: Ref): Secret
  {
    if r in secret then secret[r] else Part([])
  }

  function GrandOf(grand: map<Ref, seq<Ref>>, r: Ref): seq<Ref>
  {
    if r in grand then grand[r] else []
  }

  /** The `removed` flag of a user's leaf. */
  predicate Flag(removed: seq<bool>, u: nat)
  {
    u < |removed| && removed[u]
  }

  /** The `removed` flag `setRemoved` gives a node: its user's flag for a leaf, "every child
      removed" for an inner node. */
  predicate IsRemoved(t: Tree, removed: seq<bool>)
    decreases t, |Children(t)| + 1
  {
    if t.Leaf? then Flag(removed, t.user) else EveryRemoved(t, |Children(t)|, removed)
  }

  /** `children.every(c => c.removed)` over the first i children. */
  predicate EveryRemoved(t: Tree, i: nat, removed: seq<bool>)
    requires i <= |Children(t)|
    decreases t, i
  {
    i == 0 || (EveryRemoved(t, i - 1, removed) && IsRemoved(Children(t)[i - 1], removed))
  }

  /** The live users below a node, left to right. */
  function Live(s: seq<nat>, removed: seq<bool>): seq<nat>
    decreases |s|
  {
    if s == [] then []
    else (if Flag(removed, s[0]) then [] else [s[0]]) + Live(s[1..], removed)
  }

  /** A user is among the live users of a list exactly when it is in the list and not removed. */
  lemma {:induction false} LiveMembers(s: seq<nat>, removed: seq<bool>, x: nat)
    ensures x in Live(s, removed) <==> x in s && !Flag(removed, x)
    decreases |s|
  {
    if s != [] {
      LiveMembers(s[1..], removed, x);
      assert s == [s[0]] + s[1..];
    }
  }

  lemma {:induction false} LiveAppend(a: seq<nat>, b: seq<nat>, removed: seq<bool>)
    ensures Live(a + b, removed) == Live(a, removed) + Live(b, removed)
    decreases |a|
  {
    if a == [] {
      assert a + b == b;
    } else {
      var head := if Flag(removed, a[0]) then [] else [a[0]];
      assert (a + b)[0] == a[0] && (a + b)[1..] == a[1..] + b;
      assert Live(a + b, removed) == head + Live(a[1..] + b, removed);
      LiveAppend(a[1..], b, removed);
      assert Live(a, removed) == head + Live(a[1..], removed);
    }
  }

  /** The leaves of a node are those of its children, in order. */
  lemma {:induction false} LeavesOfChildren(t: Tree)
    ensures Leaves(t) == if t.Leaf? then [t.user] else LeavesOf(Children(t))
  {
    if t.Bin? {
      LeavesOfAppend([t.left], [t.right]);
      LeavesOfOne(t.left);
      LeavesOfOne(t.right);
      assert [t.left] + [t.right] == [t.left, t.right];
    }
  }

  /** The flag `setRemoved` computes for a node says whether every leaf below it is removed. */
  lemma {:induction false} RemovedMeansAllLeaves(t: Tree, removed: seq<bool>)
    ensures IsRemoved(t, removed) <==> Live(Leaves(t), removed) == []
    decreases t, 1
  {
    if !t.Leaf? {
      LeavesOfChildren(t);
      ChildrenRemoved(t, Children(t), |Children(t)|, removed);
      assert Children(t)[..|Children(t)|] == Children(t);
    }
  }

  lemma {:induction false} ChildrenRemoved(t: Tree, cs: seq<Tree>, i: nat, removed: seq<bool>)
    requires cs == Children(t) && i <= |cs|
    ensures EveryRemoved(t, i, removed) <==> Live(LeavesOf(cs[..i]), removed) == []
    decreases t, 0, i
  {
    if i > 0 {
      ChildrenRemoved(t, cs, i - 1, removed);
      LeavesOfPrefix(cs, i);
      LiveAppend(LeavesOf(cs[..i - 1]), Leaves(cs[i - 1]), removed);
      RemovedMeansAllLeaves(cs[i - 1], removed);
    } else {
      assert cs[..0] == [];
    }
  }

  /** What a broadcast below a node amounts to: the encryptions counted for the sender, the
      users whose leaves decrypt (each counts one `dec`), and the value returned, which says
      whether a child used the `secretGrand` handed down. */
  datatype Sent = Sent(enc: nat, received: seq<nat>, used: bool)

  /** The flags the loop over the children of `broadcast` accumulates. */
  datatype Spread = Spread(enc: nat, received: seq<nat>, useGrand: bool, useSecret: bool, selfUsed: bool)

  /** How `selfSecretGrandUsed` combines the children's answers: as written, the answer of the
      last child; as evidently intended, whether any child used the secret. */
  datatype Tally = LastChild | AnyChild

  /** `broadcast(t, counts, update, count, sg)`: nothing for a removed node; at a live leaf,
      one `enc` for the sender when `count` is set and one decryption; at an inner node, each
      child is sent the node's secret instead of being counted when it holds a grandchild
      secret (in `sg`) or knows the node's secret, and the node pays one `enc` for its own
      secret and one for its `secretGrand` when those were used. */
  function Reach(t: Tree, removed: seq<bool>, secret: map<Ref, Secret>, grand: map<Ref, seq<Ref>>,
                 count: bool, sg: seq<Ref>, tally: Tally): (s: Sent)
    decreases t, |Children(t)| + 1
  {
    if IsRemoved(t, removed) then Sent(0, [], false)
    else if t.Leaf? then Sent(if count then 1 else 0, [t.user], false)
    else
      var r := SpreadUpTo(t, |Children(t)|, removed, secret, grand, count, sg, tally);
      Sent(r.enc + (if count && r.useSecret then 1 else 0) + (if count && r.selfUsed then 1 else 0),
           r.received, r.useGrand)
  }

  /** The loop of `broadcast` over the first i children of t; `sg` is the `secretGrand`
      handed to t, and each child is handed t's own. */
  function SpreadUpTo(t: Tree, i: nat, removed: seq<bool>, secret: map<Ref, Secret>, grand: map<Ref, seq<Ref>>,
                      count: bool, sg: seq<Ref>, tally: Tally): (r: Spread)
    requires i <= |Children(t)|
    decreases t, i
  {
    if i == 0 then Spread(0, [], false, false, false)
    else
      var prev := SpreadUpTo(t, i - 1, removed, secret, grand, count, sg, tally);
      var c, own := Children(t)[i - 1], SecretOf(secret, RefOf(t));
      SpreadStep(prev, c, own, sg,
                 Reach(c, removed, secret, grand, count && !Knows(c, own, sg), GrandOf(grand, RefOf(t)), tally),
                 tally)
  }

  /** A child is sent the node's secret (and not counted) when `secretGrand` or `secret`
      lists it. */
  predicate Knows(c: Tree, own: Secret, sg: seq<Ref>)
  {
    RefOf(c) in sg || own.Full? || RefOf(c) in own.covered
  }

  /** One pass of the loop: which branch the child took, and what its broadcast gave. */
  function SpreadStep(prev: Spread, c: Tree, own: Secret, sg: seq<Ref>, sent: Sent, tally: Tally): Spread
  {
    Spread(prev.enc + sent.enc, prev.received + sent.received,
           prev.useGrand || RefOf(c) in sg,
           prev.useSecret || (RefOf(c) !in sg && (own.Full? || RefOf(c) in own.covered)),
           if tally == LastChild then sent.used else prev.selfUsed || sent.used)
  }

  /** `broadcast` as written (TreeKEM.js:236-246). */
  function BroadcastAsWritten(t: Tree, removed: seq<bool>, secret: map<Ref, Secret>, grand: map<Ref, seq<Ref>>,
                              count: bool, sg: seq<Ref>): (s: Sent)
    ensures s.received == Live(Leaves(t), removed)
    ensures !count ==> s.enc == 0
  {
    Reached(t, removed, secret, grand, count, sg, LastChild);
    Reach(t, removed, secret, grand, count, sg, LastChild)
  }

  /** `broadcast` with `selfSecretGrandUsed` set when any child used the `secretGrand`; the
      model's `update` uses this one. Every live leaf below decrypts exactly once, in order,
      and nothing is counted for the sender unless `count` is set. */
  function Broadcast(t: Tree, removed: seq<bool>, secret: map<Ref, Secret>, grand: map<Ref, seq<Ref>>,
                     count: bool, sg: seq<Ref>): (s: Sent)
    ensures s.received == Live(Leaves(t), removed)
    ensures !count ==> s.enc == 0
  {
    Reached(t, removed, secret, grand, count, sg, AnyChild);
    Reach(t, removed, secret, grand, count, sg, AnyChild)
  }

  /** The users that decrypt are the live leaves below the node, left to right; nothing is
      counted when `count` is unset. */
  lemma {:induction false} Reached(t: Tree, removed: seq<bool>, secret: map<Ref, Secret>, grand: map<Ref, seq<Ref>>,
                                   count: bool, sg: seq<Ref>, tally: Tally)
    ensures Reach(t, removed, secret, grand, count, sg, tally).received == Live(Leaves(t), removed)
    ensures !count ==> Reach(t, removed, secret, grand, count, sg, tally).enc == 0
    decreases t, |Children(t)| + 1
  {
    RemovedMeansAllLeaves(t, removed);
    if !IsRemoved(t, removed) && !t.Leaf? {
      var cs := Children(t);
      SpreadReached(t, |cs|, removed, secret, grand, count, sg, tally);
      LeavesOfChildren(t);
      assert cs[..|cs|] == cs;
    }
  }

  lemma {:induction false} SpreadReached(t: Tree, i: nat, removed: seq<bool>, secret: map<Ref, Secret>,
                                         grand: map<Ref, seq<Ref>>, count: bool, sg: seq<Ref>, tally: Tally)
    requires i <= |Children(t)|
    ensures SpreadUpTo(t, i, removed, secret, grand, count, sg, tally).received == Live(LeavesOf(Children(t)[..i]), removed)
    ensures !count ==> SpreadUpTo(t, i, removed, secret, grand, count, sg, tally).enc == 0
    decreases t, i
  {
    var cs := Children(t);
    if i == 0 {
      assert cs[..0] == [];
    } else {
      SpreadReached(t, i - 1, removed, secret, grand, count, sg, tally);
      var own := SecretOf(secret, RefOf(t));
      Reached(cs[i - 1], removed, secret, grand, count && !Knows(cs[i - 1], own, sg), GrandOf(grand, RefOf(t)), tally);
      LeavesOfPrefix(cs, i);
      LiveAppend(LeavesOf(cs[..i - 1]), Leaves(cs[i - 1]), removed);
    }
  }

  /** `broadcast` as the recursive loop it is, proved to compute `Reach`. */
  method BroadcastTo(t: Tree, removed: seq<bool>, secret: map<Ref, Secret>, grand: map<Ref, seq<Ref>>,
                     count: bool, sg: seq<Ref>, tally: Tally) returns (s: Sent)
    ensures s == Reach(t, removed, secret, grand, count, sg, tally)
    decreases t, |Children(t)| + 1
  {
    if IsRemoved(t, removed) {
      return Sent(0, [], false);
    }
    if t.Leaf? {
      return Sent(if count then 1 else 0, [t.user], false);
    }
    var cs := Children(t);
    var own, below := SecretOf(secret, RefOf(t)), GrandOf(grand, RefOf(t));
    var acc := Spread(0, [], false, false, false);
    var i := 0;
    while i < |cs|
      invariant i <= |cs|
      invariant acc == SpreadUpTo(t, i, removed, secret, grand, count, sg, tally)
    {
      var c := cs[i];
      var sent;
      if Knows(c, own, sg) {
        // the child holds a grandchild secret or knows this node's secret
        sent := BroadcastTo(c, removed, secret, grand, false, below, tally);
      } else {
        sent := BroadcastTo(c, removed, secret, grand, count, below, tally);
      }
      acc := SpreadStep(acc, c, own, sg, sent, tally);
      i := i + 1;
    }
    s := Sent(acc.enc + (if count && acc.useSecret then 1 else 0) + (if count && acc.selfUsed then 1 else 0),
              acc.received, acc.useGrand);
  }

  /** No node keeps a secret its children know, and no grandchild secret is kept. */
  predicate NoSecrets(secret: map<Ref, Secret>, grand: map<Ref, seq<Ref>>)
  {
    (forall r :: r in secret ==> secret[r] == Part([])) && (forall r :: r in grand ==> grand[r] == [])
  }

  /** Without kept secrets a broadcast costs one encryption per live leaf, whichever way
      `selfSecretGrandUsed` is combined. */
  lemma {:induction false} OneEncPerLeaf(t: Tree, removed: seq<bool>, secret: map<Ref, Secret>,
                                         grand: map<Ref, seq<Ref>>, tally: Tally)
    requires NoSecrets(secret, grand)
    ensures Reach(t, removed, secret, grand, true, [], tally).enc == |Live(Leaves(t), removed)|
    ensures !Reach(t, removed, secret, grand, true, [], tally).used
    decreases t, |Children(t)| + 1
  {
    Reached(t, removed, secret, grand, true, [], tally);
    if !IsRemoved(t, removed) && !t.Leaf? {
      SpreadOnePerLeaf(t, |Children(t)|, removed, secret, grand, tally);
    }
  }

  lemma {:induction false} SpreadOnePerLeaf(t: Tree, i: nat, removed: seq<bool>, secret: map<Ref, Secret>,
                                            grand: map<Ref, seq<Ref>>, tally: Tally)
    requires NoSecrets(secret, grand) && i <= |Children(t)|
    ensures var r := SpreadUpTo(t, i, removed, secret, grand, true, [], tally);
            r.enc == |r.received| && !r.useGrand && !r.useSecret && !r.selfUsed
    decreases t, i
  {
    if i > 0 {
      SpreadOnePerLeaf(t, i - 1, removed, secret, grand, tally);
      var c := Children(t)[i - 1];
      assert SecretOf(secret, RefOf(t)) == Part([]) && GrandOf(grand, RefOf(t)) == [];
      OneEncPerLeaf(c, removed, secret, grand, tally);
      Reached(c, removed, secret, grand, true, [], tally);
    }
  }

  /** A live node whose secret every child knows, with no grandchild secret kept, costs the
      sender exactly one encryption. */
  lemma {:induction false} OneEncForFullSecret(t: Tree, removed: seq<bool>, secret: map<Ref, Secret>,
                                               grand: map<Ref, seq<Ref>>, tally: Tally)
    requires !t.Leaf? && !IsRemoved(t, removed)
    requires SecretOf(secret, RefOf(t)) == Full && GrandOf(grand, RefOf(t)) == []
    ensures Reach(t, removed, secret, grand, true, [], tally).enc == 1
  {
    var n := |Children(t)|;
    SpreadFull(t, n, removed, secret, grand, tally);
    assert n > 0;
  }

  lemma {:induction false} SpreadFull(t: Tree, i: nat, removed: seq<bool>, secret: map<Ref, Secret>,
                                      grand: map<Ref, seq<Ref>>, tally: Tally)
    requires SecretOf(secret, RefOf(t)) == Full && GrandOf(grand, RefOf(t)) == [] && i <= |Children(t)|
    ensures var r := SpreadUpTo(t, i, removed, secret, grand, true, [], tally);
            r.enc == 0 && !r.useGrand && (r.useSecret <==> i > 0) && !r.selfUsed
    decreases i
  {
    if i > 0 {
      SpreadFull(t, i - 1, removed, secret, grand, tally);
      var c := Children(t)[i - 1];
      Reached(c, removed, secret, grand, false, [], tally);
      NothingHandedDown(c, removed, secret, grand, tally);
    }
  }

  /** A node handed no `secretGrand` never reports using one. */
  lemma {:induction false} NothingHandedDown(t: Tree, removed: seq<bool>, secret: map<Ref, Secret>,
                                             grand: map<Ref, seq<Ref>>, tally: Tally)
    ensures !Reach(t, removed, secret, grand, false, [], tally).used
  {
    if !IsRemoved(t, removed) && !t.Leaf? {
      NothingHandedDownSpread(t, |Children(t)|, removed, secret, grand, tally);
    }
  }

  lemma {:induction false} NothingHandedDownSpread(t: Tree, i: nat, removed: seq<bool>, secret: map<Ref, Secret>,
                                                   grand: map<Ref, seq<Ref>>, tally: Tally)
    requires i <= |Children(t)|
    ensures !SpreadUpTo(t, i, removed, secret, grand, false, [], tally).useGrand
    decreases i
  {
    if i > 0 {
      NothingHandedDownSpread(t, i - 1, removed, secret, grand, tally);
    }
  }

  /** A node with two children: removed when both are, and its loop is two passes. */
  lemma {:induction false} PairUnfold(k: nat, c0: Tree, c1: Tree, removed: seq<bool>, secret: map<Ref, Secret>,
                                      grand: map<Ref, seq<Ref>>, count: bool, sg: seq<Ref>, tally: Tally)
    ensures IsRemoved(Multi(k, [c0, c1]), removed) <==> IsRemoved(c0, removed) && IsRemoved(c1, removed)
    ensures var own, below := SecretOf(secret, Inner(k)), GrandOf(grand, Inner(k));
            SpreadUpTo(Multi(k, [c0, c1]), 2, removed, secret, grand, count, sg, tally)
            == SpreadStep(SpreadStep(Spread(0, [], false, false, false), c0, own, sg,
                                     Reach(c0, removed, secret, grand, count && !Knows(c0, own, sg), below, tally), tally),
                          c1, own, sg,
                          Reach(c1, removed, secret, grand, count && !Knows(c1, own, sg), below, tally), tally)
  {
    var t := Multi(k, [c0, c1]);
    assert Children(t) == [c0, c1];
    assert EveryRemoved(t, 1, removed) <==> IsRemoved(c0, removed);
    var own, below := SecretOf(secret, Inner(k)), GrandOf(grand, Inner(k));
    assert SpreadUpTo(t, 1, removed, secret, grand, count, sg, tally)
        == SpreadStep(Spread(0, [], false, false, false), c0, own, sg,
                      Reach(c0, removed, secret, grand, count && !Knows(c0, own, sg), below, tally), tally);
  }

  /** With `selfSecretGrandUsed` set by any child, the cost of a broadcast below a node with
      two children does not depend on their order. */
  lemma {:induction false} ChildOrderIrrelevant(k: nat, c0: Tree, c1: Tree, removed: seq<bool>, secret: map<Ref, Secret>,
                                                grand: map<Ref, seq<Ref>>, count: bool, sg: seq<Ref>)
    ensures Reach(Multi(k, [c0, c1]), removed, secret, grand, count, sg, AnyChild).enc
         == Reach(Multi(k, [c1, c0]), removed, secret, grand, count, sg, AnyChild).enc
  {
    PairUnfold(k, c0, c1, removed, secret, grand, count, sg, AnyChild);
    PairUnfold(k, c1, c0, removed, secret, grand, count, sg, AnyChild);
    assert |Children(Multi(k, [c0, c1]))| == 2 && |Children(Multi(k, [c1, c0]))| == 2;
  }

  /** The node of the example: a grandchild secret kept for the leaf of user 1, which sits
      below the first child. */
  function GrandExample(first: Tree, second: Tree): Tree
  {
    Multi(0, [first, second])
  }

  const ExampleLeft := Multi(1, [Leaf(1), Leaf(2)])
  const ExampleRight := Multi(2, [Leaf(3), Leaf(4)])

  function ExampleGrand(): map<Ref, seq<Ref>>
  {
    map[Inner(0) := [User(1)]]
  }

  /** As written, the `secretGrand` that user 1 decrypts is paid for only when the child
      holding user 1 comes last: the same node costs 3 encryptions or 4 depending on the
      order of its children. */
  lemma {:induction false} GrandSecretLostAsWritten()
    ensures Reach(GrandExample(ExampleLeft, ExampleRight), [false, false, false, false, false], map[], ExampleGrand(),
                  true, [], LastChild).enc == 3
    ensures Reach(GrandExample(ExampleRight, ExampleLeft), [false, false, false, false, false], map[], ExampleGrand(),
                  true, [], LastChild).enc == 4
  {
    var removed: seq<bool> := [false, false, false, false, false];
    ExampleChildren(removed, LastChild);
    PairUnfold(0, ExampleLeft, ExampleRight, removed, map[], ExampleGrand(), true, [], LastChild);
    PairUnfold(0, ExampleRight, ExampleLeft, removed, map[], ExampleGrand(), true, [], LastChild);
    assert |Children(GrandExample(ExampleLeft, ExampleRight))| == 2;
    assert |Children(GrandExample(ExampleRight, ExampleLeft))| == 2;
  }

  /** With the answers combined over all children, the node pays for the grandchild secret
      in either order: 4 encryptions, one per decrypting leaf. */
  lemma {:induction false} GrandSecretCounted()
    ensures Reach(GrandExample(ExampleLeft, ExampleRight), [false, false, false, false, false], map[], ExampleGrand(),
                  true, [], AnyChild).enc == 4
    ensures Reach(GrandExample(ExampleRight, ExampleLeft), [false, false, false, false, false], map[], ExampleGrand(),
                  true, [], AnyChild).enc == 4
  {
    var removed: seq<bool> := [false, false, false, false, false];
    ExampleChildren(removed, AnyChild);
    PairUnfold(0, ExampleLeft, ExampleRight, removed, map[], ExampleGrand(), true, [], AnyChild);
    assert |Children(GrandExample(ExampleLeft, ExampleRight))| == 2;
    ChildOrderIrrelevant(0, ExampleLeft, ExampleRight, removed, map[], ExampleGrand(), true, []);
  }

  /** The two children of the example, handed the grandchild secret of user 1: the first
      decrypts user 1 with it and pays one encryption for user 2; the second pays one for
      each leaf. */
  lemma {:induction false} ExampleChildren(removed: seq<bool>, tally: Tally)
    requires removed == [false, false, false, false, false]
    ensures Reach(ExampleLeft, removed, map[], ExampleGrand(), true, [User(1)], tally) == Sent(1, [1, 2], true)
    ensures Reach(ExampleRight, removed, map[], ExampleGrand(), true, [User(1)], tally) == Sent(2, [3, 4], false)
  {
    ExamplePair(1, 1, 2, removed, tally);
    ExamplePair(2, 3, 4, removed, tally);
  }

  lemma {:induction false} ExamplePair(k: nat, u: nat, v: nat, removed: seq<bool>, tally: Tally)
    requires removed == [false, false, false, false, false]
    requires k > 0 && 1 <= u < 5 && 1 < v < 5
    ensures Reach(Multi(k, [Leaf(u), Leaf(v)]), removed, map[], ExampleGrand(), true, [User(1)], tally)
         == Sent(if u == 1 then 1 else 2, [u, v], u == 1)
  {
    var g := ExampleGrand();
    var none: map<Ref, Secret> := map[];
    var own := SecretOf(none, Inner(k));
    assert GrandOf(g, Inner(k)) == [] && own == Part([]);
    PairUnfold(k, Leaf(u), Leaf(v), removed, none, g, true, [User(1)], tally);
    assert !Flag(removed, u) && !Flag(removed, v);
    assert Knows(Leaf(u), own, [User(1)]) <==> u == 1;
    assert !Knows(Leaf(v), own, [User(1)]);
    assert Reach(Leaf(u), removed, none, g, u != 1, [], tally) == Sent(if u == 1 then 0 else 1, [u], false);
    assert Reach(Leaf(v), removed, none, g, true, [], tally) == Sent(1, [v], false);
    assert |Children(Multi(k, [Leaf(u), Leaf(v)]))| == 2;
  }
}
