/** The climb of TreeKEM's `update(b, a)` (src/TreeKEM.js:168-214): user a refreshes the
    secrets on the path of user b's leaf. Each node of the path, from the leaf up, costs the
    sender one PRG step; each node below the root also one key generation and a broadcast to
    every other child of its parent. Every node above the leaf then holds a secret all its
    children know (`secret = true`), and the strategy blanks part of the path again. */
module KemUpdate {
  import opened Utils
  import opened Trees
  import opened KemBroadcast

  /** What the copath loop at one node collects: the encryptions counted for the sender and
      the users that decrypt, in order. */
  datatype Swept = Swept(enc: nat, received: seq<nat>)

  /** A broadcast of the path node's fresh secret into one child's subtree. */
  type Sender = Tree -> Sent

  /** `broadcast(copath, true, [])`: `count` set and no `secretGrand`, each child's answer
      counted (the `Broadcast` of the corrected loop). */
  function Counted(removed: seq<bool>, secret: map<Ref, Secret>, grand: map<Ref, seq<Ref>>): Sender
  {
    (t: Tree) => Reach(t, removed, secret, grand, true, [], AnyChild)
  }

  /** One broadcast of the copath loop. */
  method SendCounted(t: Tree, removed: seq<bool>, secret: map<Ref, Secret>, grand: map<Ref, seq<Ref>>) returns (s: Sent)
    ensures s == Counted(removed, secret, grand)(t)
  {
    s := BroadcastTo(t, removed, secret, grand, true, [], AnyChild);
  }

  /** The copath loop over the first i children of a path node: each child except `skip`,
      the node the climb comes from, is sent a broadcast. */
  function Sweep(cs: seq<Tree>, i: nat, skip: Tree, send: Sender): Swept
    requires i <= |cs|
  {
    if i == 0 then Swept(0, [])
    else
      var prev := Sweep(cs, i - 1, skip, send);
      if cs[i - 1] == skip then prev
      else
        var s := send(cs[i - 1]);
        Swept(prev.enc + s.enc, prev.received + s.received)
  }

  /** `for (const copath of node.parent.children)`: the loop, proved to compute `Sweep`. */
  method SweepCopath(cs: seq<Tree>, skip: Tree, removed: seq<bool>, secret: map<Ref, Secret>,
                     grand: map<Ref, seq<Ref>>) returns (r: Swept)
    ensures r == Sweep(cs, |cs|, skip, Counted(removed, secret, grand))
  {
    r := Swept(0, []);
    for i := 0 to |cs|
      invariant r == Sweep(cs, i, skip, Counted(removed, secret, grand))
    {
      if cs[i] != skip {
        var s := SendCounted(cs[i], removed, secret, grand);
        r := Swept(r.enc + s.enc, r.received + s.received);
      }
    }
  }

  /** The counters of a leaf after n decryptions of a secret sent from the `update` node,
      which is j nodes from the root counting itself: n `dec`, n * j `dec-prg` and
      n * (j - 1) `dec-gen`. */
  function Decrypted(c: Counts, n: nat, j: nat): Counts
    requires j >= 1
  {
    c.(dec := c.dec + n, decPrg := c.decPrg + n * j, decGen := c.decGen + n * (j - 1))
  }

  /** The counters after every user in `received` decrypts, once per occurrence. */
  function Credit(counts: seq<Counts>, received: seq<nat>, j: nat): (r: seq<Counts>)
    requires j >= 1
    ensures |r| == |counts|
    decreases |received|
  {
    if received == [] then counts
    else
      var prev := Credit(counts, received[..|received| - 1], j);
      var v := received[|received| - 1];
      if v < |prev| then prev[v := Decrypted(prev[v], 1, j)] else prev
  }

  /** n decryptions and one more are n + 1. */
  lemma {:induction false} DecryptedOnceMore(c: Counts, n: nat, j: nat)
    requires j >= 1
    ensures Decrypted(Decrypted(c, n, j), 1, j) == Decrypted(c, n + 1, j)
  {
    assert (n + 1) * j == n * j + j;
    assert (n + 1) * (j - 1) == n * (j - 1) + (j - 1);
  }

  /** Each user's counters record one decryption per occurrence in `received`, and only its
      decryption counters change. */
  lemma {:induction false} CreditCounts(counts: seq<Counts>, received: seq<nat>, j: nat, v: nat)
    requires j >= 1 && v < |counts|
    ensures Credit(counts, received, j)[v] == Decrypted(counts[v], multiset(received)[v], j)
    decreases |received|
  {
    if received != [] {
      var init: seq<nat>, w: nat := received[..|received| - 1], received[|received| - 1];
      assert received == init + [w];
      CreditCounts(counts, init, j, v);
      if w == v {
        DecryptedOnceMore(counts[v], multiset(init)[v], j);
      }
    }
  }

  /** `++ua.counts[...]`: the sender's PRG, key-generation and encryption counters. */
  function Bump(counts: seq<Counts>, a: nat, prg: nat, gen: nat, enc: nat): (r: seq<Counts>)
    requires a < |counts|
    ensures |r| == |counts|
  {
    counts[a := counts[a].(prg := counts[a].prg + prg, gen := counts[a].gen + gen, enc := counts[a].enc + enc)]
  }

  /** What the climb changes: the counters of all users and the nodes' secrets. */
  datatype Climbed = Climbed(counts: seq<Counts>, secret: map<Ref, Secret>)

  /** What the copath loop at a path node delivers, given the node, the child the climb
      comes from and the secrets at that moment. */
  type Sweeper = (Tree, Tree, map<Ref, Secret>) -> Swept

  /** The copath loop of `update`: broadcasts to every other child of the node. */
  function CopathLoop(removed: seq<bool>, grand: map<Ref, seq<Ref>>): Sweeper
  {
    (parent: Tree, skip: Tree, secret: map<Ref, Secret>) =>
      Sweep(Children(parent), |Children(parent)|, skip, Counted(removed, secret, grand))
  }

  /** One pass of the climb, at p[j]: a PRG step for the sender; below the root also a key
      generation and the broadcasts to the other children of p[j - 1], whose encryptions
      the sender pays and whose receivers each decrypt once; `secret = true` on every node
      but the leaf. */
  function Level(st: Climbed, p: seq<Tree>, j: nat, a: nat, sweep: Sweeper): Climbed
    requires j < |p| && a < |st.counts|
  {
    var c := Bump(st.counts, a, 1, 0, 0);
    var counts :=
      if j == 0 then c
      else
        var s := sweep(p[j - 1], p[j], st.secret);
        Bump(Credit(Bump(c, a, 0, 1, 0), s.received, j), a, 0, 0, s.enc);
    Climbed(counts, if j == |p| - 1 then st.secret else st.secret[RefOf(p[j]) := Full])
  }

  /** The state after the passes at p[|p| - 1] down to p[j]. */
  function Climb(p: seq<Tree>, j: nat, st: Climbed, a: nat, sweep: Sweeper): (r: Climbed)
    requires j <= |p| && a < |st.counts|
    ensures |r.counts| == |st.counts|
    decreases |p| - j
  {
    if j == |p| then st else Level(Climb(p, j + 1, st, a, sweep), p, j, a, sweep)
  }

  /** The `while (node !== null)` loop of `update`, walking the path from the leaf to the
      root, proved to compute `Climb`. */
  method ClimbPath(p: seq<Tree>, a: nat, removed: seq<bool>, grand: map<Ref, seq<Ref>>, st: Climbed) returns (r: Climbed)
    requires a < |st.counts|
    ensures r == Climb(p, 0, st, a, CopathLoop(removed, grand))
  {
    var counts, secret := st.counts, st.secret;
    var j: nat := |p|;
    while j > 0
      invariant j <= |p| && |counts| == |st.counts|
      invariant Climbed(counts, secret) == Climb(p, j, st, a, CopathLoop(removed, grand))
    {
      j := j - 1;
      var c := Bump(counts, a, 1, 0, 0);
      if j > 0 {
        var s := SweepCopath(Children(p[j - 1]), p[j], removed, secret, grand);
        assert s == CopathLoop(removed, grand)(p[j - 1], p[j], secret);
        c := Bump(Credit(Bump(c, a, 0, 1, 0), s.received, j), a, 0, 0, s.enc);
      }
      counts := c;
      if j != |p| - 1 {
        secret := secret[RefOf(p[j]) := Full];
      }
    }
    r := Climbed(counts, secret);
  }

  /** The climb costs the sender one PRG step per path node and one key generation per
      path node below the root. */
  lemma {:induction false} ClimbSender(p: seq<Tree>, j: nat, st: Climbed, a: nat, sweep: Sweeper)
    requires j <= |p| && a < |st.counts|
    ensures Climb(p, j, st, a, sweep).counts[a].prg == st.counts[a].prg + (|p| - j)
    ensures Climb(p, j, st, a, sweep).counts[a].gen
         == st.counts[a].gen + (|p| - j) - (if j == 0 && |p| > 0 then 1 else 0)
    decreases |p| - j
  {
    if j < |p| {
      ClimbSender(p, j + 1, st, a, sweep);
      LevelCounts(Climb(p, j + 1, st, a, sweep), p, j, a, sweep, a);
    }
  }

  /** One pass changes the sender's PRG and key-generation counters and the decryption
      counters of the users reached. */
  lemma {:induction false} LevelCounts(st: Climbed, p: seq<Tree>, j: nat, a: nat, sweep: Sweeper, v: nat)
    requires j < |p| && a < |st.counts| && v < |st.counts|
    ensures var c := Level(st, p, j, a, sweep).counts[v];
            c.prg == st.counts[v].prg + (if v == a then 1 else 0)
            && c.gen == st.counts[v].gen + (if v == a && j > 0 then 1 else 0)
            && c.dec == st.counts[v].dec + (if j == 0 then 0 else multiset(sweep(p[j - 1], p[j], st.secret).received)[v])
  {
    if j > 0 {
      var s := sweep(p[j - 1], p[j], st.secret);
      var c := Bump(Bump(st.counts, a, 1, 0, 0), a, 0, 1, 0);
      CreditCounts(c, s.received, j, v);
    }
  }

  /** The nodes of the path above the leaf, from index j on, are named `r`. */
  predicate Marks(p: seq<Tree>, j: nat, r: Ref)
  {
    exists i :: j <= i < |p| - 1 && RefOf(p[i]) == r
  }

  /** The climb gives `secret = true` to every node of the path above the leaf and to no
      other node. */
  lemma {:induction false} ClimbSecret(p: seq<Tree>, j: nat, st: Climbed, a: nat, sweep: Sweeper)
    requires j <= |p| && a < |st.counts|
    ensures forall i :: j <= i < |p| - 1 ==> SecretOf(Climb(p, j, st, a, sweep).secret, RefOf(p[i])) == Full
    ensures forall r :: !Marks(p, j, r) ==> SecretOf(Climb(p, j, st, a, sweep).secret, r) == SecretOf(st.secret, r)
    decreases |p| - j
  {
    if j < |p| {
      ClimbSecret(p, j + 1, st, a, sweep);
      forall r | Marks(p, j + 1, r)
        ensures Marks(p, j, r)
      {
        var i :| j + 1 <= i < |p| - 1 && RefOf(p[i]) == r;
        assert j <= i < |p| - 1;
      }
      if j < |p| - 1 {
        assert Marks(p, j, RefOf(p[j])) by {
          assert j <= j < |p| - 1 && RefOf(p[j]) == RefOf(p[j]);
        }
      }
    }
  }

  /** The users, as `users` names them, of the first i children other than `skip`: those the
      copath loop reaches, removed or not. */
  function Copath(cs: seq<Tree>, i: nat, skip: Tree, users: Tree -> seq<nat>): seq<nat>
    requires i <= |cs|
  {
    if i == 0 then []
    else Copath(cs, i - 1, skip, users) + (if cs[i - 1] == skip then [] else users(cs[i - 1]))
  }

  /** The users, as `users` names them, of the first i children. */
  function Under(cs: seq<Tree>, i: nat, users: Tree -> seq<nat>): seq<nat>
    requires i <= |cs|
  {
    if i == 0 then [] else Under(cs, i - 1, users) + users(cs[i - 1])
  }

  /** The copath loop decrypts at the live users of the children it visits. */
  lemma {:induction false} SweptIsSweep(cs: seq<Tree>, i: nat, skip: Tree, send: Sender, removed: seq<bool>)
    requires i <= |cs|
    requires forall t :: send(t).received == Live(Leaves(t), removed)
    ensures Sweep(cs, i, skip, send).received == Live(Copath(cs, i, skip, Leaves), removed)
  {
    if i > 0 {
      var c := cs[i - 1];
      var piece := if c == skip then [] else Leaves(c);
      var heard := if c == skip then [] else send(c).received;
      SweptIsSweep(cs, i - 1, skip, send, removed);
      LiveAppend(Copath(cs, i - 1, skip, Leaves), piece, removed);
      assert Copath(cs, i, skip, Leaves) == Copath(cs, i - 1, skip, Leaves) + piece;
      assert heard == Live(piece, removed);
      assert Sweep(cs, i, skip, send).received == Sweep(cs, i - 1, skip, send).received + heard;
    }
  }

  /** Who decrypts at the copath loop of a path node, given the node and the child the
      climb comes from. */
  type Hearer = (Tree, Tree) -> seq<nat>

  /** Every user under the copath, removed or not. */
  function Copaths(): Hearer
  {
    (parent: Tree, skip: Tree) => Copath(Children(parent), |Children(parent)|, skip, Leaves)
  }

  /** The live users under the copath. */
  function LiveCopaths(removed: seq<bool>): Hearer
  {
    (parent: Tree, skip: Tree) => Live(Copath(Children(parent), |Children(parent)|, skip, Leaves), removed)
  }

  /** The users that `hear` names for the passes at p[|p| - 1] down to p[j]. */
  function Heard(p: seq<Tree>, j: nat, hear: Hearer): seq<nat>
    requires j <= |p|
    decreases |p| - j
  {
    if j == |p| then []
    else Heard(p, j + 1, hear) + (if j == 0 then [] else hear(p[j - 1], p[j]))
  }

  /** A copath loop whose receivers `hear` names, whatever the secrets. */
  ghost predicate Delivers(sweep: Sweeper, hear: Hearer)
  {
    forall parent, skip, secret :: sweep(parent, skip, secret).received == hear(parent, skip)
  }

  /** The copath loop of `update` delivers to the live users of the other children. */
  lemma {:induction false} CopathsDeliver(removed: seq<bool>, grand: map<Ref, seq<Ref>>)
    ensures Delivers(CopathLoop(removed, grand), LiveCopaths(removed))
  {
    forall parent, skip, secret
      ensures CopathLoop(removed, grand)(parent, skip, secret).received == LiveCopaths(removed)(parent, skip)
    {
      var send := Counted(removed, secret, grand);
      forall t
        ensures send(t).received == Live(Leaves(t), removed)
      {
        Reached(t, removed, secret, grand, true, [], AnyChild);
      }
      SweptIsSweep(Children(parent), |Children(parent)|, skip, send, removed);
    }
  }

  /** How often each user occurs in the live users of a list. */
  lemma {:induction false} LiveCount(s: seq<nat>, removed: seq<bool>, v: nat)
    ensures multiset(Live(s, removed))[v] == if Flag(removed, v) then 0 else multiset(s)[v]
    decreases |s|
  {
    if s != [] {
      LiveCount(s[1..], removed, v);
      assert s == [s[0]] + s[1..];
    }
  }

  /** Each user's `dec` counter rises once per time it is among the receivers of the climb. */
  lemma {:induction false} ClimbHeard(p: seq<Tree>, j: nat, st: Climbed, a: nat, sweep: Sweeper, hear: Hearer, v: nat)
    requires j <= |p| && a < |st.counts| && v < |st.counts| && Delivers(sweep, hear)
    ensures Climb(p, j, st, a, sweep).counts[v].dec == st.counts[v].dec + multiset(Heard(p, j, hear))[v]
    decreases |p| - j
  {
    if j < |p| {
      ClimbHeard(p, j + 1, st, a, sweep, hear, v);
      ClimbDec(p, j, st, a, sweep, v);
      if j > 0 {
        var heard := sweep(p[j - 1], p[j], Climb(p, j + 1, st, a, sweep).secret).received;
        assert heard == hear(p[j - 1], p[j]);
        assert multiset(Heard(p, j, hear)) == multiset(Heard(p, j + 1, hear)) + multiset(heard);
      }
    }
  }

  /** One pass raises the `dec` counter of each user once per time it receives. */
  lemma {:induction false} ClimbDec(p: seq<Tree>, j: nat, st: Climbed, a: nat, sweep: Sweeper, v: nat)
    requires j < |p| && a < |st.counts| && v < |st.counts|
    ensures var below := Climb(p, j + 1, st, a, sweep);
            Climb(p, j, st, a, sweep).counts[v].dec
              == below.counts[v].dec + (if j == 0 then 0 else multiset(sweep(p[j - 1], p[j], below.secret).received)[v])
  {
    LevelCounts(Climb(p, j + 1, st, a, sweep), p, j, a, sweep, v);
  }

  /** A live user is among the live receivers as often as under the copaths; a removed user
      never is. */
  lemma {:induction false} HeardLive(p: seq<Tree>, j: nat, removed: seq<bool>, v: nat)
    requires j <= |p|
    ensures multiset(Heard(p, j, LiveCopaths(removed)))[v]
         == if Flag(removed, v) then 0 else multiset(Heard(p, j, Copaths()))[v]
    decreases |p| - j
  {
    if j < |p| {
      HeardLive(p, j + 1, removed, v);
      if j > 0 {
        LiveCount(Copaths()(p[j - 1], p[j]), removed, v);
      }
    }
  }

  /** A child's users are among its parent's, and apart when the parent's are. */
  lemma {:induction false} ChildLeaves(cs: seq<Tree>, k: nat)
    requires k < |cs|
    ensures forall x :: x in Leaves(cs[k]) ==> x in LeavesOf(cs)
    ensures Distinct(LeavesOf(cs)) ==> Distinct(Leaves(cs[k]))
    decreases |cs|
  {
    assert cs == [cs[0]] + cs[1..];
    LeavesOfAppend([cs[0]], cs[1..]);
    LeavesOfOne(cs[0]);
    DistinctSplit(Leaves(cs[0]), LeavesOf(cs[1..]));
    if k > 0 {
      ChildLeaves(cs[1..], k - 1);
    }
  }

  /** The users of the first i children are those the copath loop reaches, plus those of the
      skipped child when it is among them, which it is at most once. */
  lemma {:induction false} SweptSplit(cs: seq<Tree>, i: nat, c: Tree, users: Tree -> seq<nat>)
    requires i <= |cs| && multiset(cs[..i])[c] <= 1
    ensures multiset(Under(cs, i, users))
              == multiset(Copath(cs, i, c, users)) + (if c in cs[..i] then multiset(users(c)) else multiset{})
  {
    if i == 0 {
      assert cs[..0] == [];
    } else {
      CountStep(cs, i, c);
      SweptSplit(cs, i - 1, c, users);
      var last := users(cs[i - 1]);
      assert multiset(Under(cs, i, users)) == multiset(Under(cs, i - 1, users)) + multiset(last);
      if cs[i - 1] == c {
        assert Copath(cs, i, c, users) == Copath(cs, i - 1, c, users);
      } else {
        assert Copath(cs, i, c, users) == Copath(cs, i - 1, c, users) + last;
      }
    }
  }

  /** The users of the first i children, as their leaves name them. */
  lemma {:induction false} UnderLeaves(cs: seq<Tree>, i: nat)
    requires i <= |cs|
    ensures Under(cs, i, Leaves) == LeavesOf(cs[..i])
  {
    if i == 0 {
      assert cs[..0] == [];
    } else {
      UnderLeaves(cs, i - 1);
      LeavesOfPrefix(cs, i);
    }
  }

  /** Extending a prefix by one element adds that element once. */
  lemma {:induction false} CountStep(cs: seq<Tree>, i: nat, c: Tree)
    requires 0 < i <= |cs|
    ensures multiset(cs[..i])[c] == multiset(cs[..i - 1])[c] + (if cs[i - 1] == c then 1 else 0)
    ensures c in cs[..i] <==> c in cs[..i - 1] || cs[i - 1] == c
  {
    assert cs[..i] == cs[..i - 1] + [cs[i - 1]];
  }

  /** Among children whose users are apart, at most one holds a given user. */
  lemma {:induction false} ChildOnce(cs: seq<Tree>, c: Tree, b: nat)
    requires b in Leaves(c) && Distinct(LeavesOf(cs))
    ensures multiset(cs)[c] <= 1
    decreases |cs|
  {
    if cs != [] {
      var rest := cs[1..];
      assert cs == [cs[0]] + rest;
      LeavesOfAppend([cs[0]], rest);
      LeavesOfOne(cs[0]);
      DistinctSplit(Leaves(cs[0]), LeavesOf(rest));
      ChildOnce(rest, c, b);
      if cs[0] == c {
        NotTwice(rest, Leaves(c), b, c);
      }
    }
  }

  /** A child holding b is not among children whose users are apart from its own. */
  lemma {:induction false} NotTwice(cs: seq<Tree>, apart: seq<nat>, b: nat, c: Tree)
    requires b in Leaves(c) && b in apart && forall x :: x in LeavesOf(cs) ==> x !in apart
    ensures c !in cs
  {
    forall k | 0 <= k < |cs|
      ensures cs[k] != c
    {
      ChildLeaves(cs, k);
    }
  }

  /** Every node of the path to b is above b's leaf, and users are apart below it when they
      are apart in the tree. */
  lemma {:induction false} PathNodes(t: Tree, b: nat)
    requires b in Leaves(t) && Distinct(Leaves(t))
    ensures forall i :: 0 <= i < |PathTo(t, b)| ==> b in Leaves(PathTo(t, b)[i]) && Distinct(Leaves(PathTo(t, b)[i]))
    decreases t
  {
    var p := PathTo(t, b);
    if !t.Leaf? {
      var c := NextOnPath(t, b);
      var cs := Children(t);
      var k :| 0 <= k < |cs| && cs[k] == c;
      LeavesOfChildren(t);
      ChildLeaves(cs, k);
      PathNodes(c, b);
      var q := PathTo(c, b);
      assert p == [t] + q;
      forall i | 0 <= i < |p|
        ensures b in Leaves(p[i]) && Distinct(Leaves(p[i]))
      {
        if i > 0 {
          assert p[i] == q[i - 1];
        }
      }
    }
  }

  /** A path down to b's leaf: each node a child of the one before it, and no other child
      of that node the same subtree. */
  ghost predicate Descends(p: seq<Tree>, b: nat)
  {
    |p| >= 1 && p[|p| - 1] == Leaf(b)
    && forall i :: 0 <= i < |p| - 1 ==> p[i + 1] in Children(p[i]) && multiset(Children(p[i]))[p[i + 1]] <= 1
  }

  /** The path to a user of a tree whose users are apart descends to the user's leaf. */
  lemma {:induction false} PathDescends(t: Tree, b: nat)
    requires b in Leaves(t) && Distinct(Leaves(t))
    ensures Descends(PathTo(t, b), b)
  {
    var p := PathTo(t, b);
    PathNodes(t, b);
    PathLinks(t, b);
    forall i | 0 <= i < |p| - 1
      ensures multiset(Children(p[i]))[p[i + 1]] <= 1
    {
      var cs := Children(p[i]);
      LeavesOfChildren(p[i]);
      ChildOnce(cs, p[i + 1], b);
    }
  }

  /** Below the pass at p[j - 1], the copaths and b's leaf split the users under p[j - 1]. */
  lemma {:induction false} HeardBelow(p: seq<Tree>, b: nat, j: nat)
    requires Descends(p, b) && 1 <= j <= |p|
    ensures multiset(Heard(p, j, Copaths())) + multiset{b} == multiset(Leaves(p[j - 1]))
    decreases |p| - j
  {
    if j == |p| {
      assert Leaves(p[j - 1]) == [b];
    } else {
      HeardBelow(p, b, j + 1);
      HeardStep(p, b, j);
    }
  }

  /** The pass at p[j] adds the copath of p[j - 1], whose users with those under p[j] are
      those under p[j - 1]. */
  lemma {:induction false} HeardStep(p: seq<Tree>, b: nat, j: nat)
    requires Descends(p, b) && 1 <= j < |p|
    requires multiset(Heard(p, j + 1, Copaths())) + multiset{b} == multiset(Leaves(p[j]))
    ensures multiset(Heard(p, j, Copaths())) + multiset{b} == multiset(Leaves(p[j - 1]))
  {
    var par, c := p[j - 1], p[j];
    CopathSplit(par, c);
    var below, copath := Heard(p, j + 1, Copaths()), Copaths()(par, c);
    assert Heard(p, j, Copaths()) == below + copath;
    var mb, mc, ml := multiset(below), multiset(copath), multiset(Leaves(c));
    assert multiset(Heard(p, j, Copaths())) == mb + mc;
    UnionSwap(mb, mc, multiset{b});
  }

  lemma {:induction false} UnionSwap(a: multiset<nat>, b: multiset<nat>, c: multiset<nat>)
    ensures a + b + c == b + (a + c)
  {
  }

  /** At one node of the path, the copath and the child on the path split the node's users. */
  lemma {:induction false} CopathSplit(par: Tree, c: Tree)
    requires c in Children(par) && multiset(Children(par))[c] <= 1
    ensures multiset(Leaves(par)) == multiset(Copaths()(par, c)) + multiset(Leaves(c))
  {
    var cs := Children(par);
    LeavesOfChildren(par);
    assert cs[..|cs|] == cs;
    SweptSplit(cs, |cs|, c, Leaves);
    UnderLeaves(cs, |cs|);
  }

  /** Along the path to b, the copaths and b's leaf split the users of the tree: every user
      other than b is under exactly one copath. */
  lemma {:induction false} HeardOnce(t: Tree, b: nat)
    requires b in Leaves(t) && Distinct(Leaves(t))
    ensures multiset(Heard(PathTo(t, b), 0, Copaths())) + multiset{b} == multiset(Leaves(t))
  {
    PathDescends(t, b);
    HeardBelow(PathTo(t, b), b, 1);
  }
}
