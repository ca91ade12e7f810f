/** The class `TreeKEM` that `makeTreeKEM(TreeType, add, remove, update, merge, split)` builds
    (src/TreeKEM.js:29-214) over a mutable tree of trees.js. Its users are numbered in the
    order they join; user u's leaf carries u's `removed` flag and counters, and the inner
    nodes carry `secret` and `secretGrand`. The strategies say how the group reacts when a
    user joins (`add`), leaves (`remove`) or refreshes its path (`update`), and what a node
    does with its secret when the tree splits it (`split`) or merges children into it
    (`merge`).

    The tree operations report their calls of `onRemoveChild` and `onAddChild` as a list of
    `Event`s; the reactions of TreeKEM to those calls are replayed over that list in order. */
module TreeKEMs {
  import opened Utils
  import opened Trees
  import opened KemBroadcast
  import opened KemUpdate
  import opened KemBlank
  import LT = MutableLeftTrees
  import BT = MutableBTrees

  /** `addStrategy`: the new user's path is blanked ('async') or the adder refreshes it
      ('sync'). */
  datatype AddStrategy = Async | Sync

  /** `removeStrategy`: who refreshes which path when a user leaves, and when. */
  datatype RemoveStrategy = Remover | RemoverBefore | Removee

  /** `mergeStrategy` and `splitStrategy`: a node that gains or loses children forgets its
      secret ('blank') or keeps what is still known ('keep'). */
  datatype Handling = BlankOut | KeepKnown

  datatype Strategies = Strategies(add: AddStrategy, remove: RemoveStrategy, update: UpdateStrategy,
                                   merge: Handling, split: Handling)

  /** The defaults of `makeTreeKEM`. */
  const Defaults := Strategies(Async, Remover, LCA, BlankOut, BlankOut)

  /** The `TreeType`: a `LeftTree(position, truncate)` or a `BTree(m)` in its 'greedy'
      position. */
  datatype Shape = LeftShape(position: LT.Position, policy: LT.TruncatePolicy) | BShape(m: nat)

  /** The invariant of the tree type. */
  ghost predicate Shaped(shape: Shape, t: Tree)
  {
    match shape
    case LeftShape(_, _) => LT.Good(t)
    case BShape(m) => m >= 3 && BT.Valid(t, m)
  }

  /** The part of the state that the strategies act on: every user's counters and `removed`
      flag, every node's `secret` and `secretGrand`. */
  datatype Kem = Kem(counts: seq<Counts>, removed: seq<bool>, secret: map<Ref, Secret>, grand: map<Ref, seq<Ref>>)

  /** What TreeKEM does when the tree calls back:
      - `FilterOut`: drops the children that left from the node's `secret` list (the
        callbacks of 'sync' add and 'remover' remove);
      - `BlankIt`: `secret = []`;
      - `KeepGrand`: the 'keep' split: the grandparent's `secretGrand` records who knew the
        node's secret, then `secret = []`;
      - `KeepRest`: the 'keep' merge: `secret` becomes the node's children other than the
        ones that joined;
      - `KeepShifted`: the 'keep' merge as 'remover' calls it (see `ShiftedKeepsFirst`). */
  datatype Reaction = Ignore | FilterOut | BlankIt | KeepGrand | KeepRest | KeepShifted

  function Splitting(h: Handling): Reaction
  {
    if h == BlankOut then BlankIt else KeepGrand
  }

  function Merging(h: Handling): Reaction
  {
    if h == BlankOut then BlankIt else KeepRest
  }

  /** `cs.filter(c => !gone.includes(c))`. */
  function Excluding(cs: seq<Ref>, gone: seq<Ref>): (r: seq<Ref>)
    ensures |r| <= |cs|
    ensures forall c :: c in r <==> c in cs && c !in gone
    decreases |cs|
  {
    if cs == [] then []
    else
      assert cs == [cs[0]] + cs[1..];
      (if cs[0] in gone then [] else [cs[0]]) + Excluding(cs[1..], gone)
  }

  /** The arguments `onAddChild(node, ...children)` hands the 'keep' merge as its list of
      children: the grandparent slot takes the first of them. */
  function Shifted(added: seq<Ref>): seq<Ref>
  {
    if added == [] then [] else added[1..]
  }

  /** One callback and TreeKEM's reaction to it. A removal event says which children left
      the node and which stay, an addition event which joined it and which were there. Only
      secrets change. */
  function React(k: Kem, e: Event, onRemove: Reaction, onAdd: Reaction): (r: Kem)
    ensures r.counts == k.counts && r.removed == k.removed
  {
    match e
    case RemovedChildren(parent, gp, moved, rest) =>
      (match onRemove
       case FilterOut =>
         (match SecretOf(k.secret, parent)
          case Full => k
          case Part(cs) => k.(secret := k.secret[parent := Part(Excluding(cs, moved))]))
       case BlankIt => k.(secret := k.secret[parent := Part([])])
       case KeepGrand =>
         var known := match SecretOf(k.secret, parent) case Full => rest case Part(cs) => cs;
         var grand := if gp.Some? then k.grand[gp.value := known] else k.grand;
         k.(secret := k.secret[parent := Part([])], grand := grand)
       case _ => k)
    case AddedChildren(parent, _, added, before) =>
      (match onAdd
       case BlankIt => k.(secret := k.secret[parent := Part([])])
       case KeepRest => k.(secret := k.secret[parent := Part(Excluding(before + added, added))])
       case KeepShifted => k.(secret := k.secret[parent := Part(Excluding(before + added, Shifted(added)))])
       case _ => k)
  }

  /** The reactions to the events, in order. The callbacks touch no counter and no flag. */
  function Replay(k: Kem, evs: seq<Event>, onRemove: Reaction, onAdd: Reaction): (r: Kem)
    ensures r.counts == k.counts && r.removed == k.removed
    decreases |evs|
  {
    if evs == [] then k
    else React(Replay(k, evs[..|evs| - 1], onRemove, onAdd), evs[|evs| - 1], onRemove, onAdd)
  }

  /** `update(b, a)` on the state. */
  function Updating(k: Kem, t: Tree, b: nat, a: nat, how: UpdateStrategy): Kem
    requires a in Leaves(t) && b in Leaves(t) && a < |k.counts| && a < |k.removed|
  {
    var u := UpdateOf(t, k.removed, k.counts, k.secret, k.grand, b, a, how);
    Kem(u.counts, u.removed, u.secret, k.grand)
  }

  /** The `while` loop that blanks every ancestor of b's leaf. */
  function BlankAncestors(k: Kem, t: Tree, b: nat): Kem
    requires b in Leaves(t)
  {
    var p := PathTo(t, b);
    k.(secret := Blank(k.secret, p, 0, |p| - 1))
  }

  /** `add(a, b)` on the state, given the tree t' after `root.add` and its callbacks. */
  function AddOf(k: Kem, t': Tree, evs: seq<Event>, a: nat, b: nat, how: Strategies): Kem
    requires a in Leaves(t') && b in Leaves(t') && a < |k.counts| && a < |k.removed|
  {
    var k0 := k.(counts := k.counts + [Zero], removed := k.removed + [false]);
    match how.add
    case Async => BlankAncestors(Replay(k0, evs, Splitting(how.split), Ignore), t', b)
    case Sync =>
      var k1 := Updating(Replay(k0, evs, FilterOut, Ignore), t', b, a, how.update);
      Replay(k1, evs, Splitting(how.split), Ignore)
  }

  /** The tree `update` runs on during `remove`: after the removal for 'remover', before it
      otherwise. */
  function Refreshed(t: Tree, t': Tree, how: Strategies): Tree
  {
    if how.remove == Remover then t' else t
  }

  /** `remove(a, b)` on the state, given the trees t before and t' after `root.remove` and
      its callbacks. Merges are handled as intended, not as 'remover' calls them. */
  function RemoveOf(k: Kem, t: Tree, t': Tree, evs: seq<Event>, a: nat, b: nat, how: Strategies): Kem
    requires a in Leaves(t) && b in Leaves(t) && a in Leaves(t') && a < |k.counts| && a < |k.removed| && b < |k.removed|
  {
    var k0 := k.(removed := k.removed[b := true]);
    match how.remove
    case Remover =>
      var k1 := Replay(BlankAncestors(k0, t, b), evs, FilterOut, Ignore);
      var k2 := Replay(Updating(k1, t', a, a, how.update), evs, BlankIt, Ignore);
      Replay(k2, evs, Ignore, Merging(how.merge))
    case RemoverBefore =>
      Replay(Updating(BlankAncestors(k0, t, b), t, a, a, how.update), evs, BlankIt, Merging(how.merge))
    case Removee =>
      Replay(Updating(k0, t, b, a, how.update), evs, BlankIt, Merging(how.merge))
  }

  /** The node of b's path the strategy picks: for `LCA` the climb from a's leaf that stops
      on b's path. */
  method Pick(t: Tree, b: nat, a: nat, how: UpdateStrategy) returns (from: nat)
    requires a in Leaves(t) && b in Leaves(t)
    ensures from == From(t, b, a, how)
  {
    if how == AtRoot {
      from := 0;
    } else {
      var pa, pb := PathTo(t, a), PathTo(t, b);
      assert pa[0] == pb[0];
      var m := Meet(pa, pb);
      from := IndexOf(pb, pa[m]);
    }
  }

  /** The body of `update(b, a)`: a's leaf is flagged removed for the climb from b's leaf
      and unflagged after it; then the path below the node the strategy picks is blanked. */
  method Refresh(k: Kem, t: Tree, b: nat, a: nat, how: UpdateStrategy) returns (r: Kem)
    requires a in Leaves(t) && b in Leaves(t) && a < |k.counts| && a < |k.removed|
    ensures r == Updating(k, t, b, a, how)
  {
    var pb := PathTo(t, b);
    var removed := k.removed[a := true];
    var c := ClimbPath(pb, a, removed, k.grand, Climbed(k.counts, k.secret));
    removed := removed[a := false];
    var from := Pick(t, b, a, how);
    var s := BlankPath(c.secret, pb, from + 1);
    RefreshSteps(k, t, b, a, how, c, from);
    FinishIs(c, pb, from + 1, k.removed[a := true], a, s);
    r := Kem(c.counts, removed, s, k.grand);
  }

  /** What `Finish` leaves, given the blanked secrets. */
  lemma {:induction false} FinishIs(c: Climbed, p: seq<Tree>, lo: nat, removed: seq<bool>, a: nat, s: map<Ref, Secret>)
    requires 1 <= |p| && a < |removed| && s == Blank(c.secret, p, lo, |p| - 1)
    ensures Finish(c, p, lo, removed, a) == Updated(c.counts, s, removed[a := false])
  {
  }

  /** `update` keeps the number of users and, for a live sender, every flag. */
  lemma {:induction false} UpdatingKeeps(k: Kem, t: Tree, b: nat, a: nat, how: UpdateStrategy)
    requires a in Leaves(t) && b in Leaves(t) && a < |k.counts| && a < |k.removed|
    ensures |Updating(k, t, b, a, how).counts| == |k.counts|
    ensures !k.removed[a] ==> Updating(k, t, b, a, how).removed == k.removed
  {
    assert !k.removed[a] ==> k.removed[a := true][a := false] == k.removed;
  }

  /** The climb and the pick of `Refresh` make up `Updating`. */
  lemma {:induction false} RefreshSteps(k: Kem, t: Tree, b: nat, a: nat, how: UpdateStrategy, c: Climbed, from: nat)
    requires a in Leaves(t) && b in Leaves(t) && a < |k.counts| && a < |k.removed|
    requires c == Climb(PathTo(t, b), 0, Climbed(k.counts, k.secret), a, CopathLoop(k.removed[a := true], k.grand))
    requires from == From(t, b, a, how)
    ensures UpdateOf(t, k.removed, k.counts, k.secret, k.grand, b, a, how) == Finish(c, PathTo(t, b), from + 1, k.removed[a := true], a)
  {
  }

  /** A tree that gains one user not yet in it keeps users apart, and its users are the old
      ones and the new one. */
  lemma {:induction false} GainedOne(s: seq<nat>, s': seq<nat>, u: nat)
    requires Distinct(s) && u !in s && multiset(s') == multiset(s) + multiset{u}
    ensures Distinct(s') && forall x :: x in s' <==> x in s || x == u
  {
    DistinctGrown(s, s', u);
    assert forall x :: x in s' <==> x in multiset(s');
  }

  /** A tree that loses one user keeps users apart, and every user it keeps was in it. */
  lemma {:induction false} LostOne(s: seq<nat>, s': seq<nat>, u: nat)
    requires Distinct(s) && multiset(s') + multiset{u} == multiset(s)
    ensures Distinct(s') && forall x :: x in s' ==> x in s
    ensures forall x :: x in s && x != u ==> x in s'
  {
    DistinctShrunk(s, s', multiset{u});
    assert forall x :: x in s' ==> x in multiset(s);
    forall x | x in s && x != u
      ensures x in s'
    {
      assert multiset(s)[x] > 0;
      assert multiset(s')[x] > 0;
    }
  }

  /** One round of `init`'s loop: the users added so far stay live and in the tree, and so do
      the users that were live before, whose flags are untouched. */
  lemma {:induction false} InitRound(users: nat, flags: seq<bool>, leaves: seq<nat>, before: seq<bool>,
                                     mid: seq<nat>, after: seq<bool>, now: seq<nat>)
    requires |flags| == users <= |before| && before[..users] == flags && after == before + [false]
    requires forall x :: x in leaves ==> x < users
    requires forall u :: users <= u < |before| ==> u in mid && !Flag(before, u)
    requires forall x :: x in leaves && !Flag(flags, x) ==> x in mid
    requires forall x :: x in mid && !Flag(before, x) ==> x in now
    requires |before| in now
    ensures after[..users] == flags
    ensures forall u :: users <= u < |after| ==> u in now && !Flag(after, u)
    ensures forall x :: x in leaves && !Flag(flags, x) ==> x in now
  {
    assert after[..users] == before[..users];
    forall u | users <= u < |after|
      ensures u in now && !Flag(after, u)
    {
      if u < |before| {
        assert !Flag(before, u);
        assert after[u] == before[u];
      } else {
        assert after[u] == false;
      }
    }
    forall x | x in leaves && !Flag(flags, x)
      ensures x in now
    {
      assert flags[x] == before[x];
    }
  }

  class TreeKEM {
    const shape: Shape
    const how: Strategies
    var tree: Tree
    /** `users[u].counts`, one entry per user ever added. */
    var counts: seq<Counts>
    /** `users[u].removed`. */
    var removed: seq<bool>
    var secret: map<Ref, Secret>
    var grand: map<Ref, seq<Ref>>
    /** The users whose `LeftTree` leaf is a tombstone (`recycle`). */
    var recycled: set<nat>
    /** The number the next inner node gets. */
    var next: nat
    /** The callbacks of the last tree operation. */
    var events: seq<Event>

    /** Users are numbered from 0, each has at most one leaf, and a tombstone belongs to a
        removed user. */
    ghost predicate Valid()
      reads this`counts, this`removed, this`tree, this`recycled
    {
      |counts| >= 1 && |removed| == |counts|
      && Distinct(Leaves(tree)) && (forall u :: u in Leaves(tree) ==> u < |counts|)
      && (forall u :: u in recycled ==> Flag(removed, u))
      && Shaped(shape, tree)
    }

    function State(): Kem
      reads this`counts, this`removed, this`secret, this`grand
    {
      Kem(counts, removed, secret, grand)
    }

    /** One user, 0, whose leaf is the whole tree, with zero counters. */
    constructor (shape: Shape, how: Strategies)
      requires shape.BShape? ==> shape.m >= 3
      ensures Valid() && this.shape == shape && this.how == how
      ensures tree == Leaf(0) && State() == Kem([Zero], [false], map[], map[]) && recycled == {}
    {
      this.shape := shape;
      this.how := how;
      tree := Leaf(0);
      counts := [Zero];
      removed := [false];
      secret := map[];
      grand := map[];
      recycled := {};
      next := 0;
      events := [];
    }

    /** `setRemoved(leaf, flag)`: the leaf's flag; the inner nodes' flags are not stored
        (`IsRemoved` derives them). */
    method SetRemoved(u: nat, flag: bool)
      requires u < |removed|
      modifies this`removed
      ensures removed == old(removed)[u := flag]
    {
      removed := removed[u := flag];
    }

    /** The reactions to the callbacks of a tree operation, one after the other. */
    method Callbacks(evs: seq<Event>, onRemove: Reaction, onAdd: Reaction)
      modifies this`secret, this`grand
      ensures State() == Replay(old(State()), evs, onRemove, onAdd)
    {
      var i := 0;
      while i < |evs|
        invariant i <= |evs|
        invariant State() == Replay(old(State()), evs[..i], onRemove, onAdd)
      {
        var k := React(State(), evs[i], onRemove, onAdd);
        secret, grand := k.secret, k.grand;
        i := i + 1;
        assert evs[..i][..i - 1] == evs[..i - 1];
      }
      assert evs[..i] == evs;
    }

    /** The loop that blanks every ancestor of b's leaf. */
    method BlankAbove(b: nat)
      requires b in Leaves(tree)
      modifies this`secret
      ensures State() == BlankAncestors(old(State()), tree, b)
    {
      var p := PathTo(tree, b);
      secret := BlankPath(secret, p, 0);
    }

    /** `update(b, a)`: a refreshes b's path (a = b by default). */
    method Update(b: nat, a: nat)
      requires Valid() && a in Leaves(tree) && b in Leaves(tree) && !Flag(removed, a)
      modifies this`counts, this`removed, this`secret
      ensures Valid() && removed == old(removed)
      ensures State() == Updating(old(State()), tree, b, a, how.update)
    {
      var r := Refresh(State(), tree, b, a, how.update);
      UpdatingKeeps(State(), tree, b, a, how.update);
      counts, removed, secret := r.counts, r.removed, r.secret;
    }

    /** `root.add(ub, ua, ...)`: the tree with b's new leaf placed by a's. */
    method Grow(a: nat, b: nat)
      requires Shaped(shape, tree) && Distinct(Leaves(tree)) && a in Leaves(tree) && b !in Leaves(tree)
      modifies this`tree, this`next, this`events
      ensures Shaped(shape, tree) && Distinct(Leaves(tree)) && a in Leaves(tree) && b in Leaves(tree)
      ensures forall x :: x in Leaves(tree) ==> x in old(Leaves(tree)) || x == b
      ensures forall x :: x in old(Leaves(tree)) && x !in recycled ==> x in Leaves(tree)
      ensures shape.BShape? ==> multiset(Leaves(tree)) == multiset(old(Leaves(tree))) + multiset{b}
    {
      match shape
      case LeftShape(position, _) =>
        tree := LT.Add(tree, b, a, recycled, next, position);
        next := next + 1;
        events := [];
      case BShape(m) =>
        var r := BT.AddSibling(tree, m, a, b, next);
        GainedOne(Leaves(tree), Leaves(r.root), b);
        tree, next, events := r.root, r.next, r.events;
    }

    /** `root.remove(ub, ...)`: the tree without b's leaf (a `LeftTree` tombstones it). It
        cannot fail here: a's leaf is live and stays. */
    method Shrink(a: nat, b: nat)
      requires Shaped(shape, tree) && Distinct(Leaves(tree)) && a in Leaves(tree) && b in Leaves(tree)
      requires a != b && a !in recycled
      modifies this`tree, this`recycled, this`events
      ensures Shaped(shape, tree) && Distinct(Leaves(tree)) && a in Leaves(tree)
      ensures forall x :: x in Leaves(tree) ==> x in old(Leaves(tree))
      ensures shape.BShape? ==> multiset(Leaves(tree)) + multiset{b} == multiset(old(Leaves(tree)))
      ensures recycled == if shape.LeftShape? then old(recycled) + {b} else old(recycled)
    {
      match shape
      case LeftShape(_, policy) =>
        var r, rec := LT.Remove(tree, b, recycled, policy);
        assert a !in rec;
        LT.WithoutTrailingKeeps(Leaves(tree), rec);
        tree, recycled, events := r.value, rec, [];
      case BShape(m) =>
        var r := BT.RemoveSelf(tree, m, b);
        LostOne(Leaves(tree), Leaves(r.value.root), b);
        tree, events := r.value.root, r.value.events;
    }

    /** The first half of `add(a, b)`: b's leaf with zero counters, placed in the tree by
        a's. */
    method Join(a: nat, b: nat)
      requires Valid() && a in Leaves(tree) && b == |counts|
      modifies this`counts, this`removed, this`tree, this`next, this`events
      ensures Valid() && a in Leaves(tree) && b in Leaves(tree)
      ensures counts == old(counts) + [Zero] && removed == old(removed) + [false]
      ensures forall x :: x in Leaves(tree) ==> x in old(Leaves(tree)) || x == b
      ensures forall x :: x in old(Leaves(tree)) && !Flag(removed, x) ==> x in Leaves(tree)
      ensures shape.BShape? ==> multiset(Leaves(tree)) == multiset(old(Leaves(tree))) + multiset{b}
    {
      counts, removed := counts + [Zero], removed + [false];
      Grow(a, b);
    }

    /** `add(a, b)`: the live user a adds user b, the next number. */
    method Add(a: nat, b: nat)
      requires Valid() && a in Leaves(tree) && !Flag(removed, a) && b == |counts|
      modifies this
      ensures Valid() && a in Leaves(tree) && b in Leaves(tree)
      ensures forall x :: x in Leaves(tree) ==> x in old(Leaves(tree)) || x == b
      ensures forall x :: x in old(Leaves(tree)) && !Flag(removed, x) ==> x in Leaves(tree)
      ensures shape.BShape? ==> multiset(Leaves(tree)) == multiset(old(Leaves(tree))) + multiset{b}
      ensures removed == old(removed) + [false] && recycled == old(recycled)
      ensures State() == AddOf(old(State()), tree, events, a, b, how)
    {
      Join(a, b);
      match how.add
      case Async => SplitThenBlank(b);
      case Sync => FilterThenUpdate(a, b);
    }

    /** 'async': the split handler reacts at each callback; then every ancestor of b's leaf
        is blanked. */
    method SplitThenBlank(b: nat)
      requires b in Leaves(tree)
      modifies this`secret, this`grand
      ensures State() == BlankAncestors(Replay(old(State()), events, Splitting(how.split), Ignore), tree, b)
    {
      Callbacks(events, Splitting(how.split), Ignore);
      BlankAbove(b);
    }

    /** 'sync': the callbacks only drop the children that left from `secret`; a refreshes b's
        path; then the split handler runs for each recorded callback. */
    method FilterThenUpdate(a: nat, b: nat)
      requires Valid() && a in Leaves(tree) && b in Leaves(tree) && !Flag(removed, a)
      modifies this`counts, this`removed, this`secret, this`grand
      ensures Valid() && removed == old(removed)
      ensures State() == Replay(Updating(Replay(old(State()), events, FilterOut, Ignore), tree, b, a, how.update),
                                events, Splitting(how.split), Ignore)
    {
      Callbacks(events, FilterOut, Ignore);
      Update(b, a);
      Callbacks(events, Splitting(how.split), Ignore);
    }

    /** The first step of `remove(a, b)`: `setRemoved(ub)`. */
    method Flagged(a: nat, b: nat)
      requires Valid() && a in Leaves(tree) && b in Leaves(tree) && a != b && !Flag(removed, a)
      modifies this`removed
      ensures Valid() && !Flag(removed, a) && removed == old(removed)[b := true]
    {
      SetRemoved(b, true);
    }

    /** `remove(a, b)`: the live user a removes user b. */
    method Remove(a: nat, b: nat)
      requires Valid() && a in Leaves(tree) && b in Leaves(tree) && a != b && !Flag(removed, a)
      modifies this
      ensures Valid() && a in Leaves(tree)
      ensures forall x :: x in Leaves(tree) ==> x in old(Leaves(tree))
      ensures shape.BShape? ==> multiset(Leaves(tree)) + multiset{b} == multiset(old(Leaves(tree)))
      ensures recycled == if shape.LeftShape? then old(recycled) + {b} else old(recycled)
      ensures removed == old(removed)[b := true]
      ensures State() == RemoveOf(old(State()), old(tree), tree, events, a, b, how)
    {
      Flagged(a, b);
      match how.remove
      case Remover => RemoveThenUpdate(a, b);
      case RemoverBefore => UpdateThenRemove(a, a, b);
      case Removee => UpdateThenRemove(b, a, b);
    }

    /** 'remover': b's path is blanked; the tree loses b, a refreshes its own path in the new
        tree, then the nodes that lost children are blanked and the merges handled. */
    method RemoveThenUpdate(a: nat, b: nat)
      requires Valid() && a in Leaves(tree) && b in Leaves(tree) && a != b && !Flag(removed, a) && Flag(removed, b)
      modifies this
      ensures Valid() && a in Leaves(tree) && removed == old(removed)
      ensures forall x :: x in Leaves(tree) ==> x in old(Leaves(tree))
      ensures shape.BShape? ==> multiset(Leaves(tree)) + multiset{b} == multiset(old(Leaves(tree)))
      ensures recycled == if shape.LeftShape? then old(recycled) + {b} else old(recycled)
      ensures var k1 := Replay(BlankAncestors(old(State()), old(tree), b), events, FilterOut, Ignore);
              var k2 := Replay(Updating(k1, tree, a, a, how.update), events, BlankIt, Ignore);
              State() == Replay(k2, events, Ignore, Merging(how.merge))
    {
      Detach(a, b);
      Reconcile(a);
    }

    /** b's path is blanked, then the tree loses b. */
    method Detach(a: nat, b: nat)
      requires Valid() && a in Leaves(tree) && b in Leaves(tree) && a != b && !Flag(removed, a) && Flag(removed, b)
      modifies this`secret, this`tree, this`recycled, this`events
      ensures Valid() && a in Leaves(tree) && !Flag(removed, a)
      ensures forall x :: x in Leaves(tree) ==> x in old(Leaves(tree))
      ensures shape.BShape? ==> multiset(Leaves(tree)) + multiset{b} == multiset(old(Leaves(tree)))
      ensures recycled == if shape.LeftShape? then old(recycled) + {b} else old(recycled)
      ensures State() == BlankAncestors(old(State()), old(tree), b)
    {
      BlankAbove(b);
      Shrink(a, b);
    }

    /** After the removal under 'remover': the split callbacks drop the children that left,
        a refreshes its path, the nodes that lost children are blanked, the merges handled. */
    method Reconcile(a: nat)
      requires Valid() && a in Leaves(tree) && !Flag(removed, a)
      modifies this`counts, this`removed, this`secret, this`grand
      ensures Valid() && removed == old(removed)
      ensures var k1 := Replay(old(State()), events, FilterOut, Ignore);
              var k2 := Replay(Updating(k1, tree, a, a, how.update), events, BlankIt, Ignore);
              State() == Replay(k2, events, Ignore, Merging(how.merge))
    {
      Callbacks(events, FilterOut, Ignore);
      Update(a, a);
      Callbacks(events, BlankIt, Ignore);
      Callbacks(events, Ignore, Merging(how.merge));
    }

    /** 'remover-before' (c = a: b's path is blanked first) and 'removee' (c = b): a
        refreshes c's path, then the tree loses b and its callbacks are handled at once. */
    method UpdateThenRemove(c: nat, a: nat, b: nat)
      requires Valid() && a in Leaves(tree) && b in Leaves(tree) && a != b && !Flag(removed, a) && Flag(removed, b)
      requires c == a || c == b
      modifies this
      ensures Valid() && a in Leaves(tree) && removed == old(removed)
      ensures forall x :: x in Leaves(tree) ==> x in old(Leaves(tree))
      ensures shape.BShape? ==> multiset(Leaves(tree)) + multiset{b} == multiset(old(Leaves(tree)))
      ensures recycled == if shape.LeftShape? then old(recycled) + {b} else old(recycled)
      ensures var k1 := if c == a then BlankAncestors(old(State()), old(tree), b) else old(State());
              State() == Replay(Updating(k1, old(tree), c, a, how.update), events, BlankIt, Merging(how.merge))
    {
      Prepare(c, a, b);
      Excise(a, b);
    }

    /** The tree loses b; the nodes that lost children are blanked and the merges handled. */
    method Excise(a: nat, b: nat)
      requires Valid() && a in Leaves(tree) && b in Leaves(tree) && a != b && !Flag(removed, a) && Flag(removed, b)
      modifies this`tree, this`recycled, this`events, this`secret, this`grand
      ensures Valid() && a in Leaves(tree)
      ensures forall x :: x in Leaves(tree) ==> x in old(Leaves(tree))
      ensures shape.BShape? ==> multiset(Leaves(tree)) + multiset{b} == multiset(old(Leaves(tree)))
      ensures recycled == if shape.LeftShape? then old(recycled) + {b} else old(recycled)
      ensures State() == Replay(old(State()), events, BlankIt, Merging(how.merge))
    {
      Shrink(a, b);
      Callbacks(events, BlankIt, Merging(how.merge));
    }

    /** Before the removal: for c = a, b's path is blanked; then a refreshes c's path. */
    method Prepare(c: nat, a: nat, b: nat)
      requires Valid() && a in Leaves(tree) && b in Leaves(tree) && !Flag(removed, a)
      requires c == a || c == b
      modifies this`counts, this`removed, this`secret
      ensures Valid() && removed == old(removed)
      ensures var k1 := if c == a then BlankAncestors(old(State()), tree, b) else old(State());
              State() == Updating(k1, tree, c, a, how.update)
    {
      if c == a {
        BlankAbove(b);
      }
      Update(c, a);
    }

    /** `init(n)`: user 0 adds users until there are n. */
    method Init(n: nat)
      requires Valid() && 0 in Leaves(tree) && !Flag(removed, 0)
      modifies this
      ensures Valid() && 0 in Leaves(tree)
      ensures |counts| == old(|counts|) + (if n > 1 then n - 1 else 0)
      ensures forall u :: old(|counts|) <= u < |counts| ==> u in Leaves(tree) && !Flag(removed, u)
      ensures removed[..old(|removed|)] == old(removed)
      ensures forall x :: x in old(Leaves(tree)) && !Flag(old(removed), x) ==> x in Leaves(tree)
    {
      var i := 1;
      ghost var users, flags, leaves := |counts|, removed, Leaves(tree);
      while i < n
        invariant Valid() && 0 in Leaves(tree) && !Flag(removed, 0)
        invariant 1 <= i && (i <= n || i == 1)
        invariant |counts| == users + i - 1
        invariant |flags| == users && removed[..users] == flags
        invariant forall x :: x in leaves ==> x < users
        invariant forall u :: users <= u < |counts| ==> u in Leaves(tree) && !Flag(removed, u)
        invariant forall x :: x in leaves && !Flag(flags, x) ==> x in Leaves(tree)
      {
        ghost var before, mid := removed, Leaves(tree);
        Add(0, |counts|);
        InitRound(users, flags, leaves, before, mid, removed, Leaves(tree));
        i := i + 1;
      }
    }
  }
}
