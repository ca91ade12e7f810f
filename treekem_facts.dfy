/** What the operations of `TreeKEM` (src/TreeKEM.js:46-154) achieve for its users: who pays
    for an `add` or a `remove`, who decrypts, who is told nothing, which nodes lose their
    secret, and the flags afterwards. */
module TreeKEMFacts {
  import opened Utils
  import opened Trees
  import opened KemBroadcast
  import opened KemUpdate
  import opened KemBlank
  import opened TreeKEMs

  /** The 'keep' merge as 'remover' hands it the merged children: a child c that has just
      joined the parent, and so never learnt the parent's secret, is listed among the
      children that know it. */
  lemma {:induction false} ShiftedKeepsFirst(k: Kem, p: Ref, gp: Option<Ref>, c: Ref, before: seq<Ref>)
    requires c !in before
    ensures var s := SecretOf(React(k, AddedChildren(p, gp, [c], before), Ignore, KeepShifted).secret, p);
            s.Part? && c in s.covered
  {
    assert Shifted([c]) == [];
    assert c in before + [c];
  }

  /** The 'keep' merge with the merged children it is meant to get: the parent's secret
      lists exactly the children it had before the merge and that did not just join it. */
  lemma {:induction false} KeepRestForgetsJoined(k: Kem, p: Ref, gp: Option<Ref>, added: seq<Ref>, before: seq<Ref>)
    ensures var s := SecretOf(React(k, AddedChildren(p, gp, added, before), Ignore, KeepRest).secret, p);
            s.Part? && forall c :: c in s.covered <==> c in before && c !in added
  {
    var s := SecretOf(React(k, AddedChildren(p, gp, added, before), Ignore, KeepRest).secret, p);
    assert s == Part(Excluding(before + added, added));
    forall c
      ensures c in s.covered <==> c in before && c !in added
    {
      assert c in before + added <==> c in before || c in added;
    }
  }

  /** Every node above the leaf at index 0 <= i < |p| - 1 of p is hit by the blanking of
      the whole path above the leaf. */
  lemma {:induction false} BlankedAbove(secret: map<Ref, Secret>, p: seq<Tree>, i: nat)
    requires i < |p| - 1
    ensures SecretOf(Blank(secret, p, 0, |p| - 1), RefOf(p[i])) == Part([])
  {
    BlankSecret(secret, p, 0, |p| - 1, RefOf(p[i]));
    assert Hits(p, 0, |p| - 1, RefOf(p[i]));
  }

  /** 'async' `add(a, b)`: nobody does any cryptographic work, b joins live with zero
      counters, and every ancestor of b's leaf forgets its secret. */
  lemma {:induction false} AsyncAdd(k: Kem, t': Tree, evs: seq<Event>, a: nat, b: nat, how: Strategies)
    requires a in Leaves(t') && b in Leaves(t') && a < |k.counts| && a < |k.removed| && how.add == Async
    ensures var r := AddOf(k, t', evs, a, b, how);
            r.counts == k.counts + [Zero] && r.removed == k.removed + [false]
            && forall i :: 0 <= i < |PathTo(t', b)| - 1 ==> SecretOf(r.secret, RefOf(PathTo(t', b)[i])) == Part([])
  {
    var p := PathTo(t', b);
    var k0 := k.(counts := k.counts + [Zero], removed := k.removed + [false]);
    var k1 := Replay(k0, evs, Splitting(how.split), Ignore);
    forall i | 0 <= i < |p| - 1
      ensures SecretOf(AddOf(k, t', evs, a, b, how).secret, RefOf(p[i])) == Part([])
    {
      BlankedAbove(k1.secret, p, i);
    }
  }

  /** 'sync' `add(a, b)` by a live user a: a pays one PRG step per node of b's path and one
      key generation per node below the root; b joins live. */
  lemma {:induction false} SyncAddSender(k: Kem, t': Tree, evs: seq<Event>, a: nat, b: nat, how: Strategies)
    requires a in Leaves(t') && b in Leaves(t') && a < |k.counts| && a < |k.removed| && !Flag(k.removed, a)
    requires how.add == Sync
    ensures var r := AddOf(k, t', evs, a, b, how);
            |r.counts| == |k.counts| + 1 && r.removed == k.removed + [false]
            && r.counts[a].prg == k.counts[a].prg + |PathTo(t', b)|
            && r.counts[a].gen == k.counts[a].gen + |PathTo(t', b)| - 1
  {
    var k0 := k.(counts := k.counts + [Zero], removed := k.removed + [false]);
    var k1 := Replay(k0, evs, FilterOut, Ignore);
    UpdateSender(t', k1.removed, k1.counts, k1.secret, k1.grand, b, a, how.update);
    UpdatingKeeps(k1, t', b, a, how.update);
  }

  /** 'sync' `add(a, b)`: every other live user of the new tree decrypts once; a, b and the
      removed users do not. */
  lemma {:induction false} SyncAddReceivers(k: Kem, t': Tree, evs: seq<Event>, a: nat, b: nat, how: Strategies, v: nat)
    requires a in Leaves(t') && b in Leaves(t') && a < |k.counts| && a < |k.removed| && |k.removed| == |k.counts|
    requires Distinct(Leaves(t')) && how.add == Sync && v <= |k.counts|
    ensures AddOf(k, t', evs, a, b, how).counts[v].dec
         == (k.counts + [Zero])[v].dec + (if v != a && v != b && v in Leaves(t') && !Flag(k.removed, v) then 1 else 0)
  {
    var k0 := k.(counts := k.counts + [Zero], removed := k.removed + [false]);
    var k1 := Replay(k0, evs, FilterOut, Ignore);
    UpdateReceivers(t', k1.removed, k1.counts, k1.secret, k1.grand, b, a, how.update, v);
    assert Flag(k1.removed, v) <==> Flag(k.removed, v);
  }

  /** The user whose path is refreshed in `remove(a, b)`: b for 'removee', a otherwise. */
  function Refreshing(a: nat, b: nat, how: Strategies): nat
  {
    if how.remove == Removee then b else a
  }

  /** The state `update` starts from in `remove(a, b)`: b flagged, and under 'remover' and
      'remover-before' b's old path blanked (under 'remover' also the callbacks run). */
  function BeforeUpdate(k: Kem, t: Tree, evs: seq<Event>, b: nat, how: Strategies): Kem
    requires b in Leaves(t) && b < |k.removed|
  {
    var k0 := k.(removed := k.removed[b := true]);
    match how.remove
    case Remover => Replay(BlankAncestors(k0, t, b), evs, FilterOut, Ignore)
    case RemoverBefore => BlankAncestors(k0, t, b)
    case Removee => k0
  }

  /** `remove` is `update` between two rounds of callbacks. */
  lemma {:induction false} RemoveIsUpdate(k: Kem, t: Tree, t': Tree, evs: seq<Event>, a: nat, b: nat, how: Strategies)
    requires a in Leaves(t) && b in Leaves(t) && a in Leaves(t') && a < |k.counts| && a < |k.removed| && b < |k.removed|
    ensures var k1 := BeforeUpdate(k, t, evs, b, how);
            var u := Updating(k1, Refreshed(t, t', how), Refreshing(a, b, how), a, how.update);
            k1.counts == k.counts && k1.removed == k.removed[b := true]
            && RemoveOf(k, t, t', evs, a, b, how).counts == u.counts
            && RemoveOf(k, t, t', evs, a, b, how).removed == u.removed
  {
  }

  /** `remove(a, b)`: a pays one PRG step per node of the refreshed path (a's in the new
      tree for 'remover', a's in the old tree for 'remover-before', b's in the old tree for
      'removee'). */
  lemma {:induction false} RemoveSender(k: Kem, t: Tree, t': Tree, evs: seq<Event>, a: nat, b: nat, how: Strategies)
    requires a in Leaves(t) && b in Leaves(t) && a in Leaves(t') && a < |k.counts| && a < |k.removed| && b < |k.removed|
    ensures var r, p := RemoveOf(k, t, t', evs, a, b, how), PathTo(Refreshed(t, t', how), Refreshing(a, b, how));
            |r.counts| == |k.counts|
            && r.counts[a].prg == k.counts[a].prg + |p|
            && r.counts[a].gen == k.counts[a].gen + |p| - 1
  {
    var k1 := BeforeUpdate(k, t, evs, b, how);
    RemoveIsUpdate(k, t, t', evs, a, b, how);
    UpdateSender(Refreshed(t, t', how), k1.removed, k1.counts, k1.secret, k1.grand, Refreshing(a, b, how), a, how.update);
  }

  /** `remove(a, b)`: b decrypts nothing; every other live user of the refreshed tree but a
      decrypts once. */
  lemma {:induction false} RemoveReceivers(k: Kem, t: Tree, t': Tree, evs: seq<Event>, a: nat, b: nat, how: Strategies, v: nat)
    requires a in Leaves(t) && b in Leaves(t) && a in Leaves(t') && a < |k.counts| && a < |k.removed| && b < |k.removed|
    requires Distinct(Leaves(t)) && Distinct(Leaves(t')) && v < |k.counts|
    ensures RemoveOf(k, t, t', evs, a, b, how).counts[v].dec
         == k.counts[v].dec + (if v != a && v != b && v in Leaves(Refreshed(t, t', how)) && !Flag(k.removed, v) then 1 else 0)
  {
    var k1 := BeforeUpdate(k, t, evs, b, how);
    RemoveIsUpdate(k, t, t', evs, a, b, how);
    UpdateReceivers(Refreshed(t, t', how), k1.removed, k1.counts, k1.secret, k1.grand, Refreshing(a, b, how), a, how.update, v);
    assert Flag(k1.removed, v) <==> v == b || Flag(k.removed, v);
  }

  /** `remove(a, b)` by a live user a leaves b flagged removed and every other flag as it
      was. */
  lemma {:induction false} RemoveFlags(k: Kem, t: Tree, t': Tree, evs: seq<Event>, a: nat, b: nat, how: Strategies)
    requires a in Leaves(t) && b in Leaves(t) && a in Leaves(t') && a < |k.counts| && a < |k.removed| && b < |k.removed|
    requires a != b && !Flag(k.removed, a)
    ensures RemoveOf(k, t, t', evs, a, b, how).removed == k.removed[b := true]
  {
    var k1 := BeforeUpdate(k, t, evs, b, how);
    RemoveIsUpdate(k, t, t', evs, a, b, how);
    UpdatingKeeps(k1, Refreshed(t, t', how), Refreshing(a, b, how), a, how.update);
  }
}
