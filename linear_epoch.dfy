/** `LinearEpoch` (src/Epoch.js): epochs on a single line, one shared object per depth. The
    class-wide `singletons` array is a `LinearEpochRegistry`; stepping, the constructor and
    `getAncestor` all hand out the singleton of the requested depth, creating the missing
    ones on the way. */
module LinearEpochs {
  import opened Utils

  /** A linear epoch: an object that only knows its depth. */
  class LinearEpoch {
    const depth: nat

    constructor(d: nat)
      ensures depth == d
    {
      depth := d;
    }
  }

  /** `LinearEpoch.singletons`: entry d is the epoch of depth d. */
  class LinearEpochRegistry {
    var singletons: seq<LinearEpoch>

    ghost predicate Valid()
      reads this
    {
      forall d :: 0 <= d < |singletons| ==> singletons[d].depth == d
    }

    constructor()
      ensures Valid() && singletons == []
    {
      singletons := [];
    }

    /** `getSingleton(depth)`: the epoch of that depth. Missing depths up to it are filled
        with fresh epochs; entries that exist are never replaced, so every call for one
        depth yields the same object. */
    method GetSingleton(depth: nat) returns (r: LinearEpoch)
      requires Valid()
      modifies this
      ensures Valid()
      ensures |singletons| == Max(|old(singletons)|, depth + 1)
      ensures forall d :: 0 <= d < |old(singletons)| ==> singletons[d] == old(singletons)[d]
      ensures forall d :: |old(singletons)| <= d < |singletons| ==> fresh(singletons[d])
      ensures r == singletons[depth] && r.depth == depth
    {
      if depth >= |singletons| {
        var depthStart := |singletons|;
        for d := depthStart to depth + 1
          invariant |singletons| == d
          invariant Valid()
          invariant singletons[..depthStart] == old(singletons)
          invariant forall k :: depthStart <= k < d ==> fresh(singletons[k])
        {
          var e := new LinearEpoch(d);
          singletons := singletons + [e];
        }
      }
      r := singletons[depth];
    }

    /** `new LinearEpoch()`: the singleton of depth 0. */
    method NewRoot() returns (r: LinearEpoch)
      requires Valid()
      modifies this
      ensures Valid() && |singletons| >= 1 && |singletons| >= |old(singletons)|
      ensures forall d :: 0 <= d < |old(singletons)| ==> singletons[d] == old(singletons)[d]
      ensures r == singletons[0] && r.depth == 0
    {
      r := GetSingleton(0);
    }

    /** `e.step()`, i.e. `new LinearEpoch(e)`: the singleton one level below e. */
    method Step(e: LinearEpoch) returns (r: LinearEpoch)
      requires Valid()
      modifies this
      ensures Valid() && |singletons| > e.depth + 1 && |singletons| >= |old(singletons)|
      ensures forall d :: 0 <= d < |old(singletons)| ==> singletons[d] == old(singletons)[d]
      ensures r == singletons[e.depth + 1] && r.depth == e.depth + 1
    {
      r := GetSingleton(e.depth + 1);
    }

    /** `e.getAncestor(depth)`: the singleton of that depth, whatever e is. */
    method GetAncestor(e: LinearEpoch, depth: nat) returns (r: LinearEpoch)
      requires Valid()
      modifies this
      ensures Valid() && |singletons| > depth && |singletons| >= |old(singletons)|
      ensures forall d :: 0 <= d < |old(singletons)| ==> singletons[d] == old(singletons)[d]
      ensures r == singletons[depth] && r.depth == depth
    {
      r := GetSingleton(depth);
    }
  }

  /** `LinearEpoch.lt`: only the depths are compared. */
  predicate Lt(epochOld: LinearEpoch, epochNew: LinearEpoch)
  {
    epochOld.depth < epochNew.depth
  }

  /** `Epoch.ge`, which dispatches to `LinearEpoch.lt`. */
  predicate Ge(epochNew: LinearEpoch, epochOld: LinearEpoch)
  {
    epochOld == epochNew || Lt(epochOld, epochNew)
  }

  /** Among the singletons, epochs are equal exactly when their depths are, so `ge` is the
      order of depths and `lt` its strict part. */
  lemma {:induction false} SingletonOrder(reg: LinearEpochRegistry, a: LinearEpoch, b: LinearEpoch)
    requires reg.Valid() && a in reg.singletons && b in reg.singletons
    ensures a == b <==> a.depth == b.depth
    ensures Ge(a, b) <==> b.depth <= a.depth
    ensures Lt(b, a) <==> Ge(a, b) && a != b
  {
    var i :| 0 <= i < |reg.singletons| && reg.singletons[i] == a;
    var j :| 0 <= j < |reg.singletons| && reg.singletons[j] == b;
    assert a.depth == i && b.depth == j;
  }

  /** The scenario of the singleton test: two fresh roots are the same object, so are their
      steps, and the ancestor at depth 0 of a step is the root. */
  method SharedSingletons(reg: LinearEpochRegistry) returns (e0: LinearEpoch, e0': LinearEpoch,
                                                             s: LinearEpoch, s': LinearEpoch, a: LinearEpoch)
    requires reg.Valid()
    modifies reg
    ensures e0 == e0' && s == s' && a == e0
    ensures e0.depth == 0 && s.depth == 1
  {
    e0 := reg.NewRoot();
    e0' := reg.NewRoot();
    s := reg.Step(e0);
    var root := reg.NewRoot();
    s' := reg.Step(root);
    a := reg.GetAncestor(s, 0);
  }
}
