/** `EpochMap` (src/Epoch.js): values keyed by epochs of an `EpochStore`, kept as buckets
    `[depth, Map]` sorted by depth, so that the deepest stored ancestor of an epoch is found by
    walking the buckets from its depth upwards. The array of pairs is held as two columns,
    `depths` and `maps`, of equal length; bucket i is `[depths[i], maps[i]]`. */
module EpochMaps {
  import opened Utils
  import opened Epochs

  /** All entries of the buckets (later buckets override earlier ones, which never happens in
      a well-formed map since their keys are disjoint). */
  function Stored<V>(maps: seq<map<nat, V>>): (m: map<nat, V>)
    ensures maps == [] ==> m == map[]
    decreases |maps|
  {
    if maps == [] then map[] else Stored(maps[..|maps| - 1]) + maps[|maps| - 1]
  }

  /** The invariant of the buckets: depths strictly increase, no bucket is empty, and every
      key is an epoch of its bucket's depth. */
  ghost predicate WellFormed<V>(depths: seq<nat>, maps: seq<map<nat, V>>, depth: seq<nat>)
  {
    |depths| == |maps| && Increasing(depths) && NonEmpty(maps) && KeysAt(depths, maps, depth)
  }

  ghost predicate Increasing(depths: seq<nat>)
  {
    forall i, j :: 0 <= i < j < |depths| ==> depths[i] < depths[j]
  }

  ghost predicate NonEmpty<V>(maps: seq<map<nat, V>>)
  {
    forall i :: 0 <= i < |maps| ==> |maps[i]| > 0
  }

  ghost predicate KeysAt<V>(depths: seq<nat>, maps: seq<map<nat, V>>, depth: seq<nat>)
    requires |depths| == |maps|
  {
    forall i, e {:trigger e in maps[i]} :: 0 <= i < |maps| && e in maps[i] ==> e < |depth| && depth[e] == depths[i]
  }

  /** The entries of a concatenation are those of the first part overridden by the second. */
  lemma {:induction false} StoredAppend<V>(a: seq<map<nat, V>>, b: seq<map<nat, V>>)
    ensures Stored(a + b) == Stored(a) + Stored(b)
    decreases |b|
  {
    if b == [] {
      assert a + b == a;
    } else {
      var b' := b[..|b| - 1];
      assert (a + b)[..|a + b| - 1] == a + b';
      StoredAppend(a, b');
    }
  }

  /** The entries around one bucket. */
  lemma {:induction false} StoredSplice<V>(a: seq<map<nat, V>>, m: map<nat, V>, b: seq<map<nat, V>>)
    ensures Stored(a + [m] + b) == Stored(a) + m + Stored(b)
  {
    StoredAppend(a + [m], b);
    StoredAppend(a, [m]);
    assert [m][..0] == [];
  }

  /** A key held by no bucket in [lo, hi) is not stored by that run of buckets. */
  lemma {:induction false} StoredNone<V>(maps: seq<map<nat, V>>, lo: nat, hi: nat, e: nat)
    requires lo <= hi <= |maps|
    requires forall k :: lo <= k < hi ==> e !in maps[k]
    ensures e !in Stored(maps[lo..hi])
    decreases hi - lo
  {
    if lo < hi {
      assert maps[lo..hi][..hi - lo - 1] == maps[lo..hi - 1];
      StoredNone(maps, lo, hi - 1, e);
    }
  }

  /** Where only bucket i may hold e, e is stored exactly when bucket i holds it, with its
      value. */
  lemma {:induction false} StoredOnly<V>(maps: seq<map<nat, V>>, i: nat, e: nat)
    requires i < |maps|
    requires forall k :: 0 <= k < |maps| && k != i ==> e !in maps[k]
    ensures e in Stored(maps) <==> e in maps[i]
    ensures e in maps[i] ==> Stored(maps)[e] == maps[i][e]
  {
    assert maps == maps[..i] + [maps[i]] + maps[i + 1..];
    assert maps[..i] == maps[0..i];
    assert maps[i + 1..] == maps[i + 1..|maps|];
    StoredSplice(maps[..i], maps[i], maps[i + 1..]);
    StoredNone(maps, 0, i, e);
    StoredNone(maps, i + 1, |maps|, e);
  }

  /** In a well-formed map, only the bucket of an epoch's depth may hold it. */
  lemma {:induction false} OnlyBucketOfDepth<V>(depths: seq<nat>, maps: seq<map<nat, V>>, depth: seq<nat>, e: nat)
    requires WellFormed(depths, maps, depth) && e < |depth|
    ensures forall k :: 0 <= k < |maps| && depths[k] != depth[e] ==> e !in maps[k]
  {
  }

  /** In a well-formed map, an epoch is stored exactly when the bucket of its depth holds it,
      with that bucket's value. */
  lemma {:induction false} StoredKey<V>(depths: seq<nat>, maps: seq<map<nat, V>>, depth: seq<nat>, i: nat, e: nat)
    requires WellFormed(depths, maps, depth) && i < |maps| && e < |depth| && depth[e] == depths[i]
    ensures e in Stored(maps) <==> e in maps[i]
    ensures e in maps[i] ==> Stored(maps)[e] == maps[i][e]
  {
    OnlyBucketOfDepth(depths, maps, depth, e);
    StoredOnly(maps, i, e);
  }

  /** In a well-formed map, an epoch whose depth has no bucket is not stored. */
  lemma {:induction false} StoredAbsent<V>(depths: seq<nat>, maps: seq<map<nat, V>>, depth: seq<nat>, e: nat)
    requires WellFormed(depths, maps, depth) && e < |depth|
    requires forall k :: 0 <= k < |depths| ==> depths[k] != depth[e]
    ensures e !in Stored(maps)
  {
    OnlyBucketOfDepth(depths, maps, depth, e);
    assert maps[0..|maps|] == maps;
    StoredNone(maps, 0, |maps|, e);
  }

  /** The bucket of a stored key. */
  lemma {:induction false} BucketOf<V>(maps: seq<map<nat, V>>, a: nat) returns (k: nat)
    requires a in Stored(maps)
    ensures k < |maps| && a in maps[k]
    decreases |maps|
  {
    var last := |maps| - 1;
    if a in maps[last] {
      k := last;
    } else {
      k := BucketOf(maps[..last], a);
    }
  }

  /** The keys of a well-formed map are epochs of the store. */
  lemma {:induction false} StoredBounded<V>(depths: seq<nat>, maps: seq<map<nat, V>>, depth: seq<nat>)
    requires WellFormed(depths, maps, depth)
    ensures forall a :: a in Stored(maps) ==> a < |depth|
  {
    forall a | a in Stored(maps)
      ensures a < |depth|
    {
      var k := BucketOf(maps, a);
    }
  }

  /** Map identities behind the bucket edits. */
  lemma {:induction false} MapIdentities<V>(a: map<nat, V>, m: map<nat, V>, b: map<nat, V>, e: nat, v: V)
    requires e !in a && e !in b
    ensures a + m[e := v] + b == (a + m + b)[e := v]
    ensures a + (m - {e}) + b == (a + m + b) - {e}
    ensures m.Keys <= {e} ==> a + b == (a + m + b) - {e}
    ensures m.Keys == {e} ==> a + m + b == (a + b)[e := m[e]]
  {
  }

  /** Splicing in a bucket holding only e, where no bucket holds e, stores that entry more. */
  lemma {:induction false} InsertStored<V>(maps: seq<map<nat, V>>, i: nat, e: nat, single: map<nat, V>)
    requires i <= |maps| && single.Keys == {e}
    requires forall k :: 0 <= k < |maps| ==> e !in maps[k]
    ensures Stored(maps[..i] + [single] + maps[i..]) == Stored(maps)[e := single[e]]
  {
    assert maps == maps[..i] + maps[i..];
    assert maps[..i] == maps[0..i] && maps[i..] == maps[i..|maps|];
    StoredAppend(maps[..i], maps[i..]);
    StoredSplice(maps[..i], single, maps[i..]);
    StoredNone(maps, 0, i, e);
    StoredNone(maps, i, |maps|, e);
    MapIdentities(Stored(maps[..i]), single, Stored(maps[i..]), e, single[e]);
  }

  /** Adding e to bucket i, where no other bucket holds e, stores that entry more. */
  lemma {:induction false} GrowStored<V>(maps: seq<map<nat, V>>, i: nat, e: nat, value: V)
    requires i < |maps|
    requires forall k :: 0 <= k < |maps| && k != i ==> e !in maps[k]
    ensures var grown: map<nat, V> := maps[i][e := value]; Stored(maps[i := grown]) == Stored(maps)[e := value]
  {
    var grown: map<nat, V> := maps[i][e := value];
    assert maps == maps[..i] + [maps[i]] + maps[i + 1..];
    assert maps[i := grown] == maps[..i] + [grown] + maps[i + 1..];
    assert maps[..i] == maps[0..i] && maps[i + 1..] == maps[i + 1..|maps|];
    StoredSplice(maps[..i], maps[i], maps[i + 1..]);
    StoredSplice(maps[..i], grown, maps[i + 1..]);
    StoredNone(maps, 0, i, e);
    StoredNone(maps, i + 1, |maps|, e);
    MapIdentities(Stored(maps[..i]), maps[i], Stored(maps[i + 1..]), e, value);
  }

  /** Taking e out of bucket i, where no other bucket holds e, stores that entry less; so does
      splicing out bucket i when e was its only key. */
  lemma {:induction false} RemoveStored<V>(maps: seq<map<nat, V>>, i: nat, e: nat)
    requires i < |maps| && e in maps[i]
    requires forall k :: 0 <= k < |maps| && k != i ==> e !in maps[k]
    ensures Stored(maps[i := maps[i] - {e}]) == Stored(maps) - {e}
    ensures maps[i].Keys <= {e} ==> Stored(maps[..i] + maps[i + 1..]) == Stored(maps) - {e}
  {
    var shrunk: map<nat, V> := maps[i] - {e};
    assert maps == maps[..i] + [maps[i]] + maps[i + 1..];
    assert maps[i := shrunk] == maps[..i] + [shrunk] + maps[i + 1..];
    assert maps[..i] == maps[0..i] && maps[i + 1..] == maps[i + 1..|maps|];
    StoredSplice(maps[..i], maps[i], maps[i + 1..]);
    StoredSplice(maps[..i], shrunk, maps[i + 1..]);
    StoredAppend(maps[..i], maps[i + 1..]);
    StoredNone(maps, 0, i, e);
    StoredNone(maps, i + 1, |maps|, e);
    MapIdentities(Stored(maps[..i]), maps[i], Stored(maps[i + 1..]), e, maps[i][e]);
  }

  /** Splicing a new bucket of e's depth in where that depth belongs keeps the map well
      formed. */
  lemma {:induction false} InsertWellFormed<V>(depths: seq<nat>, maps: seq<map<nat, V>>, depth: seq<nat>,
                                               i: int, e: nat, single: map<nat, V>)
    requires WellFormed(depths, maps, depth) && e < |depth| && -1 <= i < |depths| && single.Keys == {e}
    requires forall k :: 0 <= k <= i ==> depths[k] < depth[e]
    requires forall k :: i < k < |depths| ==> depths[k] > depth[e]
    ensures WellFormed(depths[..i + 1] + [depth[e]] + depths[i + 1..], maps[..i + 1] + [single] + maps[i + 1..], depth)
  {
    var maps' := maps[..i + 1] + [single] + maps[i + 1..];
    var depths' := depths[..i + 1] + [depth[e]] + depths[i + 1..];
    SpliceIn(depths, i + 1, depth[e]);
    SpliceIn(maps, i + 1, single);
    forall a, b | 0 <= a < b < |depths'|
      ensures depths'[a] < depths'[b]
    {
      if b <= i {
        assert depths'[a] == depths[a] && depths'[b] == depths[b];
      } else if a > i + 1 {
        assert depths'[a] == depths[a - 1] && depths'[b] == depths[b - 1];
      }
    }
    InsertKeysAt(depths, maps, depth, i, e, single);
  }

  /** The elements of a sequence with x spliced in at i. */
  lemma {:induction false} SpliceIn<T>(s: seq<T>, i: nat, x: T)
    requires i <= |s|
    ensures |s[..i] + [x] + s[i..]| == |s| + 1
    ensures forall k :: 0 <= k < i ==> (s[..i] + [x] + s[i..])[k] == s[k]
    ensures (s[..i] + [x] + s[i..])[i] == x
    ensures forall k :: i < k <= |s| ==> (s[..i] + [x] + s[i..])[k] == s[k - 1]
  {
  }

  /** The keys part of `InsertWellFormed`. */
  lemma {:induction false} InsertKeysAt<V>(depths: seq<nat>, maps: seq<map<nat, V>>, depth: seq<nat>,
                                           i: int, e: nat, single: map<nat, V>)
    requires |depths| == |maps| && KeysAt(depths, maps, depth) && NonEmpty(maps)
    requires e < |depth| && -1 <= i < |depths| && single.Keys == {e}
    ensures var depths', maps' := depths[..i + 1] + [depth[e]] + depths[i + 1..], maps[..i + 1] + [single] + maps[i + 1..];
            |depths'| == |maps'| && KeysAt(depths', maps', depth) && NonEmpty(maps')
  {
    var maps' := maps[..i + 1] + [single] + maps[i + 1..];
    var depths' := depths[..i + 1] + [depth[e]] + depths[i + 1..];
    SpliceIn(depths, i + 1, depth[e]);
    SpliceIn(maps, i + 1, single);
    forall k | 0 <= k < |maps'|
      ensures |maps'[k]| > 0
    {
      if k <= i {
        assert maps'[k] == maps[k];
      } else if k > i + 1 {
        assert maps'[k] == maps[k - 1];
      } else {
        assert e in maps'[k];
      }
    }
    forall k, x | 0 <= k < |maps'| && x in maps'[k]
      ensures x < |depth| && depth[x] == depths'[k]
    {
      if k <= i {
        assert maps'[k] == maps[k] && depths'[k] == depths[k];
      } else if k == i + 1 {
        assert x in single;
      } else {
        assert maps'[k] == maps[k - 1] && depths'[k] == depths[k - 1];
      }
    }
  }

  /** Splicing a new bucket holding only e in where e's depth belongs keeps the map well
      formed and stores exactly that entry more. */
  lemma {:induction false} InsertBucket<V>(depths: seq<nat>, maps: seq<map<nat, V>>, depth: seq<nat>,
                                           i: int, e: nat, single: map<nat, V>)
    requires WellFormed(depths, maps, depth) && e < |depth| && -1 <= i < |depths| && single.Keys == {e}
    requires forall k :: 0 <= k <= i ==> depths[k] <= depth[e]
    requires i < 0 || depths[i] < depth[e]
    requires forall k :: i < k < |depths| ==> depths[k] > depth[e]
    ensures var depths', maps' := depths[..i + 1] + [depth[e]] + depths[i + 1..], maps[..i + 1] + [single] + maps[i + 1..];
            WellFormed(depths', maps', depth) && Stored(maps') == Stored(maps)[e := single[e]]
  {
    forall k | 0 <= k <= i
      ensures depths[k] < depth[e]
    {
      if k < i {
        assert depths[k] < depths[i];
      }
    }
    InsertWellFormed(depths, maps, depth, i, e, single);
    OnlyBucketOfDepth(depths, maps, depth, e);
    InsertStored(maps, i + 1, e, single);
  }

  /** Adding an entry to the bucket of its depth keeps the map well formed and stores exactly
      that entry more. */
  lemma {:induction false} GrowBucket<V>(depths: seq<nat>, maps: seq<map<nat, V>>, depth: seq<nat>,
                                         i: nat, e: nat, grown: map<nat, V>)
    requires WellFormed(depths, maps, depth) && i < |maps| && e < |depth| && depth[e] == depths[i]
    requires e in grown && grown == maps[i][e := grown[e]]
    ensures WellFormed(depths, maps[i := grown], depth)
    ensures Stored(maps[i := grown]) == Stored(maps)[e := grown[e]]
  {
    ReplaceWellFormed(depths, maps, depth, i, grown);
    OnlyBucketOfDepth(depths, maps, depth, e);
    GrowStored(maps, i, e, grown[e]);
  }

  /** Taking e out of the bucket of its depth keeps the map well formed and stores exactly
      that entry less, whether the emptied bucket is spliced out or a shrunk one kept. */
  lemma {:induction false} DeleteEntry<V>(depths: seq<nat>, maps: seq<map<nat, V>>, depth: seq<nat>, i: nat, e: nat)
    requires WellFormed(depths, maps, depth) && i < |maps| && e < |depth| && depth[e] == depths[i]
    requires e in maps[i]
    ensures |maps[i] - {e}| == 0 ==>
      var depths', maps' := depths[..i] + depths[i + 1..], maps[..i] + maps[i + 1..];
      WellFormed(depths', maps', depth) && Stored(maps') == Stored(maps) - {e}
    ensures |maps[i] - {e}| > 0 ==>
      var maps' := maps[i := maps[i] - {e}];
      WellFormed(depths, maps', depth) && Stored(maps') == Stored(maps) - {e}
  {
    var m' := maps[i] - {e};
    OnlyBucketOfDepth(depths, maps, depth, e);
    RemoveStored(maps, i, e);
    if |m'| == 0 {
      assert maps[i].Keys <= {e} by {
        assert m'.Keys == maps[i].Keys - {e};
        assert m'.Keys == {};
      }
      RemoveWellFormed(depths, maps, depth, i);
    } else {
      ReplaceWellFormed(depths, maps, depth, i, m');
    }
  }

  /** Changing the entries of one bucket keeps the map well formed when the new entries are
      non-empty and of the bucket's depth. */
  lemma {:induction false} ReplaceWellFormed<V>(depths: seq<nat>, maps: seq<map<nat, V>>, depth: seq<nat>,
                                                i: nat, m: map<nat, V>)
    requires WellFormed(depths, maps, depth) && i < |maps|
    requires |m| > 0 && forall e :: e in m ==> e < |depth| && depth[e] == depths[i]
    ensures WellFormed(depths, maps[i := m], depth)
  {
    var maps' := maps[i := m];
    forall k | 0 <= k < |maps'|
      ensures |maps'[k]| > 0
    {
      if k != i {
        assert maps'[k] == maps[k];
      }
    }
    forall k, x | 0 <= k < |maps'| && x in maps'[k]
      ensures x < |depth| && depth[x] == depths[k]
    {
      if k != i {
        assert maps'[k] == maps[k];
      } else {
        assert x in m;
      }
    }
  }

  /** Splicing out a bucket keeps the map well formed. */
  lemma {:induction false} RemoveWellFormed<V>(depths: seq<nat>, maps: seq<map<nat, V>>, depth: seq<nat>, i: nat)
    requires WellFormed(depths, maps, depth) && i < |maps|
    ensures WellFormed(depths[..i] + depths[i + 1..], maps[..i] + maps[i + 1..], depth)
  {
    var depths', maps' := depths[..i] + depths[i + 1..], maps[..i] + maps[i + 1..];
    assert forall k :: 0 <= k < |depths'| ==> depths'[k] == (if k < i then depths[k] else depths[k + 1]);
    assert forall k :: 0 <= k < |maps'| ==> maps'[k] == (if k < i then maps[k] else maps[k + 1]);
  }

  class EpochMap<V> {
    /** the depth of each bucket */
    var depths: seq<nat>
    /** the entries of each bucket */
    var maps: seq<map<nat, V>>

    /** Well formed against the depths of the epoch store the keys come from. */
    ghost predicate Valid(depth: seq<nat>)
      reads this
    {
      WellFormed(depths, maps, depth)
    }

    constructor()
      ensures depths == [] && maps == [] && Stored(maps) == map[]
    {
      depths, maps := [], [];
    }

    /** `indexOfDepth(depth)`: the last bucket not deeper than `depth`, or -1. */
    method IndexOfDepth(depth: nat) returns (i: int)
      requires Increasing(depths)
      ensures -1 <= i < |depths|
      ensures forall k :: 0 <= k <= i ==> depths[k] <= depth
      ensures forall k :: i < k < |depths| ==> depths[k] > depth
    {
      var ds := depths;
      var atMost: nat -> bool := (k: nat) => k < |ds| && ds[k] <= depth;
      assert MonotoneBelow(|ds|, atMost) by {
        forall a, b | 0 <= a <= b < |ds| && atMost(b)
          ensures atMost(a)
        {
          if a < b {
            assert ds[a] < ds[b];
          }
        }
      }
      i := BinarySearchLast(|ds|, atMost);
      forall k | 0 <= k <= i
        ensures ds[k] <= depth
      {
        assert atMost(k);
      }
      forall k | i < k < |ds|
        ensures ds[k] > depth
      {
        assert !atMost(k);
      }
    }

    /** `set(epoch, value)`: when no bucket has the epoch's depth a new one is spliced in after
        the last shallower one; otherwise the value joins that bucket, which must not hold the
        epoch yet. */
    method Set(depth: seq<nat>, e: nat, value: V)
      requires Valid(depth) && e < |depth|
      requires e !in Stored(maps)
      modifies this
      ensures Valid(depth)
      ensures Stored(maps) == old(Stored(maps))[e := value]
    {
      var d := depth[e];
      var i := IndexOfDepth(d);
      if i < 0 || depths[i] < d {
        var single: map<nat, V> := map[e := value];
        InsertBucket(depths, maps, depth, i, e, single);
        depths, maps := depths[..i + 1] + [d] + depths[i + 1..], maps[..i + 1] + [single] + maps[i + 1..];
      } else {
        var m := maps[i];
        assert e !in m by {
          StoredKey(depths, maps, depth, i, e);
        }
        var grown: map<nat, V> := m[e := value];
        GrowBucket(depths, maps, depth, i, e, grown);
        maps := maps[i := grown];
      }
    }

    /** `delete(epoch)`: the epoch must be stored; its value is returned and its entry removed,
        and a bucket left empty is spliced out. */
    method Delete(depth: seq<nat>, e: nat) returns (value: V)
      requires Valid(depth) && e < |depth|
      requires e in Stored(maps)
      modifies this
      ensures Valid(depth)
      ensures value == old(Stored(maps))[e]
      ensures Stored(maps) == old(Stored(maps)) - {e}
    {
      var d := depth[e];
      var i := IndexOfDepth(d);
      if i < 0 || depths[i] != d {
        StoredAbsent(depths, maps, depth, e);
        assert false;
      }
      StoredKey(depths, maps, depth, i, e);
      var m := maps[i];
      value := m[e];
      var m': map<nat, V> := m - {e};
      DeleteEntry(depths, maps, depth, i, e);
      if |m'| == 0 {
        depths, maps := depths[..i] + depths[i + 1..], maps[..i] + maps[i + 1..];
      } else {
        maps := maps[i := m'];
      }
    }

    /** `has(epoch)`. */
    method Has(depth: seq<nat>, e: nat) returns (r: bool)
      requires Valid(depth) && e < |depth|
      ensures r <==> e in Stored(maps)
    {
      var d := depth[e];
      var i := IndexOfDepth(d);
      if i < 0 || depths[i] < d {
        StoredAbsent(depths, maps, depth, e);
        return false;
      }
      StoredKey(depths, maps, depth, i, e);
      r := e in maps[i];
    }

    /** `getLowestAncestor(epoch)`: from the bucket of e's depth, or the last shallower one,
        upwards, the first bucket holding e's ancestor at its depth gives the answer, that
        ancestor with its value; `None` when no bucket holds one. */
    method GetLowestAncestor(store: EpochStore, e: nat) returns (r: Option<(nat, V)>)
      requires store.Valid() && Valid(store.depth) && e < |store.parent|
      modifies store`ancestors
      ensures store.Valid() && store.parent == old(store.parent) && store.depth == old(store.depth)
      ensures forall a :: a in Stored(maps) ==> a < |store.parent|
      ensures IsLowestAncestor(store.parent, store.depth, Stored(maps), e, r)
    {
      ghost var P, D := store.parent, store.depth;
      StoredBounded(depths, maps, D);
      var i := IndexOfDepth(store.depth[e]);
      var j := i;
      while j >= 0
        invariant -1 <= j <= i
        invariant store.Valid() && store.parent == P && store.depth == D
        invariant forall k :: 0 <= k <= i ==> depths[k] <= D[e]
        invariant forall k :: j < k <= i ==> Anc(P, D, e, depths[k]) !in maps[k]
        decreases j
      {
        var d, m := depths[j], maps[j];
        var ancestor := store.GetAncestor(e, d);
        if ancestor in m {
          r := Some((ancestor, m[ancestor]));
          LowestAncestorFound(depths, maps, P, D, e, i, j);
          return;
        }
        j := j - 1;
      }
      r := None;
      NoStoredAncestor(depths, maps, P, D, e, i);
    }
  }

  /** What `getLowestAncestor(e)` answers: `None` when no stored epoch is an ancestor of e or
      e itself; otherwise a stored such epoch with its value, and no stored such epoch is
      deeper. */
  ghost predicate IsLowestAncestor<V>(parent: seq<Option<nat>>, depth: seq<nat>, stored: map<nat, V>,
                                      e: nat, r: Option<(nat, V)>)
    requires Linked(parent, depth) && e < |parent|
    requires forall a :: a in stored ==> a < |parent|
  {
    match r
    case None => forall a :: a in stored ==> !AncestorOrSelf(parent, depth, a, e)
    case Some((a, value)) =>
      && a in stored && stored[a] == value
      && AncestorOrSelf(parent, depth, a, e)
      && forall b :: b in stored && AncestorOrSelf(parent, depth, b, e) ==> depth[b] <= depth[a]
  }

  /** When no bucket from i upwards holds e's ancestor at its depth, and the buckets after i
      are deeper than e, no stored epoch is an ancestor-or-self of e. */
  lemma {:induction false} NoStoredAncestor<V>(depths: seq<nat>, maps: seq<map<nat, V>>,
                                               parent: seq<Option<nat>>, depth: seq<nat>, e: nat, i: int)
    requires Linked(parent, depth) && WellFormed(depths, maps, depth) && e < |parent|
    requires -1 <= i < |depths|
    requires forall k :: 0 <= k <= i ==> depths[k] <= depth[e]
    requires forall k :: i < k < |depths| ==> depths[k] > depth[e]
    requires forall k :: 0 <= k <= i ==> Anc(parent, depth, e, depths[k]) !in maps[k]
    ensures forall a :: a in Stored(maps) ==> a < |parent|
    ensures IsLowestAncestor(parent, depth, Stored(maps), e, None)
  {
    StoredBounded(depths, maps, depth);
    forall a | a in Stored(maps)
      ensures !AncestorOrSelf(parent, depth, a, e)
    {
      var k := BucketOf(maps, a);
    }
  }

  /** When bucket j is the first from i upwards to hold e's ancestor, and the buckets after i
      are deeper than e, that ancestor and its value are the answer. */
  lemma {:induction false} LowestAncestorFound<V>(depths: seq<nat>, maps: seq<map<nat, V>>,
                                                  parent: seq<Option<nat>>, depth: seq<nat>, e: nat, i: int, j: nat)
    requires Linked(parent, depth) && WellFormed(depths, maps, depth) && e < |parent|
    requires j <= i < |depths|
    requires forall k :: 0 <= k <= i ==> depths[k] <= depth[e]
    requires forall k :: i < k < |depths| ==> depths[k] > depth[e]
    requires forall k :: j < k <= i ==> Anc(parent, depth, e, depths[k]) !in maps[k]
    requires Anc(parent, depth, e, depths[j]) in maps[j]
    ensures forall a :: a in Stored(maps) ==> a < |parent|
    ensures var a := Anc(parent, depth, e, depths[j]);
            IsLowestAncestor(parent, depth, Stored(maps), e, Some((a, maps[j][a])))
  {
    StoredBounded(depths, maps, depth);
    var a := Anc(parent, depth, e, depths[j]);
    StoredKey(depths, maps, depth, j, a);
    forall b | b in Stored(maps) && AncestorOrSelf(parent, depth, b, e)
      ensures depth[b] <= depth[a]
    {
      var k := BucketOf(maps, b);
      assert depths[k] == depth[b];
    }
  }
}
