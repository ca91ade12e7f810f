/** The end of TreeKEM's `update(b, a)` (src/TreeKEM.js:193-213) and the whole operation:
    after the climb the strategy picks a node of b's path, the meeting point with a's path
    (`LCA`) or the root, and every path node strictly between it and b's leaf is blanked
    (`secret = []`), since the sender a does not keep those secrets. */
module KemBlank {
  import opened Utils
  import opened Trees
  import opened KemBroadcast
  import opened KemUpdate

  /** `updateStrategy`. */
  datatype UpdateStrategy = LCA | AtRoot

  /** The deepest node of pa, at index i or above, that lies on pb. */
  function Deepest(pa: seq<Tree>, pb: seq<Tree>, i: nat): (k: nat)
    requires i < |pa| && pa[0] in pb
    ensures k <= i && pa[k] in pb
    ensures forall l :: k < l <= i ==> pa[l] !in pb
  {
    if pa[i] in pb || i == 0 then i else Deepest(pa, pb, i - 1)
  }

  /** The `LCA` loop: from a's leaf up until the node is on b's path. */
  method Meet(pa: seq<Tree>, pb: seq<Tree>) returns (k: nat)
    requires |pa| > 0 && pa[0] in pb
    ensures k == Deepest(pa, pb, |pa| - 1)
  {
    k := |pa| - 1;
    while pa[k] !in pb
      invariant k < |pa|
      invariant Deepest(pa, pb, |pa| - 1) == Deepest(pa, pb, k)
      decreases k
    {
      k := k - 1;
    }
  }

  /** `path[i].secret = []` for lo <= i < hi, in order. */
  function Blank(secret: map<Ref, Secret>, p: seq<Tree>, lo: nat, hi: nat): map<Ref, Secret>
    requires hi <= |p|
    decreases hi
  {
    if hi <= lo then secret else Blank(secret, p, lo, hi - 1)[RefOf(p[hi - 1]) := Part([])]
  }

  /** Some node of p at an index in [lo, hi) is named `r`. */
  predicate Hits(p: seq<Tree>, lo: nat, hi: nat, r: Ref)
  {
    exists m :: lo <= m < hi && m < |p| && RefOf(p[m]) == r
  }

  /** Blanking gives `[]` to exactly the nodes named in the range and leaves every other
      node's secret alone. */
  lemma {:induction false} BlankSecret(secret: map<Ref, Secret>, p: seq<Tree>, lo: nat, hi: nat, r: Ref)
    requires hi <= |p|
    ensures SecretOf(Blank(secret, p, lo, hi), r) == if Hits(p, lo, hi, r) then Part([]) else SecretOf(secret, r)
    decreases hi
  {
    if hi > lo {
      BlankSecret(secret, p, lo, hi - 1, r);
      if RefOf(p[hi - 1]) == r {
        assert lo <= hi - 1 < hi && hi - 1 < |p| && RefOf(p[hi - 1]) == r;
      } else if Hits(p, lo, hi, r) {
        var m :| lo <= m < hi && m < |p| && RefOf(p[m]) == r;
        assert m < hi - 1;
      }
    }
  }

  /** The `for` loop that blanks the path from index lo up to, not including, the leaf. */
  method BlankPath(secret: map<Ref, Secret>, p: seq<Tree>, lo: nat) returns (r: map<Ref, Secret>)
    requires 1 <= |p| && lo <= |p|
    ensures r == Blank(secret, p, lo, |p| - 1)
  {
    r := secret;
    var i := lo;
    while i < |p| - 1
      invariant lo <= i <= |p|
      invariant i > |p| - 1 ==> i == lo
      invariant r == Blank(secret, p, lo, i)
    {
      r := r[RefOf(p[i]) := Part([])];
      i := i + 1;
    }
  }

  /** The index on b's path of the node the strategy picks: the deepest node shared with a's
      path, or the root. */
  function From(t: Tree, b: nat, a: nat, how: UpdateStrategy): (i: nat)
    requires a in Leaves(t) && b in Leaves(t)
    ensures i < |PathTo(t, b)|
  {
    var pa, pb := PathTo(t, a), PathTo(t, b);
    if how == AtRoot then 0 else IndexOf(pb, pa[Deepest(pa, pb, |pa| - 1)])
  }

  /** What `update(b, a)` leaves: every user's counters, the nodes' secrets and the leaves'
      `removed` flags. */
  datatype Updated = Updated(counts: seq<Counts>, secret: map<Ref, Secret>, removed: seq<bool>)

  /** `update(b, a)`: the climb from b's leaf with a's leaf marked removed, so that a never
      encrypts to itself; then the blanking; a's flag is cleared at the end. */
  function UpdateOf(t: Tree, removed: seq<bool>, counts: seq<Counts>, secret: map<Ref, Secret>,
                    grand: map<Ref, seq<Ref>>, b: nat, a: nat, how: UpdateStrategy): Updated
    requires a in Leaves(t) && b in Leaves(t) && a < |counts| && a < |removed|
  {
    var pb, flagged := PathTo(t, b), removed[a := true];
    Finish(Climb(pb, 0, Climbed(counts, secret), a, CopathLoop(flagged, grand)), pb, From(t, b, a, how) + 1, flagged, a)
  }

  /** After the climb c along p: the blanking from index lo and the clearing of a's flag. */
  function Finish(c: Climbed, p: seq<Tree>, lo: nat, removed: seq<bool>, a: nat): Updated
    requires 1 <= |p| && a < |removed|
  {
    Updated(c.counts, Blank(c.secret, p, lo, |p| - 1), removed[a := false])
  }

  /** The sender pays one PRG step per node of b's path and one key generation per node
      below the root. */
  lemma {:induction false} UpdateSender(t: Tree, removed: seq<bool>, counts: seq<Counts>, secret: map<Ref, Secret>,
                                        grand: map<Ref, seq<Ref>>, b: nat, a: nat, how: UpdateStrategy)
    requires a in Leaves(t) && b in Leaves(t) && a < |counts| && a < |removed|
    ensures var u := UpdateOf(t, removed, counts, secret, grand, b, a, how);
            |u.counts| == |counts|
            && u.counts[a].prg == counts[a].prg + |PathTo(t, b)|
            && u.counts[a].gen == counts[a].gen + |PathTo(t, b)| - 1
  {
    ClimbSender(PathTo(t, b), 0, Climbed(counts, secret), a, CopathLoop(removed[a := true], grand));
  }

  /** Every user other than a and b that is live and in the tree decrypts exactly once; a,
      b, removed users and users outside the tree do not decrypt. */
  lemma {:induction false} UpdateReceivers(t: Tree, removed: seq<bool>, counts: seq<Counts>, secret: map<Ref, Secret>,
                                           grand: map<Ref, seq<Ref>>, b: nat, a: nat, how: UpdateStrategy, v: nat)
    requires a in Leaves(t) && b in Leaves(t) && a < |counts| && a < |removed| && v < |counts|
    requires Distinct(Leaves(t))
    ensures UpdateOf(t, removed, counts, secret, grand, b, a, how).counts[v].dec
         == counts[v].dec + (if v != a && v != b && v in Leaves(t) && !Flag(removed, v) then 1 else 0)
  {
    ClimbReceivers(t, removed, counts, secret, grand, b, a, v);
  }

  /** The decryptions of `UpdateReceivers` all happen in the climb. */
  lemma {:induction false} ClimbReceivers(t: Tree, removed: seq<bool>, counts: seq<Counts>, secret: map<Ref, Secret>,
                                          grand: map<Ref, seq<Ref>>, b: nat, a: nat, v: nat)
    requires a in Leaves(t) && b in Leaves(t) && a < |counts| && a < |removed| && v < |counts|
    requires Distinct(Leaves(t))
    ensures Climb(PathTo(t, b), 0, Climbed(counts, secret), a, CopathLoop(removed[a := true], grand)).counts[v].dec
         == counts[v].dec + (if v != a && v != b && v in Leaves(t) && !Flag(removed, v) then 1 else 0)
  {
    var pb := PathTo(t, b);
    var rm := removed[a := true];
    CopathsDeliver(rm, grand);
    ClimbHeard(pb, 0, Climbed(counts, secret), a, CopathLoop(rm, grand), LiveCopaths(rm), v);
    HeardLive(pb, 0, rm, v);
    HeardOnce(t, b);
    DistinctCounts(Leaves(t));
    assert Flag(rm, v) <==> v == a || Flag(removed, v);
    var heard := multiset(Heard(pb, 0, Copaths()))[v];
    assert heard + (if v == b then 1 else 0) == multiset(Leaves(t))[v];
    assert multiset(Leaves(t))[v] == if v in Leaves(t) then 1 else 0;
  }

  /** After the climb from p's leaf and the blanking from index lo on, the blanked nodes hold
      `[]`, the other nodes of the path above the leaf hold `true`, and every other node keeps
      its secret (for `update(b, a)`, p is b's path and lo one below the node `From` picks). */
  lemma {:induction false} RefreshSecrets(p: seq<Tree>, st: Climbed, a: nat, sweep: Sweeper, lo: nat, r: Ref)
    requires |p| >= 1 && a < |st.counts|
    ensures SecretOf(Blank(Climb(p, 0, st, a, sweep).secret, p, lo, |p| - 1), r)
              == if Hits(p, lo, |p| - 1, r) then Part([])
                 else if Hits(p, 0, |p| - 1, r) then Full
                 else SecretOf(st.secret, r)
  {
    var c := Climb(p, 0, st, a, sweep);
    ClimbSecret(p, 0, st, a, sweep);
    BlankSecret(c.secret, p, lo, |p| - 1, r);
    if Hits(p, 0, |p| - 1, r) {
      var m :| 0 <= m < |p| - 1 && m < |p| && RefOf(p[m]) == r;
      assert SecretOf(c.secret, RefOf(p[m])) == Full;
    } else {
      assert !Marks(p, 0, r);
    }
  }

  /** Heights fall strictly along the path. */
  ghost predicate Falling(p: seq<Tree>)
  {
    forall i, j :: 0 <= i < j < |p| ==> Height(p[j]) < Height(p[i])
  }

  /** pb[i] is on pa and no node of pb below it is. */
  ghost predicate LastShared(pa: seq<Tree>, pb: seq<Tree>, i: int)
  {
    0 <= i < |pb| && pb[i] in pa && forall j :: i < j < |pb| ==> pb[j] !in pa
  }

  /** `LCA` picks the lowest node of b's path that is also on a's path: their lowest common
      ancestor. */
  lemma {:induction false} MeetIsLowest(t: Tree, a: nat, b: nat)
    requires a in Leaves(t) && b in Leaves(t)
    ensures LastShared(PathTo(t, a), PathTo(t, b), From(t, b, a, LCA))
  {
    var pa, pb := PathTo(t, a), PathTo(t, b);
    assert From(t, b, a, LCA) == IndexOf(pb, pa[Deepest(pa, pb, |pa| - 1)]);
    PathHeights(t, a);
    PathHeights(t, b);
    Lowest(pa, pb);
  }

  /** On paths whose heights fall, the node where the climb from pa's end meets pb is the
      last node of pb on pa. */
  lemma {:induction false} Lowest(pa: seq<Tree>, pb: seq<Tree>)
    requires |pa| > 0 && pa[0] in pb && Falling(pa) && Falling(pb)
    ensures LastShared(pa, pb, IndexOf(pb, pa[Deepest(pa, pb, |pa| - 1)]))
  {
    var k := Deepest(pa, pb, |pa| - 1);
    var i := IndexOf(pb, pa[k]);
    forall j, l | i < j < |pb| && 0 <= l < |pa|
      ensures pb[j] != pa[l]
    {
      if l < k {
        assert Height(pb[j]) < Height(pa[k]) < Height(pa[l]);
      } else if l == k {
        assert Height(pb[j]) < Height(pa[k]);
      } else {
        assert pa[l] !in pb;
      }
    }
  }

  /** An update of one's own leaf blanks nothing ("ineffective when a = b"): every node of the
      path above the leaf ends with `true`. */
  lemma {:induction false} UpdateSelf(t: Tree, removed: seq<bool>, counts: seq<Counts>, secret: map<Ref, Secret>,
                                      grand: map<Ref, seq<Ref>>, a: nat)
    requires a in Leaves(t) && a < |counts| && a < |removed|
    ensures var pa := PathTo(t, a);
            forall i :: 0 <= i < |pa| - 1 ==> SecretOf(UpdateOf(t, removed, counts, secret, grand, a, a, LCA).secret, RefOf(pa[i])) == Full
  {
    var pa, sweep := PathTo(t, a), CopathLoop(removed[a := true], grand);
    var c := Climb(pa, 0, Climbed(counts, secret), a, sweep);
    PathHeights(t, a);
    SelfMeet(pa);
    assert From(t, a, a, LCA) + 1 == |pa|;
    assert UpdateOf(t, removed, counts, secret, grand, a, a, LCA).secret == Blank(c.secret, pa, |pa|, |pa| - 1);
    ClimbSecret(pa, 0, Climbed(counts, secret), a, sweep);
  }

  /** A path meets itself at its end. */
  lemma {:induction false} SelfMeet(p: seq<Tree>)
    requires |p| > 0 && Falling(p)
    ensures IndexOf(p, p[Deepest(p, p, |p| - 1)]) == |p| - 1
  {
    assert forall j :: 0 <= j < |p| - 1 ==> Height(p[|p| - 1]) < Height(p[j]);
  }
}
