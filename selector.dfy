/** The candidate selector: the nested NearestGpus and the level-by-level
    expansion around the seed (cuda_gpupick/cuda_gpupick.py, lines 101-121). */
module Selector {
  import opened Sequences
  import opened Scoring

  /** The farthest level the expansion may reach: HOSTBRIDGE, or SYSTEM when
      NUMA crossing is allowed (the -f flag). */
  function MaxLevel(force: bool): (l: Level)
    ensures l == if force then 50 else 30
  {
    if force then SYSTEM else HOSTBRIDGE
  }

  /** Device `d`'s score lacks the busy marker. */
  predicate Free(scores: seq<Mask>, d: nat) {
    d < |scores| && scores[d] & BusyMarker == 0
  }

  /** What NearestGpus(level) returns: the devices other than the seed whose
      level from the seed is exactly `level`, in ranking order. */
  function Nearest(ranking: seq<nat>, seed: nat, dist: Topology, level: int): (near: seq<nat>)
    ensures forall d :: d in near <==> d in ranking && d != seed && dist(seed, d) == level
    ensures FollowsOrder(near, ranking)
    ensures Distinct(ranking) ==> Distinct(near)
  {
    var atLevel := d => d != seed && dist(seed, d) == level;
    FilterMembers(ranking, atLevel);
    FilterFollowsOrder(ranking, atLevel);
    FilterDistinct(ranking, atLevel);
    Filter(ranking, atLevel)
  }

  /** The devices of `cands` whose score lacks the busy marker, in order. */
  function KeepFree(cands: seq<nat>, scores: seq<Mask>): seq<nat> {
    Filter(cands, d => Free(scores, d))
  }

  /** One pass of the inner `for` loop: each candidate that is not chosen
      yet and whose score lacks the busy marker is appended. */
  function AddNew(chosen: seq<nat>, cands: seq<nat>, scores: seq<Mask>): (r: seq<nat>)
    ensures chosen <= r
    ensures |r| <= |chosen| + |cands|
  {
    if cands == [] then chosen
    else
      var init := AddNew(chosen, cands[..|cands| - 1], scores);
      var h := cands[|cands| - 1];
      if h !in init && Free(scores, h) then init + [h] else init
  }

  /** The `while` loop: while fewer than `n` devices are chosen and `level`
      has not passed `maxLevel`, add the devices at `level` and step up 10. */
  function Expand(ranking: seq<nat>, scores: seq<Mask>, dist: Topology, seed: nat,
                  n: nat, maxLevel: int, chosen: seq<nat>, level: int): (r: seq<nat>)
    ensures chosen <= r
    decreases maxLevel + 10 - level
  {
    if |chosen| < n && level <= maxLevel then
      var near := Nearest(ranking, seed, dist, level);
      Expand(ranking, scores, dist, seed, n, maxLevel, AddNew(chosen, near, scores), level + 10)
    else chosen
  }

  /** One pass keeps what was chosen and adds exactly the free candidates
      not chosen yet, each once. */
  lemma {:induction false} AddNewMembers(chosen: seq<nat>, cands: seq<nat>, scores: seq<Mask>)
    ensures forall d :: d in AddNew(chosen, cands, scores) <==> d in chosen || (d in cands && Free(scores, d))
    ensures Distinct(chosen) ==> Distinct(AddNew(chosen, cands, scores))
  {
    if cands != [] {
      var init := cands[..|cands| - 1];
      AddNewMembers(chosen, init, scores);
      assert cands == init + [cands[|cands| - 1]];
    }
  }

  /** The expansion keeps what was chosen and adds only free ranked
      devices, other than the seed, between the current level and the
      ceiling, never one twice. */
  lemma {:induction false} ExpandMembers(ranking: seq<nat>, scores: seq<Mask>, dist: Topology, seed: nat,
                                         n: nat, maxLevel: int, chosen: seq<nat>, level: int)
    ensures forall d :: d in Expand(ranking, scores, dist, seed, n, maxLevel, chosen, level) ==>
              d in chosen || (d in ranking && d != seed && Free(scores, d) && level <= dist(seed, d) <= maxLevel)
    ensures Distinct(chosen) ==> Distinct(Expand(ranking, scores, dist, seed, n, maxLevel, chosen, level))
    decreases maxLevel + 10 - level
  {
    if |chosen| < n && level <= maxLevel {
      var near := Nearest(ranking, seed, dist, level);
      AddNewMembers(chosen, near, scores);
      ExpandMembers(ranking, scores, dist, seed, n, maxLevel, AddNew(chosen, near, scores), level + 10);
    }
  }

  /** NearestGpus: scans the ranking and collects the devices at `level`
      from the seed. */
  method NearestGpus(ranking: seq<nat>, seed: nat, dist: Topology, level: int) returns (near: seq<nat>)
    ensures near == Nearest(ranking, seed, dist, level)
    ensures forall d :: d in near <==> d in ranking && d != seed && dist(seed, d) == level
  {
    near := [];
    for k := 0 to |ranking|
      invariant near == Nearest(ranking[..k], seed, dist, level)
    {
      assert ranking[..k + 1][..k] == ranking[..k];
      var d := ranking[k];
      if d != seed {
        var l := dist(seed, d);
        if l == level {
          near := near + [d];
        }
      }
    }
    assert ranking[..|ranking|] == ranking;
  }

  /** The expansion loop: starts from the seed at level 10 (SINGLE) and
      appends, level by level, every free device not chosen yet. */
  method Gather(ranking: seq<nat>, scores: seq<Mask>, dist: Topology, seed: nat, n: nat, maxLevel: int)
    returns (chosen: seq<nat>)
    requires forall d :: d in ranking ==> d < |scores|
    ensures chosen == Expand(ranking, scores, dist, seed, n, maxLevel, [seed], 10)
  {
    chosen := [seed];
    var level := 10;
    while |chosen| < n && level <= maxLevel
      invariant Expand(ranking, scores, dist, seed, n, maxLevel, chosen, level)
             == Expand(ranking, scores, dist, seed, n, maxLevel, [seed], 10)
      decreases maxLevel + 10 - level
    {
      var near := NearestGpus(ranking, seed, dist, level);
      ghost var start := chosen;
      for k := 0 to |near|
        invariant chosen == AddNew(start, near[..k], scores)
      {
        assert near[..k + 1][..k] == near[..k];
        var i := near[k];
        assert i in near;
        if i !in chosen && scores[i] & BusyMarker == 0 {
          chosen := chosen + [i];
        }
      }
      assert near[..|near|] == near;
      level := level + 10;
    }
  }

  // ---------------------------------------------------------------------
  // A reference definition of what the expansion gathers: the seed, then
  // for each level 10, 20, ... the free devices at that level from the
  // seed, in ranking order.

  /** The devices the expansion appends at `level`. */
  function Ring(ranking: seq<nat>, scores: seq<Mask>, dist: Topology, seed: nat, level: int): seq<nat> {
    KeepFree(Nearest(ranking, seed, dist, level), scores)
  }

  /** The rings of levels 10, 20, ..., 10 * k, one after the other. */
  function Rings(ranking: seq<nat>, scores: seq<Mask>, dist: Topology, seed: nat, k: nat): seq<nat> {
    if k == 0 then []
    else Rings(ranking, scores, dist, seed, k - 1) + Ring(ranking, scores, dist, seed, 10 * k)
  }

  /** Everything the expansion would gather if it never stopped early. */
  function Reach(ranking: seq<nat>, scores: seq<Mask>, dist: Topology, seed: nat, maxLevel: Level): seq<nat> {
    [seed] + Rings(ranking, scores, dist, seed, maxLevel / 10)
  }

  /** Along `g`, the level from the seed never decreases, and devices at
      the same level appear in ranking order. */
  ghost predicate LevelOrdered(ranking: seq<nat>, dist: Topology, seed: nat, g: seq<nat>) {
    && (forall p, q :: 0 <= p < q < |g| ==> dist(seed, g[p]) <= dist(seed, g[q]))
    && (forall p, q :: 0 <= p < q < |g| && dist(seed, g[p]) == dist(seed, g[q]) ==> Before(ranking, g[p], g[q]))
  }

  /** A device may be gathered around `seed` up to `maxLevel`: it is ranked,
      is not the seed, lacks the busy marker, and lies at a level from 10
      to `maxLevel` from the seed. */
  ghost predicate Eligible(ranking: seq<nat>, scores: seq<Mask>, dist: Topology, seed: nat, maxLevel: int, d: nat) {
    d in ranking && d != seed && Free(scores, d) && 10 <= dist(seed, d) <= maxLevel
  }

  /** With no device chosen yet at the levels to come, the inner loop
      appends exactly the free candidates, in order. */
  lemma {:induction false} AddNewAppendsFree(chosen: seq<nat>, cands: seq<nat>, scores: seq<Mask>)
    requires Distinct(cands)
    requires forall h :: h in cands ==> h !in chosen
    ensures AddNew(chosen, cands, scores) == chosen + KeepFree(cands, scores)
  {
    if cands != [] {
      var init := cands[..|cands| - 1];
      var h := cands[|cands| - 1];
      assert Distinct(init);
      AddNewAppendsFree(chosen, init, scores);
      assert h !in init by {
        forall p | 0 <= p < |init| ensures init[p] != h {
          assert init[p] == cands[p];
        }
      }
      FilterMembers(init, d => Free(scores, d));
      assert h !in KeepFree(init, scores);
    }
  }

  /** The ring of one level: its devices are exactly the eligible ones at
      that level, without duplicates, in ranking order. */
  lemma RingFacts(ranking: seq<nat>, scores: seq<Mask>, dist: Topology, seed: nat, level: int)
    requires Distinct(ranking)
    ensures Distinct(Ring(ranking, scores, dist, seed, level))
    ensures FollowsOrder(Ring(ranking, scores, dist, seed, level), ranking)
    ensures forall d :: d in Ring(ranking, scores, dist, seed, level) <==>
              d in ranking && d != seed && Free(scores, d) && dist(seed, d) == level
  {
    var near := Nearest(ranking, seed, dist, level);
    FilterDistinct(near, d => Free(scores, d));
    FilterFollowsOrder(near, d => Free(scores, d));
    FilterMembers(near, d => Free(scores, d));
    FollowsOrderTransitive(Ring(ranking, scores, dist, seed, level), near, ranking);
  }

  /** The rings up to level 10 * k hold each eligible device once, ordered
      by level and, within a level, by ranking. */
  lemma {:induction false} RingsFacts(ranking: seq<nat>, scores: seq<Mask>, dist: Topology, seed: nat, k: nat)
    requires Distinct(ranking)
    ensures Distinct(Rings(ranking, scores, dist, seed, k))
    ensures LevelOrdered(ranking, dist, seed, Rings(ranking, scores, dist, seed, k))
    ensures forall d :: d in Rings(ranking, scores, dist, seed, k) <==> Eligible(ranking, scores, dist, seed, 10 * k, d)
  {
    if k > 0 {
      var prev := Rings(ranking, scores, dist, seed, k - 1);
      var ring := Ring(ranking, scores, dist, seed, 10 * k);
      RingsFacts(ranking, scores, dist, seed, k - 1);
      RingFacts(ranking, scores, dist, seed, 10 * k);
      assert forall d :: d in prev ==> dist(seed, d) < 10 * k;
      assert forall d :: d in ring ==> dist(seed, d) == 10 * k;
      AppendRing(ranking, dist, seed, prev, ring, 10 * k);
      AppendRingMembers(ranking, scores, dist, seed, prev, ring, k);
    }
  }

  /** The devices eligible up to level 10 * k are those eligible up to the
      level below, and those at level 10 * k. */
  lemma AppendRingMembers(ranking: seq<nat>, scores: seq<Mask>, dist: Topology, seed: nat,
                          prev: seq<nat>, ring: seq<nat>, k: nat)
    requires k > 0
    requires forall d :: d in prev <==> Eligible(ranking, scores, dist, seed, 10 * (k - 1), d)
    requires forall d :: d in ring <==> d in ranking && d != seed && Free(scores, d) && dist(seed, d) == 10 * k
    ensures forall d :: d in prev + ring <==> Eligible(ranking, scores, dist, seed, 10 * k, d)
  {
    forall d ensures d in prev + ring <==> Eligible(ranking, scores, dist, seed, 10 * k, d) {
      if Eligible(ranking, scores, dist, seed, 10 * k, d) && dist(seed, d) != 10 * k {
        assert dist(seed, d) <= 10 * (k - 1);
      }
    }
  }

  /** Appending the devices of a farther level, in ranking order, keeps a
      sequence free of duplicates and ordered by level. */
  lemma AppendRing(ranking: seq<nat>, dist: Topology, seed: nat, prev: seq<nat>, ring: seq<nat>, level: int)
    requires Distinct(prev) && LevelOrdered(ranking, dist, seed, prev)
    requires Distinct(ring) && FollowsOrder(ring, ranking)
    requires forall d :: d in prev ==> dist(seed, d) < level
    requires forall d :: d in ring ==> dist(seed, d) == level
    ensures Distinct(prev + ring) && LevelOrdered(ranking, dist, seed, prev + ring)
  {
    var all := prev + ring;
    forall p, q | 0 <= p < q < |all|
      ensures all[p] != all[q]
      ensures dist(seed, all[p]) <= dist(seed, all[q])
      ensures dist(seed, all[p]) == dist(seed, all[q]) ==> Before(ranking, all[p], all[q])
    {
      if q < |prev| {
        assert all[p] == prev[p] && all[q] == prev[q];
      } else if p < |prev| {
        assert all[p] == prev[p] && prev[p] in prev;
        assert all[q] == ring[q - |prev|] && ring[q - |prev|] in ring;
      } else {
        assert all[p] == ring[p - |prev|] && all[q] == ring[q - |prev|];
        assert ring[p - |prev|] in ring && ring[q - |prev|] in ring;
      }
    }
  }

  /** What the expansion would gather without its early stop: the seed
      first, then every eligible device exactly once, by level and then by
      ranking. */
  lemma ReachFacts(ranking: seq<nat>, scores: seq<Mask>, dist: Topology, seed: nat, maxLevel: Level)
    requires Distinct(ranking)
    ensures var g := Reach(ranking, scores, dist, seed, maxLevel);
      && g[0] == seed
      && Distinct(g)
      && (forall d :: d in g[1..] <==> Eligible(ranking, scores, dist, seed, maxLevel, d))
      && LevelOrdered(ranking, dist, seed, g[1..])
  {
    var rings := Rings(ranking, scores, dist, seed, maxLevel / 10);
    RingsFacts(ranking, scores, dist, seed, maxLevel / 10);
    var g := Reach(ranking, scores, dist, seed, maxLevel);
    assert g[1..] == rings;
    assert 10 * (maxLevel / 10) == maxLevel;
    forall p, q | 0 <= p < q < |g| ensures g[p] != g[q] {
      if p == 0 {
        assert g[q] == rings[q - 1] && rings[q - 1] in rings;
      } else {
        assert g[p] == rings[p - 1] && g[q] == rings[q - 1];
      }
    }
  }

  /** Later rings only extend earlier ones. */
  lemma {:induction false} RingsGrow(ranking: seq<nat>, scores: seq<Mask>, dist: Topology, seed: nat, k: nat, k': nat)
    requires k <= k'
    ensures Rings(ranking, scores, dist, seed, k) <= Rings(ranking, scores, dist, seed, k')
  {
    if k < k' {
      RingsGrow(ranking, scores, dist, seed, k, k' - 1);
    }
  }

  /** `g` holds at least `n` devices exactly when `full` does, and then
      both start with the same `n` devices. */
  ghost predicate SamePrefix(g: seq<nat>, full: seq<nat>, n: nat) {
    && (|g| >= n <==> |full| >= n)
    && (|g| >= n ==> g[..n] == full[..n])
  }

  /** The expansion, resumed after the rings up to level 10 * k, gathers at
      least `n` devices exactly when the full reach has at least `n`, and
      then its first `n` devices are the reach's first `n`. */
  lemma {:induction false} ExpandAfterRings(ranking: seq<nat>, scores: seq<Mask>, dist: Topology, seed: nat,
                                            n: nat, maxLevel: Level, k: nat)
    requires Distinct(ranking)
    requires 10 * k <= maxLevel
    ensures SamePrefix(Expand(ranking, scores, dist, seed, n, maxLevel,
                              [seed] + Rings(ranking, scores, dist, seed, k), 10 * k + 10),
                       Reach(ranking, scores, dist, seed, maxLevel), n)
    decreases maxLevel - 10 * k
  {
    var c := [seed] + Rings(ranking, scores, dist, seed, k);
    var level := 10 * k + 10;
    if |c| < n && level <= maxLevel {
      ExpandStep(ranking, scores, dist, seed, n, maxLevel, k);
      ExpandAfterRings(ranking, scores, dist, seed, n, maxLevel, k + 1);
    } else if |c| >= n {
      EarlyStopIsPrefix(ranking, scores, dist, seed, n, maxLevel, k);
    } else {
      CeilingStop(ranking, scores, dist, seed, n, maxLevel, k);
    }
  }

  /** At the ceiling the expansion stops, and what it holds is the reach. */
  lemma CeilingStop(ranking: seq<nat>, scores: seq<Mask>, dist: Topology, seed: nat,
                    n: nat, maxLevel: Level, k: nat)
    requires 10 * k <= maxLevel < 10 * k + 10
    ensures Expand(ranking, scores, dist, seed, n, maxLevel, [seed] + Rings(ranking, scores, dist, seed, k), 10 * k + 10)
         == [seed] + Rings(ranking, scores, dist, seed, k)
    ensures Reach(ranking, scores, dist, seed, maxLevel) == [seed] + Rings(ranking, scores, dist, seed, k)
  {
    assert maxLevel / 10 == k;
  }

  /** While short of `n` and below the ceiling, one round of the expansion
      after the rings up to level 10 * k adds the next ring. */
  lemma ExpandStep(ranking: seq<nat>, scores: seq<Mask>, dist: Topology, seed: nat,
                   n: nat, maxLevel: Level, k: nat)
    requires Distinct(ranking)
    requires |[seed] + Rings(ranking, scores, dist, seed, k)| < n && 10 * k + 10 <= maxLevel
    ensures Expand(ranking, scores, dist, seed, n, maxLevel, [seed] + Rings(ranking, scores, dist, seed, k), 10 * k + 10)
         == Expand(ranking, scores, dist, seed, n, maxLevel, [seed] + Rings(ranking, scores, dist, seed, k + 1), 10 * (k + 1) + 10)
  {
    RingStep(ranking, scores, dist, seed, k);
  }

  /** Stopping early, with at least `n` devices after the rings up to
      level 10 * k, keeps the reach's first `n` devices. */
  lemma EarlyStopIsPrefix(ranking: seq<nat>, scores: seq<Mask>, dist: Topology, seed: nat,
                          n: nat, maxLevel: Level, k: nat)
    requires 10 * k <= maxLevel
    requires |[seed] + Rings(ranking, scores, dist, seed, k)| >= n
    ensures SamePrefix([seed] + Rings(ranking, scores, dist, seed, k), Reach(ranking, scores, dist, seed, maxLevel), n)
  {
    var c := [seed] + Rings(ranking, scores, dist, seed, k);
    RingsGrow(ranking, scores, dist, seed, k, maxLevel / 10);
    assert c <= Reach(ranking, scores, dist, seed, maxLevel);
  }

  /** One pass of the expansion at level 10 * (k + 1) appends that level's ring. */
  lemma RingStep(ranking: seq<nat>, scores: seq<Mask>, dist: Topology, seed: nat, k: nat)
    requires Distinct(ranking)
    ensures AddNew([seed] + Rings(ranking, scores, dist, seed, k), Nearest(ranking, seed, dist, 10 * (k + 1)), scores)
         == [seed] + Rings(ranking, scores, dist, seed, k + 1)
  {
    var rings := Rings(ranking, scores, dist, seed, k);
    var c := [seed] + rings;
    var level := 10 * (k + 1);
    var near := Nearest(ranking, seed, dist, level);
    RingsFacts(ranking, scores, dist, seed, k);
    forall h | h in near ensures h !in c {
      assert h != seed && dist(seed, h) == level;
      assert !Eligible(ranking, scores, dist, seed, 10 * k, h);
    }
    AddNewAppendsFree(c, near, scores);
    assert Rings(ranking, scores, dist, seed, k + 1) == rings + KeepFree(near, scores);
  }

  /** The expansion from the seed at level 10 agrees with the reference
      definition: it reaches `n` devices exactly when the reach has `n`,
      and then starts with the reach's first `n` devices. */
  lemma GatherMatchesReach(ranking: seq<nat>, scores: seq<Mask>, dist: Topology, seed: nat, n: nat, maxLevel: Level)
    requires Distinct(ranking)
    ensures SamePrefix(Expand(ranking, scores, dist, seed, n, maxLevel, [seed], 10),
                       Reach(ranking, scores, dist, seed, maxLevel), n)
  {
    assert [seed] + Rings(ranking, scores, dist, seed, 0) == [seed];
    ExpandAfterRings(ranking, scores, dist, seed, n, maxLevel, 0);
  }
}
