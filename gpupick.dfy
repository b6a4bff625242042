/** The device-picking path of main (cuda_gpupick/cuda_gpupick.py, lines
    32-164): the inventory check, the scoring, the idle count, the ranking
    and the seed, the expansion around the seed, the NUMA check and the
    launch line. The telemetry enters as parameters: the number of compute
    processes of each device, the topology level of each pair of devices
    and the NUMA node of each device. */
module GpuPick {
  import opened Sequences
  import opened Scoring
  import opened Ranking
  import opened Selector
  import opened Numa
  import opened Launch

  /** Why main exits with status -1, in the order it checks. */
  datatype Failure =
    | TooManyRequested(requested: nat, visible: nat)   // more devices asked for than exist
    | NotEnoughIdle(requested: nat, available: int)    // fewer idle devices than asked for
    | NoAvailableDevices                               // the first ranked index equals 64
    | SeedUnavailable(requested: nat)                  // the seed's score is exactly 64
    | CeilingReached(requested: nat)                   // the expansion stopped short
    | SpansNumaNodes(nodes: seq<int>)                  // the chosen devices span several nodes

  datatype Result<T> = Ok(value: T) | Err(failure: Failure)

  /** What main hands to the shell: the chosen devices and the launch line. */
  datatype Plan = Plan(chosen: seq<nat>, commandLine: string)

  /** The NUMA node of each chosen device, in the chosen order. */
  function NodesOf(chosen: seq<nat>, numaOf: nat -> int): (nodes: seq<int>)
    ensures |nodes| == |chosen|
    ensures forall p :: 0 <= p < |chosen| ==> nodes[p] == numaOf(chosen[p])
  {
    seq(|chosen|, p requires 0 <= p < |chosen| => numaOf(chosen[p]))
  }

  /** The devices picked for `n` >= 1 requested devices, given the ranking
      the argsort returned, or the first check that fails. */
  function Select(procCount: seq<nat>, dist: Topology, n: nat, force: bool, ranking: seq<nat>)
    : (r: Result<seq<nat>>)
    requires n >= 1 && IsRanking(Scores(procCount, dist), ranking)
    ensures r == Err(TooManyRequested(n, |procCount|)) <==> n > |procCount|
    ensures n <= |procCount| ==>
              (r == Err(NotEnoughIdle(n, |procCount| - BusyCount(procCount))) <==> |procCount| - BusyCount(procCount) < n)
    ensures r == Err(NoAvailableDevices) ==> |procCount| > 64
    ensures r == Err(SeedUnavailable(n)) ==>
              n <= |procCount| && Scores(procCount, dist)[ranking[0]] == BusyMarker
    ensures n <= |procCount| && |procCount| - BusyCount(procCount) >= n ==>
              (r == Err(NoAvailableDevices) <==> ranking[0] == 64)
    ensures n <= |procCount| && |procCount| - BusyCount(procCount) >= n ==>
              (r == Err(SeedUnavailable(n)) <==>
                 ranking[0] != 64 && Scores(procCount, dist)[ranking[0]] == BusyMarker)
    ensures r.Ok? ==> |r.value| == n
  {
    if n > |procCount| then Err(TooManyRequested(n, |procCount|))
    else
      var scores := Scores(procCount, dist);
      var available := |procCount| - BusyCount(procCount);
      if available < n then Err(NotEnoughIdle(n, available))
      else if ranking[0] == 64 then Err(NoAvailableDevices)
      else
        var seed := ranking[0];
        if scores[seed] == BusyMarker then Err(SeedUnavailable(n))
        else
          var gathered := Expand(ranking, scores, dist, seed, n, MaxLevel(force), [seed], 10);
          if |gathered| < n then Err(CeilingReached(n)) else Ok(gathered[..n])
  }

  /** Everything main decides for `n` requested devices: the plan it runs,
      or the failure it reports. */
  function Pick(procCount: seq<nat>, dist: Topology, numaOf: nat -> int, n: nat, force: bool,
                command: seq<string>, ranking: seq<nat>): (r: Result<Plan>)
    requires IsRanking(Scores(procCount, dist), ranking)
    ensures n == 0 ==> r == Ok(Plan([], "CUDA_VISIBLE_DEVICES=  " + Join(command, " ")))
    ensures n >= 1 && r.Ok? ==> Select(procCount, dist, n, force, ranking) == Ok(r.value.chosen)
  {
    if n == 0 then
      NoDeviceCommandLine(command);
      Ok(Plan([], CommandLine([], "", command)))
    else
      match Select(procCount, dist, n, force, ranking)
      case Err(f) => Err(f)
      case Ok(chosen) =>
        match NumaCheck(NodesOf(chosen, numaOf), force)
        case Spanning(nodes) => Err(SpansNumaNodes(nodes))
        case Bind(node) => Ok(Plan(chosen, CommandLine(chosen, NumactlDirective(node), command)))
  }

  /** The picking part of main for `n` >= 1 (lines 42-128 of the source):
      the inventory check, the scoring loop, the idle check, the ranking,
      the seed checks and the expansion. */
  method SelectDevices(procCount: seq<nat>, dist: Topology, n: nat, force: bool)
    returns (selection: Result<seq<nat>>)
    requires n >= 1
    ensures selection == Select(procCount, dist, n, force, Argsort(Scores(procCount, dist)))
  {
    var deviceCount := |procCount|;
    if n > deviceCount {
      return Err(TooManyRequested(n, deviceCount));
    }
    var scores, available := ComputeScores(procCount, dist);
    if available < n {
      return Err(NotEnoughIdle(n, available));
    }
    var ranking := Argsort(scores);
    if ranking[0] == 64 {
      return Err(NoAvailableDevices);
    }
    var seed := ranking[0];
    if scores[seed] == BusyMarker {
      return Err(SeedUnavailable(n));
    }
    var gathered := Gather(ranking, scores, dist, seed, n, MaxLevel(force));
    if |gathered| < n {
      return Err(CeilingReached(n));
    }
    selection := Ok(gathered[..n]);
  }

  /** The loop that reads the NUMA node of each chosen device, in order. */
  method ReadNodes(chosen: seq<nat>, numaOf: nat -> int) returns (nodes: seq<int>)
    ensures nodes == NodesOf(chosen, numaOf)
  {
    nodes := [];
    for k := 0 to |chosen|
      invariant |nodes| == k
      invariant forall p :: 0 <= p < k ==> nodes[p] == numaOf(chosen[p])
    {
      nodes := nodes + [numaOf(chosen[k])];
    }
  }

  /** main, with the telemetry as parameters and the shell left out: the
      picking, the NUMA node of each chosen device read one by one, the
      NUMA check and the launch line. */
  method PickDevices(procCount: seq<nat>, dist: Topology, numaOf: nat -> int, n: nat, force: bool,
                     command: seq<string>) returns (result: Result<Plan>)
    ensures result == Pick(procCount, dist, numaOf, n, force, command, Argsort(Scores(procCount, dist)))
  {
    var chosen: seq<nat> := [];
    var numactl := "";
    if n > 0 {
      var selection := SelectDevices(procCount, dist, n, force);
      if selection.Err? {
        return Err(selection.failure);
      }
      chosen := selection.value;
      var nodes := ReadNodes(chosen, numaOf);
      var unique := Unique(nodes);
      UniqueShape(nodes);
      if |unique| > 1 && !force {
        return Err(SpansNumaNodes(unique));
      }
      numactl := NumactlDirective(unique[0]);
    }
    result := Ok(Plan(chosen, CommandLine(chosen, numactl, command)));
  }

  // ---------------------------------------------------------------------
  // What the picked devices are.

  /** Once the checks up to the seed pass, the outcome depends on the
      reference reach alone: its first `n` devices, or the ceiling failure
      when it holds fewer. */
  lemma SelectionFromReach(procCount: seq<nat>, dist: Topology, n: nat, force: bool, ranking: seq<nat>)
    requires n >= 1 && IsRanking(Scores(procCount, dist), ranking)
    requires n <= |procCount| && |procCount| - BusyCount(procCount) >= n
    requires ranking[0] != 64 && Scores(procCount, dist)[ranking[0]] != BusyMarker
    ensures var reach := Reach(ranking, Scores(procCount, dist), dist, ranking[0], MaxLevel(force));
      Select(procCount, dist, n, force, ranking)
        == if |reach| < n then Err(CeilingReached(n)) else Ok(reach[..n])
  {
    GatherMatchesReach(ranking, Scores(procCount, dist), dist, ranking[0], n, MaxLevel(force));
  }

  /** The picked devices: the seed, then distinct devices lacking the busy
      marker at levels 10 up to the ceiling from the seed, by level and
      within a level by ranking; and no device left out is nearer to the
      seed than one picked. */
  lemma ChosenDevices(procCount: seq<nat>, dist: Topology, n: nat, force: bool, ranking: seq<nat>)
    requires n >= 1 && IsRanking(Scores(procCount, dist), ranking)
    requires Select(procCount, dist, n, force, ranking).Ok?
    ensures var chosen := Select(procCount, dist, n, force, ranking).value;
      var scores := Scores(procCount, dist);
      var seed := ranking[0];
      && n <= |Reach(ranking, scores, dist, seed, MaxLevel(force))|
      && chosen == Reach(ranking, scores, dist, seed, MaxLevel(force))[..n]
      && NearestFirst(ranking, scores, dist, seed, MaxLevel(force), chosen)
  {
    var scores := Scores(procCount, dist);
    var seed := ranking[0];
    var reach := Reach(ranking, scores, dist, seed, MaxLevel(force));
    GatherMatchesReach(ranking, scores, dist, seed, n, MaxLevel(force));
    ReachPrefixNearestFirst(ranking, scores, dist, seed, MaxLevel(force), n);
  }

  /** `chosen` starts with the seed and then holds distinct devices that
      may be gathered, by level and within a level by ranking, with no
      device left out nearer to the seed than one of them. */
  ghost predicate NearestFirst(ranking: seq<nat>, scores: seq<Mask>, dist: Topology, seed: nat,
                               maxLevel: Level, chosen: seq<nat>)
  {
    && |chosen| >= 1
    && chosen[0] == seed
    && Distinct(chosen)
    && (forall p :: 1 <= p < |chosen| ==> Eligible(ranking, scores, dist, seed, maxLevel, chosen[p]))
    && LevelOrdered(ranking, dist, seed, chosen[1..])
    && (forall d :: Eligible(ranking, scores, dist, seed, maxLevel, d) && d !in chosen ==>
          forall p :: 1 <= p < |chosen| ==> dist(seed, chosen[p]) <= dist(seed, d))
  }

  /** Every non-empty prefix of the reach picks nearest first. */
  lemma ReachPrefixNearestFirst(ranking: seq<nat>, scores: seq<Mask>, dist: Topology, seed: nat,
                                maxLevel: Level, n: nat)
    requires Distinct(ranking)
    requires 1 <= n <= |Reach(ranking, scores, dist, seed, maxLevel)|
    ensures NearestFirst(ranking, scores, dist, seed, maxLevel, Reach(ranking, scores, dist, seed, maxLevel)[..n])
  {
    var reach := Reach(ranking, scores, dist, seed, maxLevel);
    ReachFacts(ranking, scores, dist, seed, maxLevel);
    PrefixKeepsOrder(ranking, scores, dist, seed, maxLevel, reach, n);
    PrefixLeavesFarther(ranking, scores, dist, seed, maxLevel, reach, n);
  }

  /** A prefix of a sequence shaped like the reach keeps its shape. */
  lemma PrefixKeepsOrder(ranking: seq<nat>, scores: seq<Mask>, dist: Topology, seed: nat,
                         maxLevel: Level, g: seq<nat>, n: nat)
    requires 1 <= n <= |g| && g[0] == seed && Distinct(g)
    requires forall d :: d in g[1..] ==> Eligible(ranking, scores, dist, seed, maxLevel, d)
    requires LevelOrdered(ranking, dist, seed, g[1..])
    ensures Distinct(g[..n])
    ensures forall p :: 1 <= p < n ==> Eligible(ranking, scores, dist, seed, maxLevel, g[..n][p])
    ensures LevelOrdered(ranking, dist, seed, g[..n][1..])
  {
    var tail := g[1..];
    forall p | 1 <= p < n ensures Eligible(ranking, scores, dist, seed, maxLevel, g[..n][p]) {
      assert g[..n][p] == tail[p - 1] && tail[p - 1] in tail;
    }
    assert forall p :: 0 <= p < n - 1 ==> g[..n][1..][p] == tail[p];
  }

  /** No eligible device outside a prefix of a sequence shaped like the
      reach is nearer to the seed than a device inside it. */
  lemma PrefixLeavesFarther(ranking: seq<nat>, scores: seq<Mask>, dist: Topology, seed: nat,
                            maxLevel: Level, g: seq<nat>, n: nat)
    requires 1 <= n <= |g|
    requires forall d :: Eligible(ranking, scores, dist, seed, maxLevel, d) ==> d in g[1..]
    requires LevelOrdered(ranking, dist, seed, g[1..])
    ensures forall d :: Eligible(ranking, scores, dist, seed, maxLevel, d) && d !in g[..n] ==>
              forall p :: 1 <= p < n ==> dist(seed, g[..n][p]) <= dist(seed, d)
  {
    var tail := g[1..];
    forall d | Eligible(ranking, scores, dist, seed, maxLevel, d) && d !in g[..n]
      ensures forall p :: 1 <= p < n ==> dist(seed, g[..n][p]) <= dist(seed, d)
    {
      var q :| 0 <= q < |tail| && tail[q] == d;
      assert forall k :: 0 <= k < n ==> g[k] == g[..n][k] && g[..n][k] in g[..n];
      assert g[q + 1] == d;
      assert q + 1 >= n;
      assert forall p :: 1 <= p < n ==> g[..n][p] == tail[p - 1];
    }
  }

  // ---------------------------------------------------------------------
  // The seed, and the busy marker.

  /** No two distinct devices share a board (no INTERNAL level). */
  ghost predicate NoInternalPairs(procCount: seq<nat>, dist: Topology) {
    forall i, j :: 0 <= i < |procCount| && 0 <= j < |procCount| && i != j ==> dist(i, j) != INTERNAL
  }

  /** When no two devices are at INTERNAL level and enough devices are
      idle, the seed is idle and its score is below 64: the check that the
      seed's score equals 64 can never fire. */
  lemma SeedIdle(procCount: seq<nat>, dist: Topology, n: nat, ranking: seq<nat>)
    requires NoInternalPairs(procCount, dist)
    requires IsRanking(Scores(procCount, dist), ranking)
    requires 1 <= n <= |procCount| && |procCount| - BusyCount(procCount) >= n
    ensures procCount[ranking[0]] == 0 && Scores(procCount, dist)[ranking[0]] < BusyMarker
  {
    var scores := Scores(procCount, dist);
    var seed := ranking[0];
    BusyCountBelowIffIdle(procCount);
    var d :| 0 <= d < |procCount| && procCount[d] == 0;
    MarkerIffBusy(procCount, dist, d);
    ScoreBelow128(procCount, dist, d);
    assert d in ranking;
    var q :| 0 <= q < |ranking| && ranking[q] == d;
    assert scores[seed] <= scores[d];
    ScoreBelow128(procCount, dist, seed);
    MarkerIffBusy(procCount, dist, seed);
  }

  /** Without INTERNAL pairs every picked device is idle, and the seed check
      never fails. */
  lemma NoBusyDeviceChosen(procCount: seq<nat>, dist: Topology, n: nat, force: bool, ranking: seq<nat>)
    requires NoInternalPairs(procCount, dist)
    requires n >= 1 && IsRanking(Scores(procCount, dist), ranking)
    ensures Select(procCount, dist, n, force, ranking) != Err(SeedUnavailable(n))
    ensures Select(procCount, dist, n, force, ranking).Ok? ==>
              forall p :: 0 <= p < n ==>
                var d := Select(procCount, dist, n, force, ranking).value[p];
                d < |procCount| && procCount[d] == 0
  {
    var r := Select(procCount, dist, n, force, ranking);
    if n <= |procCount| && |procCount| - BusyCount(procCount) >= n {
      SeedIdle(procCount, dist, n, ranking);
    }
    if r.Ok? {
      ChosenDevices(procCount, dist, n, force, ranking);
      forall p | 0 <= p < n ensures r.value[p] < |procCount| && procCount[r.value[p]] == 0 {
        if p > 0 {
          MarkerIffBusy(procCount, dist, r.value[p]);
        }
      }
    }
  }

  /** Device 0 and device 2 share a board; device 1 is two levels from
      device 0 and one level from device 2. */
  function PairedBoard(i: nat, j: nat): Level {
    if i == j then INTERNAL
    else if (i == 0 && j == 2) || (i == 2 && j == 0) then INTERNAL
    else if (i == 0 && j == 1) || (i == 1 && j == 0) then 20
    else SINGLE
  }

  /** With an INTERNAL pair the seed can be busy as written: devices 0 and
      1 busy, device 2 idle but carrying the marker from its board mate
      0. The scores are 80, 80 and 96, the seed is device 0 with score 80,
      not 64, and it is picked for one requested device. */
  lemma BusySeedChosenAsWritten()
    ensures Select([1, 1, 0], PairedBoard, 1, false, Argsort(Scores([1, 1, 0], PairedBoard))) == Ok([0])
  {
    var procCount: seq<nat> := [1, 1, 0];
    PairedBoardScores();
    var scores := Scores(procCount, PairedBoard);
    PairedBoardRanking(scores);
    var ranking := Argsort(scores);
    assert BusyCount(procCount) == 2 by {
      assert procCount[..2] == [1, 1] && procCount[..2][..1] == [1] && procCount[..2][..1][..0] == [];
    }
    SelectionFromReach(procCount, PairedBoard, 1, false, ranking);
    var reach := Reach(ranking, scores, PairedBoard, 0, MaxLevel(false));
    assert reach[..1] == [0];
  }

  /** The scores of the example: 80, 80 and 96. */
  lemma PairedBoardScores()
    ensures Scores([1, 1, 0], PairedBoard) == [80, 80, 96]
  {
    var procCount: seq<nat> := [1, 1, 0];
    assert Bit(4) == 16 && Bit(5) == 32 && Bit(6) == 64;
    assert ScoreUpTo(procCount, PairedBoard, 1, 0) == 64;
    assert ScoreUpTo(procCount, PairedBoard, 2, 0) == 80;
    assert ScoreUpTo(procCount, PairedBoard, 3, 0) == 80;
    assert ScoreUpTo(procCount, PairedBoard, 1, 1) == 16;
    assert ScoreUpTo(procCount, PairedBoard, 2, 1) == 80;
    assert ScoreUpTo(procCount, PairedBoard, 3, 1) == 80;
    assert ScoreUpTo(procCount, PairedBoard, 1, 2) == 64;
    assert ScoreUpTo(procCount, PairedBoard, 2, 2) == 96;
    assert ScoreUpTo(procCount, PairedBoard, 3, 2) == 96;
  }

  /** The ranking of the example is the identity. */
  lemma PairedBoardRanking(scores: seq<Mask>)
    requires |scores| == 3 && scores[0] == 80 && scores[1] == 80 && scores[2] == 96
    ensures Argsort(scores) == [0, 1, 2]
  {
    var expected: seq<nat> := [0, 1, 2];
    assert IsPermutationOfIndices(expected, 3) by {
      assert forall d: nat :: d < 3 ==> d == expected[d];
    }
    StableRankingUnique(scores, Argsort(scores), expected);
  }

  /** When every device is busy the idle count fails first (or the
      inventory check, when too many devices are requested). */
  lemma AllBusyFails(procCount: seq<nat>, dist: Topology, n: nat, force: bool, ranking: seq<nat>)
    requires n >= 1 && IsRanking(Scores(procCount, dist), ranking)
    requires forall i :: 0 <= i < |procCount| ==> procCount[i] > 0
    ensures Select(procCount, dist, n, force, ranking)
         == if n > |procCount| then Err(TooManyRequested(n, |procCount|)) else Err(NotEnoughIdle(n, 0))
  {
    BusyCountBelowIffIdle(procCount);
  }

  // ---------------------------------------------------------------------
  // The NUMA check and the launch line.

  /** A failure of the selection is main's failure; a selection that
      succeeds fails only on the NUMA check, exactly when the picked
      devices do not all share the first one's node and -f is not given. */
  lemma PickOutcome(procCount: seq<nat>, dist: Topology, numaOf: nat -> int, n: nat, force: bool,
                    command: seq<string>, ranking: seq<nat>)
    requires n >= 1 && IsRanking(Scores(procCount, dist), ranking)
    ensures var s := Select(procCount, dist, n, force, ranking);
      var r := Pick(procCount, dist, numaOf, n, force, command, ranking);
      && (s.Err? ==> r == Err(s.failure))
      && (s.Ok? ==> (r.Err? <==> !force && exists p :: 0 <= p < n && numaOf(s.value[p]) != numaOf(s.value[0])))
      && (s.Ok? && r.Err? ==> r.failure == SpansNumaNodes(Unique(NodesOf(s.value, numaOf))))
  {
    var s := Select(procCount, dist, n, force, ranking);
    if s.Ok? {
      var nodes := NodesOf(s.value, numaOf);
      assert (exists p :: 0 <= p < n && numaOf(s.value[p]) != numaOf(s.value[0]))
         <==> (exists p :: 0 <= p < |nodes| && nodes[p] != nodes[0]);
    }
  }

  /** A successful plan binds to the smallest NUMA node among the picked
      devices, which without -f all share, and its launch line splits into
      the device list, the numactl words and the command's own fields. */
  lemma LaunchLine(procCount: seq<nat>, dist: Topology, numaOf: nat -> int, n: nat, force: bool,
                   command: seq<string>, ranking: seq<nat>)
    requires n >= 1 && IsRanking(Scores(procCount, dist), ranking)
    requires Pick(procCount, dist, numaOf, n, force, command, ranking).Ok?
    ensures var plan := Pick(procCount, dist, numaOf, n, force, command, ranking).value;
      var nodes := NodesOf(plan.chosen, numaOf);
      && |nodes| == n
      && (!force ==> forall p :: 0 <= p < n ==> nodes[p] == nodes[0])
      && Split(plan.commandLine, ' ')
         == ["CUDA_VISIBLE_DEVICES=" + VisibleDevices(plan.chosen), "numactl", "-N",
             IntToString(LeastOf(nodes)), "--preferred", IntToString(LeastOf(nodes))]
            + Split(Join(command, " "), ' ')
  {
    var plan := Pick(procCount, dist, numaOf, n, force, command, ranking).value;
    var nodes := NodesOf(plan.chosen, numaOf);
    CommandLineFields(plan.chosen, LeastOf(nodes), command);
  }
}
