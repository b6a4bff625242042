/** The availability scorer: one 7-bit mask per device, built by OR-ing bits
    into a list in place, and the count of devices with no compute process.
    See cuda_gpupick/cuda_gpupick.py, lines 49-78. */
module Scoring {

  /** An interconnect level as NVML's nvmlGpuTopologyLevel_t reports it:
      0 INTERNAL, 10 SINGLE, 20 MULTIPLE, 30 HOSTBRIDGE, 40 NODE, 50 SYSTEM.
      Smaller is closer. */
  type Level = l: nat | l <= 50 && l % 10 == 0

  const INTERNAL: Level := 0
  const SINGLE: Level := 10
  const HOSTBRIDGE: Level := 30
  const SYSTEM: Level := 50

  /** The common-ancestor level of two devices, as the telemetry reports it. */
  type Topology = (nat, nat) -> Level

  /** An availability score. The source's Python integers never use more
      than bits 0 to 6, so eight bits hold them exactly. */
  type Mask = bv8

  /** Bit 6, set in the score of a device that runs a compute process. */
  const BusyMarker: Mask := 64

  function Bit(b: nat): (r: Mask)
    requires b < 8
  {
    1 << b
  }

  /** The bit that busy device `i` sets in device `j`'s score: bit 6 in its
      own, bit 6 - level/10 in every other one (no clamp: an INTERNAL
      neighbour also gets bit 6). */
  function HitBit(dist: Topology, i: nat, j: nat): (b: nat)
    ensures 1 <= b <= 6
    ensures i != j ==> b == 6 - dist(i, j) / 10
    ensures b == 6 <==> i == j || dist(i, j) == INTERNAL
  {
    if i == j then 6 else 6 - dist(i, j) / 10
  }

  /** What device `i` ORs into device `j`'s score. */
  function Contribution(procCount: seq<nat>, dist: Topology, i: nat, j: nat): Mask
    requires i < |procCount|
  {
    if procCount[i] > 0 then Bit(HitBit(dist, i, j)) else 0
  }

  /** Device `j`'s score once devices 0 .. m-1 have been scanned. */
  function ScoreUpTo(procCount: seq<nat>, dist: Topology, m: nat, j: nat): (r: Mask)
    requires m <= |procCount|
    ensures r < 128
  {
    if m == 0 then 0
    else ScoreUpTo(procCount, dist, m - 1, j) | Contribution(procCount, dist, m - 1, j)
  }

  /** Device `j`'s final score. */
  function Score(procCount: seq<nat>, dist: Topology, j: nat): (r: Mask)
    ensures r < 128
    ensures r & BusyMarker != 0 <==>
              exists i :: 0 <= i < |procCount| && procCount[i] > 0 && (i == j || dist(i, j) == INTERNAL)
  {
    MarkerBit(procCount, dist, j);
    ScoreUpTo(procCount, dist, |procCount|, j)
  }

  /** The score list of all devices, indexed by device. */
  function Scores(procCount: seq<nat>, dist: Topology): (s: seq<Mask>)
    ensures |s| == |procCount|
    ensures forall j :: 0 <= j < |s| ==> s[j] < 128
  {
    seq(|procCount|, j requires 0 <= j < |procCount| => Score(procCount, dist, j))
  }

  /** The number of devices that run at least one compute process. */
  function BusyCount(procCount: seq<nat>): (c: nat)
    ensures c <= |procCount|
    ensures c == 0 <==> forall i :: 0 <= i < |procCount| ==> procCount[i] == 0
  {
    if procCount == [] then 0
    else BusyCount(procCount[..|procCount| - 1]) + (if procCount[|procCount| - 1] > 0 then 1 else 0)
  }

  /** Some device busy in `procCount`, for the device `j`, sets bit `b`. */
  ghost predicate SetsBit(procCount: seq<nat>, dist: Topology, m: nat, j: nat, b: nat)
    requires m <= |procCount|
  {
    exists i :: 0 <= i < m && procCount[i] > 0 && HitBit(dist, i, j) == b
  }

  /** The scoring loop of the source: scores start at 0 and, for every busy
      device i, bit 6 is ORed into i's own score and bit 6 - level/10 into
      every other device's; `available` starts at the device count and
      loses one per busy device. */
  method ComputeScores(procCount: seq<nat>, dist: Topology) returns (scores: seq<Mask>, available: int)
    ensures scores == Scores(procCount, dist)
    ensures available == |procCount| - BusyCount(procCount)
  {
    var deviceCount := |procCount|;
    var deviceAvailable := new Mask[deviceCount](_ => 0);
    available := deviceCount;
    for i := 0 to deviceCount
      invariant forall j :: 0 <= j < deviceCount ==> deviceAvailable[j] == ScoreUpTo(procCount, dist, i, j)
      invariant available == deviceCount - BusyCount(procCount[..i])
    {
      assert procCount[..i + 1][..i] == procCount[..i];
      if procCount[i] > 0 {
        available := available - 1;
        for j := 0 to deviceCount
          invariant forall k :: 0 <= k < j ==> deviceAvailable[k] == ScoreUpTo(procCount, dist, i + 1, k)
          invariant forall k :: j <= k < deviceCount ==> deviceAvailable[k] == ScoreUpTo(procCount, dist, i, k)
        {
          BusyScanStep(procCount, dist, i, j);
          ghost var before := deviceAvailable[..];
          if i == j {
            deviceAvailable[j] := deviceAvailable[j] | BusyMarker;
          } else {
            deviceAvailable[j] := deviceAvailable[j] | Bit(6 - dist(i, j) / 10);
          }
          assert deviceAvailable[..] == before[j := ScoreUpTo(procCount, dist, i + 1, j)];
        }
      } else {
        assert forall j :: 0 <= j < deviceCount ==> ScoreUpTo(procCount, dist, i + 1, j) == ScoreUpTo(procCount, dist, i, j);
      }
    }
    assert procCount[..deviceCount] == procCount;
    scores := deviceAvailable[..];
  }

  /** What scanning busy device `i` ORs into device `j`'s score. */
  lemma BusyScanStep(procCount: seq<nat>, dist: Topology, i: nat, j: nat)
    requires i < |procCount| && procCount[i] > 0
    ensures ScoreUpTo(procCount, dist, i + 1, j)
         == ScoreUpTo(procCount, dist, i, j) | (if i == j then BusyMarker else Bit(6 - dist(i, j) / 10))
  {
  }

  /** Bit `b` of a score is set exactly when some busy device sets it:
      the busy device itself for bit 6, any other busy device for bit
      6 - level/10. */
  lemma {:induction false} ScoreUpToBits(procCount: seq<nat>, dist: Topology, m: nat, j: nat, b: nat)
    requires m <= |procCount| && b < 8
    ensures ScoreUpTo(procCount, dist, m, j) & Bit(b) != 0 <==> SetsBit(procCount, dist, m, j, b)
  {
    if m > 0 {
      ScoreUpToBits(procCount, dist, m - 1, j, b);
      OrHasBit(ScoreUpTo(procCount, dist, m - 1, j), Contribution(procCount, dist, m - 1, j), b);
      ContributionHasBit(procCount, dist, m - 1, j, b);
      SetsBitStep(procCount, dist, m, j, b);
    }
  }

  /** A bit is set in an OR exactly when it is set in either side. */
  lemma OrHasBit(x: Mask, y: Mask, b: nat)
    requires b < 8
    ensures (x | y) & Bit(b) != 0 <==> x & Bit(b) != 0 || y & Bit(b) != 0
  {
  }

  /** Device `i` contributes bit `b` to device `j` exactly when it is busy
      and `b` is its hit bit there. */
  lemma ContributionHasBit(procCount: seq<nat>, dist: Topology, i: nat, j: nat, b: nat)
    requires i < |procCount| && b < 8
    ensures Contribution(procCount, dist, i, j) & Bit(b) != 0 <==> procCount[i] > 0 && HitBit(dist, i, j) == b
  {
    var h := HitBit(dist, i, j);
    DistinctBits(h, b);
  }

  /** Two single-bit masks overlap exactly when they are the same bit. */
  lemma DistinctBits(h: nat, b: nat)
    requires h < 8 && b < 8
    ensures Bit(h) & Bit(b) != 0 <==> h == b
  {
  }

  /** Scanning one more device adds its hit bit to what is already set. */
  lemma SetsBitStep(procCount: seq<nat>, dist: Topology, m: nat, j: nat, b: nat)
    requires 0 < m <= |procCount|
    ensures SetsBit(procCount, dist, m, j, b) <==>
            SetsBit(procCount, dist, m - 1, j, b) || (procCount[m - 1] > 0 && HitBit(dist, m - 1, j) == b)
  {
    if SetsBit(procCount, dist, m, j, b) && !(procCount[m - 1] > 0 && HitBit(dist, m - 1, j) == b) {
      var i :| 0 <= i < m && procCount[i] > 0 && HitBit(dist, i, j) == b;
      assert i < m - 1;
    }
  }

  /** A device with a compute process carries bit 6 in its own score. */
  lemma BusyDeviceMarked(procCount: seq<nat>, dist: Topology, j: nat)
    requires j < |procCount| && procCount[j] > 0
    ensures Score(procCount, dist, j) & BusyMarker != 0
  {
    ScoreUpToBits(procCount, dist, |procCount|, j, 6);
    assert HitBit(dist, j, j) == 6;
  }

  /** Every busy device `i` sets bit 6 - level/10 in each other device's score. */
  lemma NeighbourOfBusyMarked(procCount: seq<nat>, dist: Topology, i: nat, j: nat)
    requires i < |procCount| && procCount[i] > 0 && i != j
    ensures Score(procCount, dist, j) & Bit(6 - dist(i, j) / 10) != 0
  {
    ScoreUpToBits(procCount, dist, |procCount|, j, 6 - dist(i, j) / 10);
    assert HitBit(dist, i, j) == 6 - dist(i, j) / 10;
  }

  /** A score is 0 exactly when no device runs a compute process: every busy
      device sets some bit in every score. */
  lemma ScoreZeroIffNoneBusy(procCount: seq<nat>, dist: Topology, j: nat)
    ensures Score(procCount, dist, j) == 0 <==> forall i :: 0 <= i < |procCount| ==> procCount[i] == 0
  {
    if exists i :: 0 <= i < |procCount| && procCount[i] > 0 {
      var i :| 0 <= i < |procCount| && procCount[i] > 0;
      BusyMakesNonZero(procCount, dist, i, j);
    } else {
      forall b | 0 <= b < 8 ensures Score(procCount, dist, j) & Bit(b) == 0 {
        ScoreUpToBits(procCount, dist, |procCount|, j, b);
      }
      NoBitsMeansZero(Score(procCount, dist, j));
    }
  }

  /** A busy device sets some bit in every score. */
  lemma BusyMakesNonZero(procCount: seq<nat>, dist: Topology, i: nat, j: nat)
    requires i < |procCount| && procCount[i] > 0
    ensures Score(procCount, dist, j) != 0
  {
    var h := HitBit(dist, i, j);
    ScoreUpToBits(procCount, dist, |procCount|, j, h);
    assert Score(procCount, dist, j) & Bit(h) != 0;
  }

  /** A mask with none of its eight bits set is zero. */
  lemma NoBitsMeansZero(s: Mask)
    requires forall b :: 0 <= b < 8 ==> s & Bit(b) == 0
    ensures s == 0
  {
    assert s & 1 == 0 && s & 2 == 0 && s & 4 == 0 && s & 8 == 0 by {
      assert Bit(0) == 1 && Bit(1) == 2 && Bit(2) == 4 && Bit(3) == 8;
    }
    assert s & 16 == 0 && s & 32 == 0 && s & 64 == 0 && s & 128 == 0 by {
      assert Bit(4) == 16 && Bit(5) == 32 && Bit(6) == 64 && Bit(7) == 128;
    }
  }

  /** The busy marker is set in device `j`'s score exactly when a busy
      device is `j` itself or shares its board. */
  lemma MarkerBit(procCount: seq<nat>, dist: Topology, j: nat)
    ensures ScoreUpTo(procCount, dist, |procCount|, j) & BusyMarker != 0 <==>
              exists i :: 0 <= i < |procCount| && procCount[i] > 0 && (i == j || dist(i, j) == INTERNAL)
  {
    ScoreUpToBits(procCount, dist, |procCount|, j, 6);
    assert Bit(6) == BusyMarker;
    forall i | 0 <= i < |procCount| ensures HitBit(dist, i, j) == 6 <==> i == j || dist(i, j) == INTERNAL {
    }
  }

  /** Scores never reach bit 7, so a score without the busy marker is below 64. */
  lemma ScoreBelow128(procCount: seq<nat>, dist: Topology, j: nat)
    ensures Score(procCount, dist, j) < 128
    ensures Score(procCount, dist, j) & BusyMarker == 0 <==> Score(procCount, dist, j) < 64
  {
    ScoreUpToBits(procCount, dist, |procCount|, j, 7);
    assert Bit(7) == 128;
  }

  /** When no other device is at INTERNAL level from device `j`, the busy
      marker in `j`'s score means exactly that `j` runs a compute process. */
  lemma MarkerIffBusy(procCount: seq<nat>, dist: Topology, j: nat)
    requires j < |procCount|
    requires forall i :: 0 <= i < |procCount| && i != j ==> dist(i, j) != INTERNAL
    ensures Score(procCount, dist, j) & BusyMarker != 0 <==> procCount[j] > 0
  {
    ScoreUpToBits(procCount, dist, |procCount|, j, 6);
    assert Bit(6) == BusyMarker;
    if procCount[j] > 0 {
      assert HitBit(dist, j, j) == 6;
    }
    if SetsBit(procCount, dist, |procCount|, j, 6) {
      var i :| 0 <= i < |procCount| && procCount[i] > 0 && HitBit(dist, i, j) == 6;
    }
  }

  /** Fewer devices are busy than there are devices exactly when some
      device runs no compute process. */
  lemma {:induction false} BusyCountBelowIffIdle(procCount: seq<nat>)
    ensures BusyCount(procCount) < |procCount| <==> exists i :: 0 <= i < |procCount| && procCount[i] == 0
  {
    if procCount != [] {
      var init := procCount[..|procCount| - 1];
      BusyCountBelowIffIdle(init);
      if exists i :: 0 <= i < |init| && init[i] == 0 {
        var i :| 0 <= i < |init| && init[i] == 0;
        assert procCount[i] == 0;
      }
      if exists i :: 0 <= i < |procCount| && procCount[i] == 0 {
        var i :| 0 <= i < |procCount| && procCount[i] == 0;
        if i < |init| {
          assert init[i] == 0;
        }
      }
    }
  }

  /** Scores only ever gain bits as the scan proceeds. */
  lemma {:induction false} ScoresOnlyGainBits(procCount: seq<nat>, dist: Topology, m: nat, m': nat, j: nat)
    requires m <= m' <= |procCount|
    ensures ScoreUpTo(procCount, dist, m, j) | ScoreUpTo(procCount, dist, m', j) == ScoreUpTo(procCount, dist, m', j)
  {
    if m < m' {
      ScoresOnlyGainBits(procCount, dist, m, m' - 1, j);
    }
  }

  /** With exactly one busy device `b`, every other device's score is the
      single bit of its level from `b`: the farther from `b`, the lower. */
  lemma {:induction false} SingleBusyScore(procCount: seq<nat>, dist: Topology, m: nat, b: nat, j: nat)
    requires m <= |procCount| && b < |procCount|
    requires forall i :: 0 <= i < |procCount| ==> (procCount[i] > 0 <==> i == b)
    ensures ScoreUpTo(procCount, dist, m, j) == if b < m then Bit(HitBit(dist, b, j)) else 0
  {
    if m > 0 {
      SingleBusyScore(procCount, dist, m - 1, b, j);
    }
  }

  /** With one busy device, of two other devices the one at the higher level
      from it has the strictly lower (better) score. */
  lemma FartherFromSoleBusyIsBetter(procCount: seq<nat>, dist: Topology, b: nat, j: nat, k: nat)
    requires b < |procCount|
    requires forall i :: 0 <= i < |procCount| ==> (procCount[i] > 0 <==> i == b)
    requires j != b && k != b && dist(b, j) > dist(b, k)
    ensures Score(procCount, dist, j) < Score(procCount, dist, k)
  {
    SingleBusyScore(procCount, dist, |procCount|, b, j);
    SingleBusyScore(procCount, dist, |procCount|, b, k);
    var hj, hk := HitBit(dist, b, j), HitBit(dist, b, k);
    assert hj < hk;
    assert Bit(hj) < Bit(hk) by {
      assert 1 <= hj < hk <= 6;
      if hj == 1 { assert Bit(1) == 2; }
      else if hj == 2 { assert Bit(2) == 4; }
      else if hj == 3 { assert Bit(3) == 8; }
      else if hj == 4 { assert Bit(4) == 16; }
      else { assert hj == 5 && hk == 6 && Bit(5) == 32 && Bit(6) == 64; }
      assert hk > 1 ==> Bit(hk) >= 4;
    }
  }
}
