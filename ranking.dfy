/** The availability ranking: device indices ordered by increasing score
    (cuda_gpupick/cuda_gpupick.py, line 86). */
module Ranking {
  import opened Sequences
  import opened Scoring

  /** `r` lists each device index below `n` exactly once. */
  ghost predicate IsPermutationOfIndices(r: seq<nat>, n: nat) {
    && |r| == n
    && (forall p :: 0 <= p < |r| ==> r[p] < n)
    && Distinct(r)
    && (forall d: nat :: d < n ==> d in r)
  }

  /** What the argsort promises whatever sorting kind it uses: a permutation
      of the device indices along which the scores never decrease. */
  ghost predicate IsRanking(scores: seq<Mask>, r: seq<nat>) {
    && IsPermutationOfIndices(r, |scores|)
    && (forall p, q :: 0 <= p < q < |r| ==> scores[r[p]] <= scores[r[q]])
  }

  /** Device `a` comes before device `b` when its score is lower, or the
      scores tie and its index is lower. */
  predicate RankedBefore(scores: seq<Mask>, a: nat, b: nat)
    requires a < |scores| && b < |scores|
  {
    scores[a] < scores[b] || (scores[a] == scores[b] && a < b)
  }

  /** Strictly increasing by (score, index). */
  ghost predicate StablySorted(scores: seq<Mask>, r: seq<nat>) {
    && (forall p :: 0 <= p < |r| ==> r[p] < |scores|)
    && (forall p, q :: 0 <= p < q < |r| ==> RankedBefore(scores, r[p], r[q]))
  }

  /** Inserts device `x`, an index above every one already in `r`, after the
      last device of `r` whose score is at most `x`'s. */
  function Insert(scores: seq<Mask>, r: seq<nat>, x: nat): (r': seq<nat>)
    requires x < |scores| && StablySorted(scores, r)
    requires forall p :: 0 <= p < |r| ==> r[p] < x
    ensures |r'| == |r| + 1
    ensures forall d :: d in r' <==> d in r || d == x
    ensures StablySorted(scores, r')
  {
    if r == [] then [x]
    else
      var last := r[|r| - 1];
      if scores[last] <= scores[x] then
        assert forall p :: 0 <= p < |r| ==> RankedBefore(scores, r[p], x) by {
          forall p | 0 <= p < |r| ensures RankedBefore(scores, r[p], x) {
            assert p == |r| - 1 || RankedBefore(scores, r[p], last);
          }
        }
        AppendStablySorted(scores, r, x);
        r + [x]
      else
        var init := Insert(scores, r[..|r| - 1], x);
        assert forall p :: 0 <= p < |init| ==> RankedBefore(scores, init[p], last) by {
          forall p | 0 <= p < |init| ensures RankedBefore(scores, init[p], last) {
            assert init[p] in init;
            if init[p] != x {
              var i :| 0 <= i < |r| - 1 && r[i] == init[p];
            }
          }
        }
        AppendStablySorted(scores, init, last);
        init + [last]
  }

  /** A device ranked after every device of a stably sorted sequence can
      be appended to it. */
  lemma AppendStablySorted(scores: seq<Mask>, r: seq<nat>, x: nat)
    requires x < |scores| && StablySorted(scores, r)
    requires forall p :: 0 <= p < |r| ==> RankedBefore(scores, r[p], x)
    ensures StablySorted(scores, r + [x])
  {
  }

  /** The devices 0 .. k-1 sorted by (score, index). */
  function SortPrefix(scores: seq<Mask>, k: nat): (r: seq<nat>)
    requires k <= |scores|
    ensures |r| == k
    ensures forall d: nat :: d in r <==> d < k
    ensures forall p :: 0 <= p < |r| ==> r[p] < k
    ensures StablySorted(scores, r)
  {
    if k == 0 then []
    else
      var init := SortPrefix(scores, k - 1);
      assert forall p :: 0 <= p < |init| ==> init[p] < k - 1;
      var r := Insert(scores, init, k - 1);
      assert forall p :: 0 <= p < |r| ==> r[p] in r;
      r
  }

  /** The ranking with ties broken by the lower device index: a ranking in
      the sense of `IsRanking` that also orders equal scores by index. */
  function Argsort(scores: seq<Mask>): (r: seq<nat>)
    ensures IsRanking(scores, r)
    ensures StablySorted(scores, r)
  {
    var r := SortPrefix(scores, |scores|);
    assert Distinct(r) by {
      forall p, q | 0 <= p < q < |r| ensures r[p] != r[q] {
        assert RankedBefore(scores, r[p], r[q]);
      }
    }
    r
  }

  /** At most one sequence is a stably sorted permutation of the device
      indices: fixing ties by index makes the ranking unique. */
  lemma StableRankingUnique(scores: seq<Mask>, r1: seq<nat>, r2: seq<nat>)
    requires IsPermutationOfIndices(r1, |scores|) && StablySorted(scores, r1)
    requires IsPermutationOfIndices(r2, |scores|) && StablySorted(scores, r2)
    ensures r1 == r2
  {
    StableRankingPrefix(scores, r1, r2, |r1|);
    assert r1 == r1[..|r1|] && r2 == r2[..|r2|];
  }

  lemma {:induction false} StableRankingPrefix(scores: seq<Mask>, r1: seq<nat>, r2: seq<nat>, k: nat)
    requires IsPermutationOfIndices(r1, |scores|) && StablySorted(scores, r1)
    requires IsPermutationOfIndices(r2, |scores|) && StablySorted(scores, r2)
    requires k <= |r1|
    ensures r1[..k] == r2[..k]
  {
    if k > 0 {
      var p := k - 1;
      StableRankingPrefix(scores, r1, r2, p);
      var a, b := r1[p], r2[p];
      assert a in r2 && b in r1;
      var qa :| 0 <= qa < |r2| && r2[qa] == a;
      var qb :| 0 <= qb < |r1| && r1[qb] == b;
      assert p <= qa && p <= qb;
      RankedBeforeStrict(scores, a, b);
      assert a == b;
      assert r1[..k] == r1[..p] + [a] && r2[..k] == r2[..p] + [b];
    }
  }

  /** `RankedBefore` is a strict order: irreflexive and asymmetric. */
  lemma RankedBeforeStrict(scores: seq<Mask>, a: nat, b: nat)
    requires a < |scores| && b < |scores|
    ensures !RankedBefore(scores, a, a)
    ensures !(RankedBefore(scores, a, b) && RankedBefore(scores, b, a))
  {
  }
}
