/** Metrics of one ranked retrieval (`ranking_metrics`, src/firelens/benchmark_support.py:102-140). */
module RankingMetrics {

  datatype Chunk = Chunk(chunkId: string, sourceId: string, page: int)

  datatype Evidence = Evidence(sourceId: string, chunkIds: set<string>, pages: set<int>)

  /** A ranked result: the known chunk of an ID, or an ID that no chunk carries. */
  datatype Ranked = Known(chunk: Chunk) | Missing(chunkId: string)

  predicate Matches(c: Chunk, e: Evidence) {
    && c.sourceId == e.sourceId
    && (e.chunkIds == {} || c.chunkId in e.chunkIds)
    && (e.pages == {} || c.page in e.pages)
  }

  predicate IsHit(r: Ranked, acceptable: seq<Evidence>) {
    r.Known? && exists e :: e in acceptable && Matches(r.chunk, e)
  }

  /** The ranks of the hits, counted from 1. */
  function RelevantRanks(ranking: seq<Ranked>, acceptable: seq<Evidence>): seq<nat> {
    if ranking == [] then []
    else
      var n := |ranking| - 1;
      RelevantRanks(ranking[..n], acceptable) + if IsHit(ranking[n], acceptable) then [n + 1] else []
  }

  /** A positive, strictly decreasing rank weight, standing in for 1 / log2(rank + 1). */
  ghost predicate IsDiscount(weight: nat -> real) {
    && (forall r :: r >= 1 ==> weight(r) > 0.0)
    && (forall r, s :: 1 <= r < s ==> weight(r) > weight(s))
  }

  function Sum(ranks: seq<nat>, weight: nat -> real): real {
    if ranks == [] then 0.0 else Sum(ranks[..|ranks| - 1], weight) + weight(ranks[|ranks| - 1])
  }

  function Ideal(count: nat, weight: nat -> real): real {
    if count == 0 then 0.0 else Ideal(count - 1, weight) + weight(count)
  }

  function Ndcg(ranking: seq<Ranked>, acceptable: seq<Evidence>, weight: nat -> real): real {
    var relevant := RelevantRanks(ranking, acceptable);
    var idealCount := if |relevant| <= |ranking| then |relevant| else |ranking|;
    var ideal := Ideal(idealCount, weight);
    if ideal == 0.0 then 0.0 else Sum(relevant, weight) / ideal
  }

  function ReciprocalRank(ranking: seq<Ranked>, acceptable: seq<Evidence>): real {
    var relevant := RelevantRanks(ranking, acceptable);
    if relevant == [] || relevant[0] == 0 then 0.0 else 1.0 / relevant[0] as real
  }

  function ExpectedSources(acceptable: seq<Evidence>): set<string> {
    set e | e in acceptable :: e.sourceId
  }

  function HitSources(ranking: seq<Ranked>, acceptable: seq<Evidence>): set<string> {
    set r | r in ranking && IsHit(r, acceptable) :: r.chunk.sourceId
  }

  function SourceCoverage(ranking: seq<Ranked>, acceptable: seq<Evidence>): real {
    var expected, found := ExpectedSources(acceptable), HitSources(ranking, acceptable);
    if expected == {} then 0.0 else |found| as real / |expected| as real
  }

  /** The hits are the known results with evidence for their chunk. */
  lemma {:induction false} HitIff(r: Ranked, acceptable: seq<Evidence>)
    ensures IsHit(r, acceptable) <==>
            r.Known? && exists i :: 0 <= i < |acceptable| && Supports(acceptable[i], r.chunk)
  {
    if r.Known? {
      forall e ensures Matches(r.chunk, e) <==> Supports(e, r.chunk) {
      }
      if i :| 0 <= i < |acceptable| && Supports(acceptable[i], r.chunk) {
        assert acceptable[i] in acceptable;
      }
    }
  }

  /** Evidence for a chunk: the same source and, if it lists any, one of its chunks and one of its pages. */
  ghost predicate Supports(e: Evidence, c: Chunk) {
    && e.sourceId == c.sourceId
    && (|e.chunkIds| > 0 ==> c.chunkId in e.chunkIds)
    && (|e.pages| > 0 ==> c.page in e.pages)
  }

  // ---------- ranks ----------

  lemma {:induction false} RanksNameHits(ranking: seq<Ranked>, acceptable: seq<Evidence>, i: nat)
    requires i < |RelevantRanks(ranking, acceptable)|
    ensures
      var ranks := RelevantRanks(ranking, acceptable);
      i + 1 <= ranks[i] <= |ranking| && IsHit(ranking[ranks[i] - 1], acceptable) && |ranks| <= |ranking|
  {
    var n := |ranking| - 1;
    var before := RelevantRanks(ranking[..n], acceptable);
    if i < |before| {
      RanksNameHits(ranking[..n], acceptable, i);
    } else if i > 0 {
      RanksNameHits(ranking[..n], acceptable, i - 1);
    }
  }

  lemma {:induction false} RanksRise(ranking: seq<Ranked>, acceptable: seq<Evidence>, i: nat, j: nat)
    requires i < j < |RelevantRanks(ranking, acceptable)|
    ensures RelevantRanks(ranking, acceptable)[i] < RelevantRanks(ranking, acceptable)[j]
  {
    var n := |ranking| - 1;
    if j < |RelevantRanks(ranking[..n], acceptable)| {
      RanksRise(ranking[..n], acceptable, i, j);
    } else {
      RanksNameHits(ranking[..n], acceptable, i);
    }
  }

  lemma {:induction false} HitsHaveRanks(ranking: seq<Ranked>, acceptable: seq<Evidence>, k: nat)
    requires k < |ranking| && IsHit(ranking[k], acceptable)
    ensures k + 1 in RelevantRanks(ranking, acceptable)
  {
    var n := |ranking| - 1;
    if k < n {
      HitsHaveRanks(ranking[..n], acceptable, k);
    }
  }

  /** Ranks rise, fit the ranking, and name exactly the hits. */
  lemma {:induction false} RanksAreHits(ranking: seq<Ranked>, acceptable: seq<Evidence>)
    ensures
      var ranks := RelevantRanks(ranking, acceptable);
      && |ranks| <= |ranking|
      && (forall i :: 0 <= i < |ranks| ==> i + 1 <= ranks[i] <= |ranking| && IsHit(ranking[ranks[i] - 1], acceptable))
      && (forall i, j :: 0 <= i < j < |ranks| ==> ranks[i] < ranks[j])
      && (forall k :: 0 <= k < |ranking| && IsHit(ranking[k], acceptable) ==> k + 1 in ranks)
  {
    var ranks := RelevantRanks(ranking, acceptable);
    forall i | 0 <= i < |ranks|
      ensures i + 1 <= ranks[i] <= |ranking| && IsHit(ranking[ranks[i] - 1], acceptable) && |ranks| <= |ranking|
    {
      RanksNameHits(ranking, acceptable, i);
    }
    if ranks != [] {
      RanksNameHits(ranking, acceptable, 0);
    }
    forall i, j | 0 <= i < j < |ranks| ensures ranks[i] < ranks[j] {
      RanksRise(ranking, acceptable, i, j);
    }
    forall k | 0 <= k < |ranking| && IsHit(ranking[k], acceptable) ensures k + 1 in ranks {
      HitsHaveRanks(ranking, acceptable, k);
    }
  }

  lemma {:induction false} IdealPositive(count: nat, weight: nat -> real)
    requires IsDiscount(weight)
    ensures Ideal(count, weight) >= 0.0 && (count > 0 ==> Ideal(count, weight) > 0.0)
  {
    if count > 0 {
      IdealPositive(count - 1, weight);
    }
  }

  /** Ranks that are not below their position sum up to the ideal at most, and to it only if each is at its position. */
  lemma {:induction false} SumAtMostIdeal(ranks: seq<nat>, weight: nat -> real)
    requires IsDiscount(weight) && forall i :: 0 <= i < |ranks| ==> ranks[i] >= i + 1
    ensures 0.0 <= Sum(ranks, weight) <= Ideal(|ranks|, weight)
    ensures Sum(ranks, weight) == Ideal(|ranks|, weight) <==> forall i :: 0 <= i < |ranks| ==> ranks[i] == i + 1
    ensures ranks != [] ==> Sum(ranks, weight) > 0.0
  {
    if ranks != [] {
      var n := |ranks| - 1;
      SumAtMostIdeal(ranks[..n], weight);
      assert ranks[n] == n + 1 || weight(ranks[n]) < weight(n + 1);
      assert weight(ranks[n]) > 0.0;
    }
  }

  /** The hits fill the top of the ranking without a gap. */
  ghost predicate HitsComeFirst(ranking: seq<Ranked>, acceptable: seq<Evidence>) {
    forall i, j :: 0 <= i < j < |ranking| && IsHit(ranking[j], acceptable) ==> IsHit(ranking[i], acceptable)
  }

  lemma {:induction false} PrefixRanksIff(ranking: seq<Ranked>, acceptable: seq<Evidence>)
    ensures
      var ranks := RelevantRanks(ranking, acceptable);
      (forall i :: 0 <= i < |ranks| ==> ranks[i] == i + 1) <==> HitsComeFirst(ranking, acceptable)
  {
    var ranks := RelevantRanks(ranking, acceptable);
    RanksAreHits(ranking, acceptable);
    if HitsComeFirst(ranking, acceptable) {
      forall i | 0 <= i < |ranks| ensures ranks[i] == i + 1 {
        HitAtPosition(ranking, acceptable, i);
      }
    }
    if forall i :: 0 <= i < |ranks| ==> ranks[i] == i + 1 {
      forall i, j | 0 <= i < j < |ranking| && IsHit(ranking[j], acceptable) ensures IsHit(ranking[i], acceptable) {
        assert j + 1 in ranks;
        assert ranks[i] == i + 1;
      }
    }
  }

  lemma {:induction false} AllHits(ranking: seq<Ranked>, acceptable: seq<Evidence>)
    requires forall k :: 0 <= k < |ranking| ==> IsHit(ranking[k], acceptable)
    ensures |RelevantRanks(ranking, acceptable)| == |ranking|
  {
    if ranking != [] {
      AllHits(ranking[..|ranking| - 1], acceptable);
    }
  }

  lemma {:induction false} HitAtPosition(ranking: seq<Ranked>, acceptable: seq<Evidence>, i: nat)
    requires HitsComeFirst(ranking, acceptable) && i < |RelevantRanks(ranking, acceptable)|
    ensures RelevantRanks(ranking, acceptable)[i] == i + 1
  {
    var n := |ranking| - 1;
    if i < |RelevantRanks(ranking[..n], acceptable)| {
      HitAtPosition(ranking[..n], acceptable, i);
    } else {
      AllHits(ranking[..n], acceptable);
    }
  }

  /**
   For every ranking the metric lies between 0 and 1; it is 0 exactly without a hit, and 1 exactly
   when there is a hit and no miss stands above one.
   */
  lemma {:induction false} NdcgBounds(ranking: seq<Ranked>, acceptable: seq<Evidence>, weight: nat -> real)
    requires IsDiscount(weight)
    ensures 0.0 <= Ndcg(ranking, acceptable, weight) <= 1.0
    ensures Ndcg(ranking, acceptable, weight) == 0.0 <==> forall r :: r in ranking ==> !IsHit(r, acceptable)
    ensures Ndcg(ranking, acceptable, weight) == 1.0 <==>
            (exists r :: r in ranking && IsHit(r, acceptable)) && HitsComeFirst(ranking, acceptable)
  {
    var ranks := RelevantRanks(ranking, acceptable);
    RanksAreHits(ranking, acceptable);
    SumAtMostIdeal(ranks, weight);
    IdealPositive(|ranks|, weight);
    PrefixRanksIff(ranking, acceptable);
    NoRanksIff(ranking, acceptable);
    if ranks != [] {
      Ratio(Sum(ranks, weight), Ideal(|ranks|, weight));
    }
  }

  lemma {:induction false} NoRanksIff(ranking: seq<Ranked>, acceptable: seq<Evidence>)
    ensures RelevantRanks(ranking, acceptable) == [] <==> forall r :: r in ranking ==> !IsHit(r, acceptable)
  {
    var ranks := RelevantRanks(ranking, acceptable);
    RanksAreHits(ranking, acceptable);
    if ranks != [] {
      assert ranking[ranks[0] - 1] in ranking;
    }
  }

  lemma {:induction false} Ratio(a: real, b: real)
    requires 0.0 < a <= b
    ensures 0.0 < a / b <= 1.0 && (a / b == 1.0 <==> a == b)
  {
  }

  // ---------- promotion ----------

  /** The discounted gain as a sum over positions. */
  function Gain(ranking: seq<Ranked>, acceptable: seq<Evidence>, weight: nat -> real): real {
    if ranking == [] then 0.0
    else
      var n := |ranking| - 1;
      Gain(ranking[..n], acceptable, weight) + if IsHit(ranking[n], acceptable) then weight(n + 1) else 0.0
  }

  lemma {:induction false} GainIsSum(ranking: seq<Ranked>, acceptable: seq<Evidence>, weight: nat -> real)
    ensures Gain(ranking, acceptable, weight) == Sum(RelevantRanks(ranking, acceptable), weight)
  {
    if ranking != [] {
      var n := |ranking| - 1;
      var before := RelevantRanks(ranking[..n], acceptable);
      assert (before + [n + 1])[..|before|] == before && before + [] == before;
      GainIsSum(ranking[..n], acceptable, weight);
    }
  }

  function Swap(ranking: seq<Ranked>, i: nat): seq<Ranked>
    requires i + 1 < |ranking|
  {
    ranking[i := ranking[i + 1]][i + 1 := ranking[i]]
  }

  lemma {:induction false} SwapGain(ranking: seq<Ranked>, i: nat, acceptable: seq<Evidence>, weight: nat -> real)
    requires i + 1 < |ranking| && !IsHit(ranking[i], acceptable) && IsHit(ranking[i + 1], acceptable)
    ensures Gain(Swap(ranking, i), acceptable, weight) ==
            Gain(ranking, acceptable, weight) + weight(i + 1) - weight(i + 2)
    ensures |RelevantRanks(Swap(ranking, i), acceptable)| == |RelevantRanks(ranking, acceptable)|
    decreases |ranking|
  {
    var n := |ranking| - 1;
    var swapped := Swap(ranking, i);
    if i + 1 == n {
      assert swapped[..n][..i] == ranking[..n][..i] == ranking[..i];
      assert ranking[..n] == ranking[..i] + [ranking[i]] && swapped[..n] == ranking[..i] + [ranking[n]];
    } else {
      assert swapped[..n] == Swap(ranking[..n], i);
      SwapGain(ranking[..n], i, acceptable, weight);
    }
  }

  /** Moving a hit above the miss directly before it strictly raises the metric. */
  lemma {:induction false} PromotionRaisesNdcg(
    ranking: seq<Ranked>, i: nat, acceptable: seq<Evidence>, weight: nat -> real
  )
    requires IsDiscount(weight)
    requires i + 1 < |ranking| && !IsHit(ranking[i], acceptable) && IsHit(ranking[i + 1], acceptable)
    ensures Ndcg(Swap(ranking, i), acceptable, weight) > Ndcg(ranking, acceptable, weight)
  {
    var swapped := Swap(ranking, i);
    SwapGain(ranking, i, acceptable, weight);
    GainIsSum(ranking, acceptable, weight);
    GainIsSum(swapped, acceptable, weight);
    RanksAreHits(ranking, acceptable);
    var ranks := RelevantRanks(ranking, acceptable);
    assert i + 2 in ranks;
    IdealPositive(|ranks|, weight);
    RatioOrder(Gain(ranking, acceptable, weight), Gain(swapped, acceptable, weight), Ideal(|ranks|, weight));
  }

  lemma {:induction false} RatioOrder(a: real, b: real, d: real)
    requires a < b && d > 0.0
    ensures a / d < b / d
  {
  }

  /** The metric is the gain as a share of the gain that as many hits have at the top. */
  lemma {:induction false} NdcgIsShare(ranking: seq<Ranked>, acceptable: seq<Evidence>, weight: nat -> real)
    requires IsDiscount(weight)
    ensures
      var hits := |RelevantRanks(ranking, acceptable)|;
      && (hits > 0 <==> Ideal(hits, weight) > 0.0)
      && Ndcg(ranking, acceptable, weight) ==
          if hits > 0 then Gain(ranking, acceptable, weight) / Ideal(hits, weight) else 0.0
  {
    GainIsSum(ranking, acceptable, weight);
    RanksAreHits(ranking, acceptable);
    IdealPositive(|RelevantRanks(ranking, acceptable)|, weight);
  }

  lemma {:induction false} Share(a: real, d: real)
    requires d > 0.0
    ensures a / d * d == a
  {
  }

  // ---------- the other metrics ----------

  /** The reciprocal rank is 1 over the first hit's rank, and 0 exactly without a hit. */
  lemma {:induction false} ReciprocalRankIsFirstHit(ranking: seq<Ranked>, acceptable: seq<Evidence>)
    ensures ReciprocalRank(ranking, acceptable) == 0.0 <==> forall r :: r in ranking ==> !IsHit(r, acceptable)
    ensures forall k :: 0 <= k < |ranking| && IsHit(ranking[k], acceptable) &&
                        (forall j :: 0 <= j < k ==> !IsHit(ranking[j], acceptable)) ==>
                          ReciprocalRank(ranking, acceptable) == 1.0 / (k + 1) as real
  {
    var ranks := RelevantRanks(ranking, acceptable);
    RanksAreHits(ranking, acceptable);
    NoRanksIff(ranking, acceptable);
    if ranks != [] {
      InversePositive(ranks[0] as real);
    }
    forall k | 0 <= k < |ranking| && IsHit(ranking[k], acceptable) &&
               (forall j :: 0 <= j < k ==> !IsHit(ranking[j], acceptable))
      ensures ReciprocalRank(ranking, acceptable) == 1.0 / (k + 1) as real
    {
      assert k + 1 in ranks;
      assert ranks[0] - 1 >= k;
    }
  }

  lemma {:induction false} InversePositive(x: real)
    requires x > 0.0
    ensures 1.0 / x > 0.0
  {
  }

  /** A hit's source is always one of the expected sources. */
  lemma {:induction false} HitsAreExpected(ranking: seq<Ranked>, acceptable: seq<Evidence>)
    ensures HitSources(ranking, acceptable) <= ExpectedSources(acceptable)
  {
    forall r | r in ranking && IsHit(r, acceptable) ensures r.chunk.sourceId in ExpectedSources(acceptable) {
      var e :| e in acceptable && Matches(r.chunk, e);
    }
  }

  /** Coverage lies between 0 and 1 and is 1 exactly when every expected source is hit. */
  lemma {:induction false} CoverageBounds(ranking: seq<Ranked>, acceptable: seq<Evidence>)
    requires acceptable != []
    ensures 0.0 <= SourceCoverage(ranking, acceptable) <= 1.0
    ensures SourceCoverage(ranking, acceptable) == 1.0 <==>
            forall e :: e in acceptable ==> e.sourceId in HitSources(ranking, acceptable)
  {
    var expected, found := ExpectedSources(acceptable), HitSources(ranking, acceptable);
    assert acceptable[0].sourceId in expected;
    HitsAreExpected(ranking, acceptable);
    SubsetSize(found, expected);
    ShareOfWhole(|found|, |expected|);
  }

  /** Coverage is the number of hit sources as a share of the number of expected ones. */
  lemma {:induction false} CoverageIsShare(
    ranking: seq<Ranked>, acceptable: seq<Evidence>, expected: set<string>, found: set<string>
  )
    requires forall s :: s in expected <==> exists e :: e in acceptable && e.sourceId == s
    requires forall s :: s in found <==> exists r :: r in ranking && IsHit(r, acceptable) && r.chunk.sourceId == s
    ensures SourceCoverage(ranking, acceptable) * |expected| as real == |found| as real
    ensures acceptable == [] ==> SourceCoverage(ranking, acceptable) == 0.0
  {
    assert expected == ExpectedSources(acceptable) && found == HitSources(ranking, acceptable);
    HitsAreExpected(ranking, acceptable);
    if expected != {} {
      Share(|found| as real, |expected| as real);
    }
  }

  lemma {:induction false} SubsetSize(a: set<string>, b: set<string>)
    requires a <= b
    ensures |a| <= |b| && (|a| == |b| <==> a == b)
  {
    assert b == a + (b - a);
    assert |b| == |a| + |b - a|;
  }

  lemma {:induction false} ShareOfWhole(a: nat, b: nat)
    requires a <= b && b > 0
    ensures 0.0 <= a as real / b as real <= 1.0 && (a as real / b as real == 1.0 <==> a == b)
  {
  }
}
