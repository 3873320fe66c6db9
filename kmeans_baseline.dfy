/**
 * k-means++ of the cluster-centroids baseline: the first centroid is a row
 * drawn uniformly (`first`), every further one a roulette draw over the
 * rows' summed distances to the centroids so far (`draws`, each a value in
 * [0, total fitness)); then Lloyd rounds with the error summed in the
 * assignment pass, and finally the NaN centroids of empty clusters are
 * dropped.  The returned centroids carry no label column.
 */
module BaselineKMeans {
  import opened Samples
  import opened Roulette
  import opened Lloyd
  import opened Seeding

  /** The seed rows: `first`, then one roulette draw per further centroid. */
  function Seeds(rows: seq<Sample>, dist: (seq<real>, seq<real>) -> real, first: nat, draws: seq<real>)
    : (s: seq<nat>)
    requires first < |rows|
    ensures |s| == |draws| + 1 && s[0] == first
    ensures forall e :: 0 <= e < |s| ==> s[e] < |rows|
    decreases |draws|
  {
    if draws == [] then [first]
    else
      var s := Seeds(rows, dist, first, draws[..|draws| - 1]);
      s + [Spin(Fitnesses(rows, dist, s), draws[|draws| - 1])]
  }

  /** `SelectInitCentroids`: exactly `k` centroids, each a copy of a row. */
  method SelectInitCentroids(rows: seq<Sample>, k: nat, first: nat, draws: seq<real>,
                             dist: (seq<real>, seq<real>) -> real)
    returns (seeds: seq<nat>, init: seq<Centroid>)
    requires first < |rows| && k >= 1 && |draws| == k - 1
    ensures seeds == Seeds(rows, dist, first, draws)
    ensures init == SeedCentroids(rows, seeds)
  {
    seeds := [first];
    init := [Some(rows[first].features)];
    var t := DistanceTable(rows, dist);
    for c := 1 to k
      invariant seeds == Seeds(rows, dist, first, draws[..c - 1])
      invariant init == SeedCentroids(rows, seeds)
      invariant t.Length0 == |rows| == t.Length1
      invariant forall a, b :: 0 <= a < |rows| && 0 <= b < |rows| ==> t[a, b] == Pair(rows, dist, a, b)
    {
      var f := ComputeFitness(rows, dist, t, seeds);
      var j := RouletteWheelSelection(f, draws[c - 1]);
      assert draws[..c][..c - 1] == draws[..c - 1];
      seeds := seeds + [j];
      init := init + [Some(rows[j].features)];
    }
    assert draws[..k - 1] == draws;
  }

  /**
   * A further seed drawn with a positive value no larger than the total
   * fitness lies at a positive distance from some earlier seed: it never
   * repeats a row every earlier seed coincides with.
   */
  lemma DrawnSeedIsNew(rows: seq<Sample>, dist: (seq<real>, seq<real>) -> real, first: nat,
                       draws: seq<real>)
    requires IsDistance(dist) && first < |rows| && draws != []
    requires var prior := Seeds(rows, dist, first, draws[..|draws| - 1]);
             0.0 < draws[|draws| - 1] <= Total(Fitnesses(rows, dist, prior))
    ensures var s := Seeds(rows, dist, first, draws);
            exists e :: 0 <= e < |s| - 1 && Pair(rows, dist, s[|s| - 1], s[e]) > 0.0
  {
    var prior := Seeds(rows, dist, first, draws[..|draws| - 1]);
    var f := Fitnesses(rows, dist, prior);
    forall a | 0 <= a < |f|
      ensures f[a] >= 0.0
    {
      FitnessNonNegative(rows, dist, prior, a);
    }
    var j := Spin(f, draws[|draws| - 1]);
    SpinAvoidsZero(f, draws[|draws| - 1]);
    FitnessZeroIff(rows, dist, prior, j);
    var e :| 0 <= e < |prior| && Pair(rows, dist, j, prior[e]) != 0.0;
    PairFacts(rows, dist, j, prior[e]);
    assert Seeds(rows, dist, first, draws)[e] == prior[e];
  }

  /**
   * `KMeansPP` of the baseline.  The result is the run's live centroids in
   * cluster order, at most `k` of them.
   */
  method KMeansPP(rows: seq<Sample>, k: nat, maxIter: nat, tol: real, first: nat, draws: seq<real>,
                  dist: (seq<real>, seq<real>) -> real)
    returns (centroids: seq<seq<real>>)
    requires first < |rows| && k >= 1 && |draws| == k - 1
    requires Width(rows, |rows[0].features|)
    ensures var init := SeedCentroids(rows, Seeds(rows, dist, first, draws));
            centroids == Present(Iterate(InPass, rows, init, dist, |rows[0].features|, maxIter, tol, 0,
                                         Some(FLT_MAX)).cents)
    ensures |centroids| <= k
  {
    var w := |rows[0].features|;
    var seeds, cents := SelectInitCentroids(rows, k, first, draws, dist);
    ghost var goal := Iterate(InPass, rows, cents, dist, w, maxIter, tol, 0, Some(FLT_MAX)).cents;
    var iter: nat := 0;
    var cur := FLT_MAX;
    while true
      invariant iter <= maxIter && |cents| == k
      invariant goal == Iterate(InPass, rows, cents, dist, w, maxIter, tol, iter, Some(cur)).cents
      decreases maxIter - iter
    {
      var prev := cur;
      IterateUnfold(InPass, rows, cents, dist, w, maxIter, tol, iter, Some(prev));
      var labels, sse := AssignInPass(rows, cents, dist);
      cur := sse;
      cents := UpdateCentroids(rows, labels, k, w);
      iter := iter + 1;
      if iter > maxIter {
        break;
      }
      if !(prev - cur > tol) {
        break;
      }
    }
    centroids := DropEmpty(cents);
  }
}
