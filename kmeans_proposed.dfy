/**
 * k-means++ of the proposed program: the first centroid is the densest row,
 * every further one a normalised roulette draw (`draws`, each a value in
 * [0, 1)) that stops the program when the total fitness is not positive;
 * then Lloyd rounds whose error is summed in a pass of its own after the
 * assignment, and finally the NaN centroids of empty clusters are dropped.
 *
 * A centroid here is a whole row: its feature columns move to the mean of
 * the members, while its last column, the label, is never touched and
 * keeps the label of the row it was seeded from.
 */
module ProposedKMeans {
  import opened Samples
  import opened Roulette
  import opened Lloyd
  import opened Seeding

  /**
   * The seed rows: the densest row, then one normalised roulette draw per
   * further centroid; `None` when a draw finds no positive fitness (the
   * program exits).
   */
  function Seeds(rows: seq<Sample>, dist: (seq<real>, seq<real>) -> real, draws: seq<real>)
    : (s: Option<seq<nat>>)
    requires rows != []
    ensures s.Some? ==> |s.value| == |draws| + 1 && s.value[0] == Densest(rows, dist)
    ensures s.Some? ==> forall e :: 0 <= e < |s.value| ==> s.value[e] < |rows|
    decreases |draws|
  {
    if draws == [] then Some([Densest(rows, dist)])
    else
      match Seeds(rows, dist, draws[..|draws| - 1])
      case None => None
      case Some(s) =>
        match NormalisedSpin(Fitnesses(rows, dist, s), draws[|draws| - 1])
        case None => None
        case Some(j) => Some(s + [j])
  }

  /** `SelectInitCentroids`: the densest row first, then the roulette draws. */
  method SelectInitCentroids(rows: seq<Sample>, k: nat, draws: seq<real>, dist: (seq<real>, seq<real>) -> real)
    returns (seeds: Option<seq<nat>>)
    requires rows != [] && k >= 1 && |draws| == k - 1
    ensures seeds == Seeds(rows, dist, draws)
  {
    var t := DistanceTable(rows, dist);
    var densest := FindDensest(rows, dist, t);
    var chosen := [densest];
    for c := 1 to k
      invariant Some(chosen) == Seeds(rows, dist, draws[..c - 1])
      invariant t.Length0 == |rows| == t.Length1
      invariant forall a, b :: 0 <= a < |rows| && 0 <= b < |rows| ==> t[a, b] == Pair(rows, dist, a, b)
    {
      var f := ComputeFitness(rows, dist, t, chosen);
      var j := NormalisedSelection(f, draws[c - 1]);
      assert draws[..c][..c - 1] == draws[..c - 1];
      if j.None? {
        SeedsStayAborted(rows, dist, draws, c);
        return None;
      }
      chosen := chosen + [j.value];
    }
    assert draws[..k - 1] == draws;
    seeds := Some(chosen);
  }

  /** Once a draw aborts, the seeding as a whole aborts. */
  lemma {:induction false} SeedsStayAborted(rows: seq<Sample>, dist: (seq<real>, seq<real>) -> real,
                                            draws: seq<real>, c: nat)
    requires rows != [] && 1 <= c <= |draws|
    requires Seeds(rows, dist, draws[..c]) == None
    ensures Seeds(rows, dist, draws) == None
    decreases |draws| - c
  {
    if c < |draws| {
      assert draws[..c + 1][..c] == draws[..c];
      SeedsStayAborted(rows, dist, draws, c + 1);
    } else {
      assert draws[..c] == draws;
    }
  }

  /**
   * With seeds chosen so far, the next draw stops the program exactly when
   * every row lies at distance zero from every one of them.
   */
  lemma AbortIffNoSpread(rows: seq<Sample>, dist: (seq<real>, seq<real>) -> real, draws: seq<real>)
    requires IsDistance(dist) && rows != [] && draws != []
    requires Seeds(rows, dist, draws[..|draws| - 1]).Some?
    ensures var s := Seeds(rows, dist, draws[..|draws| - 1]).value;
            (Seeds(rows, dist, draws).None? <==>
               forall a, e :: 0 <= a < |rows| && 0 <= e < |s| ==> Pair(rows, dist, a, s[e]) == 0.0)
  {
    var s := Seeds(rows, dist, draws[..|draws| - 1]).value;
    AbortsIffAllAtSeeds(rows, dist, s);
  }

  /** The label column of each seed row. */
  function Tags(rows: seq<Sample>, seeds: seq<nat>): (tags: seq<nat>)
    requires forall e :: 0 <= e < |seeds| ==> seeds[e] < |rows|
    ensures |tags| == |seeds|
  {
    seq(|seeds|, e requires 0 <= e < |seeds| => rows[seeds[e]].cls)
  }

  /** The centroid rows: moved features, and the seed's label in the last column. */
  function Tagged(cents: seq<Centroid>, tags: seq<nat>): (rows: seq<Option<Sample>>)
    requires |tags| == |cents|
    ensures |rows| == |cents|
  {
    seq(|cents|, c requires 0 <= c < |cents| =>
      match cents[c]
      case Some(m) => Some(Sample(m, tags[c]))
      case None => None)
  }

  /**
   * `KMeansPP` of the proposed program; `None` when the seeding stops the
   * program.  Otherwise the result is the run's live centroid rows in
   * cluster order, at most `k` of them.
   */
  method KMeansPP(rows: seq<Sample>, k: nat, maxIter: nat, tol: real, draws: seq<real>,
                  dist: (seq<real>, seq<real>) -> real)
    returns (result: Option<seq<Sample>>)
    requires rows != [] && k >= 1 && |draws| == k - 1
    requires Width(rows, |rows[0].features|)
    ensures Seeds(rows, dist, draws).None? ==> result.None?
    ensures Seeds(rows, dist, draws).Some? ==>
              var s := Seeds(rows, dist, draws).value;
              var run := Iterate(Separately, rows, SeedCentroids(rows, s), dist, |rows[0].features|,
                                 maxIter, tol, 0, Some(FLT_MAX));
              result == Some(Present(Tagged(run.cents, Tags(rows, s))))
    ensures result.Some? ==> |result.value| <= k
  {
    var w := |rows[0].features|;
    var seeds := SelectInitCentroids(rows, k, draws, dist);
    if seeds.None? {
      return None;
    }
    var tags := Tags(rows, seeds.value);
    var cents := SeedCentroids(rows, seeds.value);
    ghost var goal := Iterate(Separately, rows, cents, dist, w, maxIter, tol, 0, Some(FLT_MAX)).cents;
    var iter: nat := 0;
    var cur: Option<real> := Some(FLT_MAX);
    while true
      invariant iter <= maxIter && |cents| == k
      invariant goal == Iterate(Separately, rows, cents, dist, w, maxIter, tol, iter, cur).cents
      decreases maxIter - iter
    {
      IterateUnfold(Separately, rows, cents, dist, w, maxIter, tol, iter, cur);
      var labels := AssignNearest(rows, cents, dist);
      var prev := cur;
      cur := MeasureAssigned(rows, cents, labels, dist);
      cents := UpdateCentroids(rows, labels, k, w);
      iter := iter + 1;
      if iter > maxIter {
        break;
      }
      if !Improved(prev, cur, tol) {
        break;
      }
    }
    var kept := DropEmpty(Tagged(cents, tags));
    result := Some(kept);
  }
}
