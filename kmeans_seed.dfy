/**
 * The k-means++ seeding shared by the two programs: a table of pairwise
 * distances, filled for `a < b` and mirrored, and the fitness of a row
 * (its summed distance to the centroids chosen so far) that the roulette
 * wheel draws the next centroid by.  The proposed program also picks its
 * first centroid as the densest row, the one of least summed distance to
 * all rows.
 */
module Seeding {
  import opened Samples
  import opened Roulette
  import Lloyd

  /** Entry `(a, b)` of the distance table: computed for `a < b`, mirrored below the diagonal. */
  function Pair(rows: seq<Sample>, dist: (seq<real>, seq<real>) -> real, a: nat, b: nat): real
    requires a < |rows| && b < |rows|
  {
    if a == b then 0.0
    else if a < b then dist(rows[a].features, rows[b].features)
    else dist(rows[b].features, rows[a].features)
  }

  /** The table is symmetric with a zero diagonal, and under a distance it holds that distance. */
  lemma PairFacts(rows: seq<Sample>, dist: (seq<real>, seq<real>) -> real, a: nat, b: nat)
    requires a < |rows| && b < |rows|
    ensures Pair(rows, dist, a, b) == Pair(rows, dist, b, a)
    ensures Pair(rows, dist, a, a) == 0.0
    ensures IsDistance(dist) ==> Pair(rows, dist, a, b) == dist(rows[a].features, rows[b].features)
    ensures IsDistance(dist) ==> Pair(rows, dist, a, b) >= 0.0
  {
    if IsDistance(dist) {
      assert dist(rows[a].features, rows[b].features) == dist(rows[b].features, rows[a].features);
      assert dist(rows[a].features, rows[a].features) == 0.0;
      assert dist(rows[a].features, rows[b].features) >= 0.0;
    }
  }

  /** The table filled up to row `src`, and in row `src` up to column `dst`. */
  ghost predicate Filled(t: array2<real>, rows: seq<Sample>, dist: (seq<real>, seq<real>) -> real,
                         src: nat, dst: nat)
    reads t
    requires t.Length0 == |rows| == t.Length1
  {
    forall a, b :: 0 <= a < |rows| && 0 <= b < |rows| && (a < src || b < src || (a == src && b < dst) || (b == src && a < dst))
      ==> t[a, b] == Pair(rows, dist, a, b)
  }

  /** The distance-table loops: diagonal zero, each pair computed once and stored both ways. */
  method DistanceTable(rows: seq<Sample>, dist: (seq<real>, seq<real>) -> real) returns (t: array2<real>)
    ensures fresh(t) && t.Length0 == |rows| == t.Length1
    ensures forall a, b :: 0 <= a < |rows| && 0 <= b < |rows| ==> t[a, b] == Pair(rows, dist, a, b)
  {
    var n := |rows|;
    t := new real[n, n];
    for src := 0 to n
      invariant Filled(t, rows, dist, src, 0)
    {
      t[src, src] := 0.0;
      for dst := src + 1 to n
        invariant Filled(t, rows, dist, src, dst)
      {
        var d := dist(rows[src].features, rows[dst].features);
        t[src, dst] := d;
        t[dst, src] := d;
      }
      assert Filled(t, rows, dist, src, n);
    }
  }

  /** Seed rows as the starting centroids of a run. */
  function SeedCentroids(rows: seq<Sample>, seeds: seq<nat>): (cents: seq<Lloyd.Centroid>)
    requires forall e :: 0 <= e < |seeds| ==> seeds[e] < |rows|
    ensures |cents| == |seeds|
  {
    seq(|seeds|, e requires 0 <= e < |seeds| => Some(rows[seeds[e]].features))
  }

  // ---------------------------------------------------------------------
  // The densest row.
  // ---------------------------------------------------------------------

  /** Column `b` of the table summed over its first `n` rows. */
  function ColumnTotal(rows: seq<Sample>, dist: (seq<real>, seq<real>) -> real, b: nat, n: nat): real
    requires b < |rows| && n <= |rows|
  {
    if n == 0 then 0.0 else ColumnTotal(rows, dist, b, n - 1) + Pair(rows, dist, n - 1, b)
  }

  /** Every row's total distance to all rows. */
  function Totals(rows: seq<Sample>, dist: (seq<real>, seq<real>) -> real): (s: seq<Option<real>>)
    ensures |s| == |rows|
  {
    seq(|rows|, b requires 0 <= b < |rows| => Some(ColumnTotal(rows, dist, b, |rows|)))
  }

  /** The densest row: the first of least total distance, scanning from FLT_MAX. */
  function Densest(rows: seq<Sample>, dist: (seq<real>, seq<real>) -> real): (d: nat)
    ensures |rows| >= 1 ==> d < |rows|
  {
    Lloyd.FirstBelow(Totals(rows, dist), |rows|).0
  }

  /** The densest-row loops of the proposed program. */
  method FindDensest(rows: seq<Sample>, dist: (seq<real>, seq<real>) -> real, t: array2<real>)
    returns (j: nat)
    requires t.Length0 == |rows| == t.Length1
    requires forall a, b :: 0 <= a < |rows| && 0 <= b < |rows| ==> t[a, b] == Pair(rows, dist, a, b)
    ensures j == Densest(rows, dist)
  {
    ghost var totals := Totals(rows, dist);
    var least := FLT_MAX;
    j := 0;
    for dst := 0 to |rows|
      invariant (j, least) == Lloyd.FirstBelow(totals, dst)
    {
      var total := 0.0;
      for src := 0 to |rows|
        invariant total == ColumnTotal(rows, dist, dst, src)
      {
        total := total + t[src, dst];
      }
      if total < least {
        least := total;
        j := dst;
      }
    }
  }

  /**
   * When some row's total lies below FLT_MAX, the densest row has the
   * least total, and every row before it a larger one.
   */
  lemma DensestIsFirstLeast(rows: seq<Sample>, dist: (seq<real>, seq<real>) -> real, b: nat)
    requires b < |rows| && ColumnTotal(rows, dist, b, |rows|) < FLT_MAX
    ensures Densest(rows, dist) < |rows|
    ensures ColumnTotal(rows, dist, Densest(rows, dist), |rows|) <= ColumnTotal(rows, dist, b, |rows|)
    ensures b < Densest(rows, dist) ==>
              ColumnTotal(rows, dist, Densest(rows, dist), |rows|) < ColumnTotal(rows, dist, b, |rows|)
  {
    var s := Totals(rows, dist);
    assert s[b] == Some(ColumnTotal(rows, dist, b, |rows|));
    var p := Lloyd.FirstBelow(s, |rows|);
    assert s[p.0] == Some(p.1);
  }

  // ---------------------------------------------------------------------
  // Fitness.
  // ---------------------------------------------------------------------

  /** Row `a`'s summed distance to the chosen rows. */
  function Fitness(rows: seq<Sample>, dist: (seq<real>, seq<real>) -> real, chosen: seq<nat>, a: nat): real
    requires a < |rows| && forall e :: 0 <= e < |chosen| ==> chosen[e] < |rows|
  {
    if chosen == [] then 0.0
    else Fitness(rows, dist, chosen[..|chosen| - 1], a) + Pair(rows, dist, a, chosen[|chosen| - 1])
  }

  /** The fitness vector. */
  function Fitnesses(rows: seq<Sample>, dist: (seq<real>, seq<real>) -> real, chosen: seq<nat>)
    : (f: seq<real>)
    requires forall e :: 0 <= e < |chosen| ==> chosen[e] < |rows|
    ensures |f| == |rows|
  {
    seq(|rows|, a requires 0 <= a < |rows| => Fitness(rows, dist, chosen, a))
  }

  /** The fitness loops: for every row, add its table entry for every chosen row. */
  method ComputeFitness(rows: seq<Sample>, dist: (seq<real>, seq<real>) -> real, t: array2<real>,
                        chosen: seq<nat>)
    returns (f: seq<real>)
    requires t.Length0 == |rows| == t.Length1
    requires forall a, b :: 0 <= a < |rows| && 0 <= b < |rows| ==> t[a, b] == Pair(rows, dist, a, b)
    requires forall e :: 0 <= e < |chosen| ==> chosen[e] < |rows|
    ensures f == Fitnesses(rows, dist, chosen)
  {
    f := [];
    for a := 0 to |rows|
      invariant |f| == a
      invariant forall x :: 0 <= x < a ==> f[x] == Fitness(rows, dist, chosen, x)
    {
      var acc := 0.0;
      for e := 0 to |chosen|
        invariant acc == Fitness(rows, dist, chosen[..e], a)
      {
        assert chosen[..e + 1][..e] == chosen[..e];
        acc := acc + t[a, chosen[e]];
      }
      assert chosen[..|chosen|] == chosen;
      f := f + [acc];
    }
  }

  /** Under a distance no fitness is negative. */
  lemma {:induction false} FitnessNonNegative(rows: seq<Sample>, dist: (seq<real>, seq<real>) -> real,
                                              chosen: seq<nat>, a: nat)
    requires IsDistance(dist) && a < |rows| && forall e :: 0 <= e < |chosen| ==> chosen[e] < |rows|
    ensures Fitness(rows, dist, chosen, a) >= 0.0
  {
    if chosen != [] {
      FitnessNonNegative(rows, dist, chosen[..|chosen| - 1], a);
      PairFacts(rows, dist, a, chosen[|chosen| - 1]);
    }
  }

  /** Under a distance a fitness is zero exactly when the row is at distance zero from every chosen row. */
  lemma {:induction false} FitnessZeroIff(rows: seq<Sample>, dist: (seq<real>, seq<real>) -> real,
                                          chosen: seq<nat>, a: nat)
    requires IsDistance(dist) && a < |rows| && forall e :: 0 <= e < |chosen| ==> chosen[e] < |rows|
    ensures Fitness(rows, dist, chosen, a) == 0.0
        <==> forall e :: 0 <= e < |chosen| ==> Pair(rows, dist, a, chosen[e]) == 0.0
  {
    if chosen != [] {
      var front := chosen[..|chosen| - 1];
      FitnessZeroIff(rows, dist, front, a);
      FitnessNonNegative(rows, dist, front, a);
      PairFacts(rows, dist, a, chosen[|chosen| - 1]);
      assert forall e :: 0 <= e < |front| ==> front[e] == chosen[e];
    }
  }

  /** A wheel of non-negative entries totals zero or less exactly when every entry is zero. */
  lemma {:induction false} TotalZeroIff(f: seq<real>)
    requires NonNegative(f)
    ensures Total(f) <= 0.0 <==> forall a :: 0 <= a < |f| ==> f[a] == 0.0
  {
    if f != [] {
      var g := f[..|f| - 1];
      assert NonNegative(g);
      TotalZeroIff(g);
      PrefixSumAgree(f, g, |g|);
      PrefixMonotone(g, 0, |g|);
      assert forall a :: 0 <= a < |g| ==> g[a] == f[a];
    }
  }

  /**
   * The proposed program's roulette aborts on the fitness vector exactly
   * when every row is at distance zero from every centroid chosen so far.
   */
  lemma AbortsIffAllAtSeeds(rows: seq<Sample>, dist: (seq<real>, seq<real>) -> real, chosen: seq<nat>)
    requires IsDistance(dist) && forall e :: 0 <= e < |chosen| ==> chosen[e] < |rows|
    ensures Total(Fitnesses(rows, dist, chosen)) <= 0.0
        <==> forall a, e :: 0 <= a < |rows| && 0 <= e < |chosen| ==> Pair(rows, dist, a, chosen[e]) == 0.0
  {
    var f := Fitnesses(rows, dist, chosen);
    forall a | 0 <= a < |rows|
      ensures f[a] >= 0.0
      ensures f[a] == 0.0 <==> forall e :: 0 <= e < |chosen| ==> Pair(rows, dist, a, chosen[e]) == 0.0
    {
      FitnessNonNegative(rows, dist, chosen, a);
      FitnessZeroIff(rows, dist, chosen, a);
    }
    TotalZeroIff(f);
    if Total(f) <= 0.0 {
      forall a, e | 0 <= a < |rows| && 0 <= e < |chosen|
        ensures Pair(rows, dist, a, chosen[e]) == 0.0
      {
        assert f[a] == 0.0;
      }
    } else {
      var a :| 0 <= a < |f| && f[a] != 0.0;
      var e :| 0 <= e < |chosen| && Pair(rows, dist, a, chosen[e]) != 0.0;
    }
  }
}
