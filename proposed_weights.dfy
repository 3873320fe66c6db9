/**
 * The sampling weights of the proposed program.  Every row queries its
 * `isqrt(count of its class)` nearest rows (itself included, through a
 * bounded max-heap); a neighbour is credited with one count and with its
 * distance to the query whenever the query's class is a relative minority
 * against the neighbour's class, judged from the confusion matrix of the
 * decision tree on its own training table.  A row's weight is its credit
 * count over its summed credited distance, scaled by the root of its own
 * class count, and zero when that distance sum is zero.
 *
 * The confusion matrix `cm` (entry `cm[a][b]` as the program reads it) and
 * the distance are parameters.
 */
module ProposedWeights {
  import opened Samples
  import opened Neighbours

  // ---------------------------------------------------------------------
  // Integer square roots of the class counts.
  // ---------------------------------------------------------------------

  /** The integer square root: `sqrt` of a count, truncated to an unsigned integer. */
  function ISqrt(x: nat): (r: nat)
    ensures r * r <= x < (r + 1) * (r + 1)
  {
    assert x < (x + 1) * (x + 1) by {
      assert (x + 1) * (x + 1) == x * x + 2 * x + 1;
    }
    RootBelow(x, x)
  }

  /** The largest root candidate at most `r` whose square does not pass `x`. */
  function RootBelow(x: nat, r: nat): (s: nat)
    requires x < (r + 1) * (r + 1)
    ensures s <= r && s * s <= x < (s + 1) * (s + 1)
    decreases r
  {
    if r * r <= x then r else RootBelow(x, r - 1)
  }

  /** The bounds single out the root: any `r` with them is `ISqrt(x)`. */
  lemma ISqrtUnique(x: nat, r: nat)
    requires r * r <= x < (r + 1) * (r + 1)
    ensures r == ISqrt(x)
  {
    var s := ISqrt(x);
    if r < s {
      MonotoneSquare(r + 1, s);
    } else if s < r {
      MonotoneSquare(s + 1, r);
    }
  }

  lemma MonotoneSquare(a: nat, b: nat)
    requires a <= b
    ensures a * a <= b * b
  {
    assert a * a <= a * b <= b * b;
  }

  /** A class with rows has a root of at least one. */
  lemma ISqrtPositive(x: nat)
    requires x >= 1
    ensures ISqrt(x) >= 1
  {
  }

  /**
   * The program's copy of the class counts with every class 1.. replaced
   * by its integer square root (entry 0 keeps its count).
   */
  method SquareClassCounts(counts: seq<nat>) returns (roots: seq<nat>)
    ensures |roots| == |counts|
    ensures |counts| > 0 ==> roots[0] == counts[0]
    ensures forall c :: 1 <= c < |counts| ==>
              roots[c] * roots[c] <= counts[c] < (roots[c] + 1) * (roots[c] + 1)
  {
    roots := counts;
    var c := 1;
    while c < |counts|
      invariant 1 <= c && |roots| == |counts|
      invariant |counts| > 0 ==> roots[0] == counts[0]
      invariant forall d :: 1 <= d < c && d < |counts| ==>
                  roots[d] * roots[d] <= counts[d] < (roots[d] + 1) * (roots[d] + 1)
    {
      roots := roots[c := ISqrt(counts[c])];
      c := c + 1;
    }
  }

  // ---------------------------------------------------------------------
  // The relative-minority test.
  // ---------------------------------------------------------------------

  /** A square table with a row and a column per class. */
  ghost predicate Square(cm: seq<seq<nat>>, size: nat)
  {
    |cm| == size && forall a :: 0 <= a < size ==> |cm[a]| == size
  }

  /**
   * `isRelativeMinority(compared a, comparator b)`: the rate `cm[b][a]`
   * over the count of `a` passes the rate `cm[a][b]` over the count of `b`.
   * Both counts are positive for the classes of rows; a class without rows
   * is never a relative minority here.
   */
  predicate RelMinority(cm: seq<seq<nat>>, counts: seq<nat>, a: nat, b: nat)
    requires Square(cm, |counts|) && a < |counts| && b < |counts|
  {
    counts[a] > 0 && counts[b] > 0
    && (cm[b][a] as real) / (counts[a] as real) > (cm[a][b] as real) / (counts[b] as real)
  }

  /**
   * The test is a strict order between classes: no class is a relative
   * minority against itself, and of two classes at most one is against the
   * other.  Cleared of fractions it compares `cm[b][a] * counts[b]` with
   * `cm[a][b] * counts[a]`.
   */
  lemma RelMinorityOrder(cm: seq<seq<nat>>, counts: seq<nat>, a: nat, b: nat)
    requires Square(cm, |counts|) && a < |counts| && b < |counts|
    ensures !RelMinority(cm, counts, a, a)
    ensures RelMinority(cm, counts, a, b) ==> !RelMinority(cm, counts, b, a)
    ensures counts[a] > 0 && counts[b] > 0 ==>
              (RelMinority(cm, counts, a, b) <==> cm[b][a] * counts[b] > cm[a][b] * counts[a])
  {
    if counts[a] > 0 && counts[b] > 0 {
      CrossMultiply(cm[b][a] as real, counts[a] as real, cm[a][b] as real, counts[b] as real);
      assert (cm[b][a] * counts[b]) as real == (cm[b][a] as real) * (counts[b] as real);
      assert (cm[a][b] * counts[a]) as real == (cm[a][b] as real) * (counts[a] as real);
    }
  }

  /** Comparing fractions with positive denominators. */
  lemma CrossMultiply(x: real, p: real, y: real, q: real)
    requires p > 0.0 && q > 0.0
    ensures x / p > y / q <==> x * q > y * p
  {
    assert x / p * (p * q) == x * q;
    assert y / q * (p * q) == y * p;
    if x / p > y / q {
      assert (x / p - y / q) * (p * q) > 0.0;
    } else {
      assert (y / q - x / p) * (p * q) >= 0.0;
    }
  }

  // ---------------------------------------------------------------------
  // Credits.
  // ---------------------------------------------------------------------

  /** The labels are classes 1.. of the count table, and the matrix is square over it. */
  ghost predicate Tables(rows: seq<Sample>, cm: seq<seq<nat>>, counts: seq<nat>)
  {
    Square(cm, |counts|) && forall i :: 0 <= i < |rows| ==> 1 <= rows[i].cls < |counts|
  }

  /** The distance between rows `i` and `j`. */
  function Gap(rows: seq<Sample>, dist: (seq<real>, seq<real>) -> real, i: nat, j: nat): real
    requires i < |rows| && j < |rows|
  {
    dist(rows[i].features, rows[j].features)
  }

  /** Whether query `i`, with neighbours `nb`, credits row `j`. */
  predicate Credits(rows: seq<Sample>, cm: seq<seq<nat>>, counts: seq<nat>, nb: seq<nat>, i: nat, j: nat)
    requires Tables(rows, cm, counts) && i < |rows| && j < |rows|
  {
    j in nb && RelMinority(cm, counts, rows[i].cls, rows[j].cls)
  }

  /** The credit count of row `j` from the queries `0..|nbrs|`, `nbrs[i]` the neighbours of query `i`. */
  function CreditCount(rows: seq<Sample>, cm: seq<seq<nat>>, counts: seq<nat>, nbrs: seq<seq<nat>>, j: nat): nat
    requires Tables(rows, cm, counts) && |nbrs| <= |rows| && j < |rows|
  {
    if nbrs == [] then 0
    else CreditCount(rows, cm, counts, nbrs[..|nbrs| - 1], j)
         + (if Credits(rows, cm, counts, nbrs[|nbrs| - 1], |nbrs| - 1, j) then 1 else 0)
  }

  /** The credited distance of row `j`: its distances to the queries that credit it. */
  function CreditDistance(rows: seq<Sample>, cm: seq<seq<nat>>, counts: seq<nat>, nbrs: seq<seq<nat>>,
                          dist: (seq<real>, seq<real>) -> real, j: nat): real
    requires Tables(rows, cm, counts) && |nbrs| <= |rows| && j < |rows|
  {
    if nbrs == [] then 0.0
    else CreditDistance(rows, cm, counts, nbrs[..|nbrs| - 1], dist, j)
         + (if Credits(rows, cm, counts, nbrs[|nbrs| - 1], |nbrs| - 1, j) then Gap(rows, dist, |nbrs| - 1, j) else 0.0)
  }

  /** The weight formula: zero without credited distance, else count over distance times the root. */
  function Weight(cnt: nat, dsum: real, root: nat): real
  {
    if dsum == 0.0 then 0.0 else (cnt as real) / dsum * (root as real)
  }

  /** Every row's sampling weight. */
  function Weights(rows: seq<Sample>, cm: seq<seq<nat>>, counts: seq<nat>, nbrs: seq<seq<nat>>,
                   dist: (seq<real>, seq<real>) -> real): (w: seq<real>)
    requires Tables(rows, cm, counts) && |nbrs| == |rows|
    ensures |w| == |rows|
  {
    seq(|rows|, j requires 0 <= j < |rows| =>
      Weight(CreditCount(rows, cm, counts, nbrs, j), CreditDistance(rows, cm, counts, nbrs, dist, j),
             ISqrt(counts[rows[j].cls])))
  }

  /** The neighbours of query `i`: its `isqrt(count)` nearest rows, itself a candidate. */
  ghost predicate Queried(rows: seq<Sample>, counts: seq<nat>, dist: (seq<real>, seq<real>) -> real,
                          nbrs: seq<seq<nat>>)
    requires |nbrs| <= |rows| && forall i :: 0 <= i < |rows| ==> rows[i].cls < |counts|
  {
    forall i :: 0 <= i < |nbrs| ==>
      NearestAmong(DistancesFrom(rows, i, dist), -1, ISqrt(counts[rows[i].cls]), |rows|, nbrs[i])
  }

  // ---------------------------------------------------------------------
  // `CalculateSamplingWeights`.
  // ---------------------------------------------------------------------

  /** The credit loop of one query: each neighbour popped from the heap is credited or not. */
  method CreditNeighbours(rows: seq<Sample>, cm: seq<seq<nat>>, counts: seq<nat>, dist: (seq<real>, seq<real>) -> real,
                          i: nat, nb: seq<nat>, cnt: seq<nat>, dsum: seq<real>)
    returns (cnt': seq<nat>, dsum': seq<real>)
    requires Tables(rows, cm, counts) && i < |rows|
    requires Within(nb, |rows|) && Distinct(nb) && |cnt| == |rows| && |dsum| == |rows|
    ensures |cnt'| == |rows| && |dsum'| == |rows|
    ensures forall j :: 0 <= j < |rows| ==>
              cnt'[j] == cnt[j] + (if Credits(rows, cm, counts, nb, i, j) then 1 else 0)
    ensures forall j :: 0 <= j < |rows| ==>
              dsum'[j] == dsum[j] + (if Credits(rows, cm, counts, nb, i, j) then Gap(rows, dist, i, j) else 0.0)
  {
    cnt', dsum' := cnt, dsum;
    for a := 0 to |nb|
      invariant |cnt'| == |rows| && |dsum'| == |rows|
      invariant forall j :: 0 <= j < |rows| ==>
                  cnt'[j] == cnt[j] + (if Credits(rows, cm, counts, nb[..a], i, j) then 1 else 0)
      invariant forall j :: 0 <= j < |rows| ==>
                  dsum'[j] == dsum[j] + (if Credits(rows, cm, counts, nb[..a], i, j) then Gap(rows, dist, i, j) else 0.0)
    {
      var j := nb[a];
      assert nb[..a + 1] == nb[..a] + [j];
      assert j !in nb[..a];
      if RelMinority(cm, counts, rows[i].cls, rows[j].cls) {
        cnt' := cnt'[j := cnt'[j] + 1];
        dsum' := dsum'[j := dsum'[j] + dist(rows[i].features, rows[j].features)];
      }
    }
    assert nb[..|nb|] == nb;
  }

  /** The query loop after `i` rows: their neighbours, and the credits they handed out. */
  ghost predicate Tallied(rows: seq<Sample>, cm: seq<seq<nat>>, counts: seq<nat>, dist: (seq<real>, seq<real>) -> real,
                          nbrs: seq<seq<nat>>, cnt: seq<nat>, dsum: seq<real>)
    requires Tables(rows, cm, counts)
  {
    && |nbrs| <= |rows| && AllWithin(nbrs, |rows|) && Queried(rows, counts, dist, nbrs)
    && |cnt| == |rows| && |dsum| == |rows|
    && (forall j :: 0 <= j < |rows| ==> cnt[j] == CreditCount(rows, cm, counts, nbrs, j))
    && (forall j :: 0 <= j < |rows| ==> dsum[j] == CreditDistance(rows, cm, counts, nbrs, dist, j))
  }

  /** One query more keeps the loop invariant. */
  lemma TalliedStep(rows: seq<Sample>, cm: seq<seq<nat>>, counts: seq<nat>, dist: (seq<real>, seq<real>) -> real,
                    nbrs: seq<seq<nat>>, cnt: seq<nat>, dsum: seq<real>, nb: seq<nat>, cnt': seq<nat>, dsum': seq<real>)
    requires Tables(rows, cm, counts) && Tallied(rows, cm, counts, dist, nbrs, cnt, dsum)
    requires |nbrs| < |rows| && Within(nb, |rows|)
    requires NearestAmong(DistancesFrom(rows, |nbrs|, dist), -1, ISqrt(counts[rows[|nbrs|].cls]), |rows|, nb)
    requires |cnt'| == |rows| && |dsum'| == |rows|
    requires forall j :: 0 <= j < |rows| ==>
               cnt'[j] == cnt[j] + (if Credits(rows, cm, counts, nb, |nbrs|, j) then 1 else 0)
    requires forall j :: 0 <= j < |rows| ==>
               dsum'[j] == dsum[j] + (if Credits(rows, cm, counts, nb, |nbrs|, j) then Gap(rows, dist, |nbrs|, j) else 0.0)
    ensures Tallied(rows, cm, counts, dist, nbrs + [nb], cnt', dsum')
  {
    var next := nbrs + [nb];
    assert next[..|nbrs|] == nbrs;
    assert forall q :: 0 <= q < |nbrs| ==> next[q] == nbrs[q];
  }

  /**
   * `CalculateSamplingWeights`: the neighbour lists of every query, and
   * the weights their credits give.
   */
  method SamplingWeights(rows: seq<Sample>, cm: seq<seq<nat>>, counts: seq<nat>, dist: (seq<real>, seq<real>) -> real)
    returns (weights: seq<real>, nbrs: seq<seq<nat>>)
    requires Tables(rows, cm, counts)
    ensures |nbrs| == |rows| && AllWithin(nbrs, |rows|) && Queried(rows, counts, dist, nbrs)
    ensures weights == Weights(rows, cm, counts, nbrs, dist)
  {
    var roots := SquareClassCounts(counts);
    forall c | 1 <= c < |counts|
      ensures roots[c] == ISqrt(counts[c])
    {
      ISqrtUnique(counts[c], roots[c]);
    }
    var cnt, dsum;
    nbrs, cnt, dsum := TallyCredits(rows, cm, counts, roots, dist);
    weights := WeighRows(rows, cm, counts, roots, dist, nbrs, cnt, dsum);
  }

  /** The query loop: every row's neighbours found and credited. */
  method TallyCredits(rows: seq<Sample>, cm: seq<seq<nat>>, counts: seq<nat>, roots: seq<nat>,
                      dist: (seq<real>, seq<real>) -> real)
    returns (nbrs: seq<seq<nat>>, cnt: seq<nat>, dsum: seq<real>)
    requires Tables(rows, cm, counts)
    requires |roots| == |counts| && forall c :: 1 <= c < |counts| ==> roots[c] == ISqrt(counts[c])
    ensures |nbrs| == |rows| && Tallied(rows, cm, counts, dist, nbrs, cnt, dsum)
  {
    cnt := seq(|rows|, _ => 0);
    dsum := seq(|rows|, _ => 0.0);
    nbrs := [];
    for i := 0 to |rows|
      invariant |nbrs| == i && Tallied(rows, cm, counts, dist, nbrs, cnt, dsum)
    {
      var nb := HeapNearest(DistancesFrom(rows, i, dist), -1, roots[rows[i].cls]);
      var cnt', dsum' := CreditNeighbours(rows, cm, counts, dist, i, nb, cnt, dsum);
      TalliedStep(rows, cm, counts, dist, nbrs, cnt, dsum, nb, cnt', dsum');
      nbrs, cnt, dsum := nbrs + [nb], cnt', dsum';
    }
  }

  /** The weighing loop over the credit counts and credited distances. */
  method WeighRows(rows: seq<Sample>, cm: seq<seq<nat>>, counts: seq<nat>, roots: seq<nat>,
                   dist: (seq<real>, seq<real>) -> real, nbrs: seq<seq<nat>>, cnt: seq<nat>, dsum: seq<real>)
    returns (weights: seq<real>)
    requires Tables(rows, cm, counts)
    requires |roots| == |counts| && forall c :: 1 <= c < |counts| ==> roots[c] == ISqrt(counts[c])
    requires |nbrs| == |rows| && |cnt| == |rows| && |dsum| == |rows|
    requires forall j :: 0 <= j < |rows| ==> cnt[j] == CreditCount(rows, cm, counts, nbrs, j)
    requires forall j :: 0 <= j < |rows| ==> dsum[j] == CreditDistance(rows, cm, counts, nbrs, dist, j)
    ensures weights == Weights(rows, cm, counts, nbrs, dist)
  {
    ghost var goal := Weights(rows, cm, counts, nbrs, dist);
    weights := [];
    for j := 0 to |rows|
      invariant |weights| == j
      invariant forall e :: 0 <= e < j ==> weights[e] == goal[e]
    {
      var w := if dsum[j] == 0.0 then 0.0 else (cnt[j] as real) / dsum[j] * (roots[rows[j].cls] as real);
      assert w == Weight(cnt[j], dsum[j], ISqrt(counts[rows[j].cls])) == goal[j];
      weights := weights + [w];
    }
  }

  // ---------------------------------------------------------------------
  // What the weights mean.
  // ---------------------------------------------------------------------

  /** A query never credits itself: its class is no relative minority against itself. */
  lemma NoSelfCredit(rows: seq<Sample>, cm: seq<seq<nat>>, counts: seq<nat>, nb: seq<nat>, i: nat)
    requires Tables(rows, cm, counts) && i < |rows|
    ensures !Credits(rows, cm, counts, nb, i, i)
  {
    RelMinorityOrder(cm, counts, rows[i].cls, rows[i].cls);
  }

  /**
   * Credited distances are sums of distances, so never negative, and a
   * positive one comes with at least one credit.
   */
  lemma {:induction false} CreditDistanceFacts(rows: seq<Sample>, cm: seq<seq<nat>>, counts: seq<nat>,
                                               nbrs: seq<seq<nat>>, dist: (seq<real>, seq<real>) -> real, j: nat)
    requires IsDistance(dist) && Tables(rows, cm, counts) && |nbrs| <= |rows| && j < |rows|
    ensures CreditDistance(rows, cm, counts, nbrs, dist, j) >= 0.0
    ensures CreditDistance(rows, cm, counts, nbrs, dist, j) > 0.0 ==> CreditCount(rows, cm, counts, nbrs, j) >= 1
  {
    if nbrs != [] {
      CreditDistanceFacts(rows, cm, counts, nbrs[..|nbrs| - 1], dist, j);
      var i := |nbrs| - 1;
      assert Gap(rows, dist, i, j) >= 0.0;
    }
  }

  /**
   * A row's credit count never exceeds the number of queries whose class
   * is a relative minority against the row's class.
   */
  lemma {:induction false} CreditsOnlyFromRelativeMinorities(rows: seq<Sample>, cm: seq<seq<nat>>, counts: seq<nat>,
                                                             nbrs: seq<seq<nat>>, j: nat)
    requires Tables(rows, cm, counts) && |nbrs| <= |rows| && j < |rows|
    requires forall i :: 0 <= i < |nbrs| ==> !RelMinority(cm, counts, rows[i].cls, rows[j].cls)
    ensures CreditCount(rows, cm, counts, nbrs, j) == 0
  {
    if nbrs != [] {
      CreditsOnlyFromRelativeMinorities(rows, cm, counts, nbrs[..|nbrs| - 1], j);
    }
  }

  /** The table of counts of a table's own rows is positive at every row's class. */
  lemma CountsOfRowsPositive(rows: seq<Sample>, n: nat, j: nat)
    requires j < |rows| && rows[j].cls <= n
    ensures ClassCounts(rows, n)[rows[j].cls] >= 1
  {
    CountLabelBounds(rows, rows[j].cls);
  }

  /**
   * With the table's own class counts, every weight is non-negative, and a
   * weight is positive exactly when the row's credited distance is.
   */
  lemma WeightsSign(rows: seq<Sample>, n: nat, cm: seq<seq<nat>>, nbrs: seq<seq<nat>>,
                    dist: (seq<real>, seq<real>) -> real, j: nat)
    requires IsDistance(dist) && Tables(rows, cm, ClassCounts(rows, n)) && |nbrs| == |rows| && j < |rows|
    ensures var w := Weights(rows, cm, ClassCounts(rows, n), nbrs, dist);
            w[j] >= 0.0 && (w[j] > 0.0 <==> CreditDistance(rows, cm, ClassCounts(rows, n), nbrs, dist, j) > 0.0)
  {
    var counts := ClassCounts(rows, n);
    CreditDistanceFacts(rows, cm, counts, nbrs, dist, j);
    CountsOfRowsPositive(rows, n, j);
    ISqrtPositive(counts[rows[j].cls]);
    var cnt := CreditCount(rows, cm, counts, nbrs, j);
    var dsum := CreditDistance(rows, cm, counts, nbrs, dist, j);
    var root := ISqrt(counts[rows[j].cls]);
    if dsum > 0.0 {
      assert (cnt as real) / dsum > 0.0;
      PositiveProduct((cnt as real) / dsum, root as real);
    }
  }
}
