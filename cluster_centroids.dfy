/**
 * Cluster-centroids under-sampling: the rows are grouped by class, the
 * count `m` of the least-populous class becomes the number of clusters,
 * and every class 1..n is replaced by the live centroids of a baseline
 * k-means++ run over its own rows, labelled with the class.  The table
 * ends up holding the classes' centroid blocks in ascending class order.
 *
 * The random choices of each class's run are inputs: `firsts[c - 1]` is
 * the uniformly drawn first seed of class `c` (a position within its
 * rows) and `draws[c - 1]` its `m - 1` roulette draws.
 */
module ClusterCentroids {
  import opened Samples
  import opened ClassStats
  import opened Lloyd
  import opened Seeding
  import BaselineKMeans

  /** What the baseline k-means++ returns for the rows `g` of one class. */
  function Centroids(g: seq<Sample>, m: nat, maxIter: nat, tol: real, first: nat, draws: seq<real>,
                     dist: (seq<real>, seq<real>) -> real): seq<seq<real>>
    requires first < |g| && m >= 1 && |draws| == m - 1
  {
    var init := SeedCentroids(g, BaselineKMeans.Seeds(g, dist, first, draws));
    Present(Iterate(InPass, g, init, dist, |g[0].features|, maxIter, tol, 0, Some(FLT_MAX)).cents)
  }

  /** Centroids given the label of their class in the last column. */
  function Labelled(cents: seq<seq<real>>, c: nat): (block: seq<Sample>)
    ensures |block| == |cents|
  {
    seq(|cents|, i requires 0 <= i < |cents| => Sample(cents[i], c))
  }

  /** The centroid blocks of classes 1..k, block `c` labelled `c`, one after the other. */
  function Stacked(runs: seq<seq<seq<real>>>, k: nat): seq<Sample>
    requires k <= |runs|
  {
    if k == 0 then [] else Stacked(runs, k - 1) + Labelled(runs[k - 1], k)
  }

  /** The size of the least-populous class among 1..n. */
  function LeastCount(rows: seq<Sample>, n: nat): nat
    requires 1 <= n
  {
    CountLabel(rows, LeastClass(ClassCounts(rows, n), n))
  }

  /** The random inputs fit: one first seed within each class, `m - 1` draws each. */
  predicate Fits(rows: seq<Sample>, n: nat, m: nat, firsts: seq<nat>, draws: seq<seq<real>>)
  {
    m >= 1 && |firsts| == n && |draws| == n
    && forall i :: 0 <= i < n ==> firsts[i] < |RowsOf(rows, i + 1)| && |draws[i]| == m - 1
  }

  /** `runs[i]` is the outcome of the run over the rows of class `i + 1`, for each run so far. */
  ghost predicate ClassRuns(rows: seq<Sample>, m: nat, maxIter: nat, tol: real, firsts: seq<nat>,
                            draws: seq<seq<real>>, dist: (seq<real>, seq<real>) -> real,
                            runs: seq<seq<seq<real>>>)
    requires Fits(rows, |firsts|, m, firsts, draws)
  {
    |runs| <= |firsts|
    && forall i :: 0 <= i < |runs| ==> runs[i] == Centroids(RowsOf(rows, i + 1), m, maxIter, tol, firsts[i], draws[i], dist)
  }

  /** Labels never decrease along the table. */
  ghost predicate ClassOrdered(rows: seq<Sample>)
  {
    forall i, j :: 0 <= i < j < |rows| ==> rows[i].cls <= rows[j].cls
  }

  // ---------------------------------------------------------------------
  // The steps of the program.
  // ---------------------------------------------------------------------

  /** The grouping loop: each row appended to the list of its class. */
  method GroupByClass(rows: seq<Sample>, n: nat) returns (groups: seq<seq<Sample>>)
    requires forall i :: 0 <= i < |rows| ==> rows[i].cls <= n
    ensures |groups| == n + 1
    ensures forall c :: 0 <= c <= n ==> groups[c] == RowsOf(rows, c)
  {
    groups := seq(n + 1, _ => []);
    for i := 0 to |rows|
      invariant |groups| == n + 1
      invariant forall c :: 0 <= c <= n ==> groups[c] == RowsOf(rows[..i], c)
    {
      var l := rows[i].cls;
      assert rows[..i + 1][..i] == rows[..i];
      groups := groups[l := groups[l] + [rows[i]]];
    }
    assert rows[..|rows|] == rows;
  }

  /** The labelling loop: every centroid gets the class in its last column. */
  method LabelCentroids(cents: seq<seq<real>>, c: nat) returns (block: seq<Sample>)
    ensures |block| == |cents|
    ensures forall i :: 0 <= i < |block| ==> block[i].features == cents[i] && block[i].cls == c
  {
    block := [];
    for i := 0 to |cents|
      invariant |block| == i
      invariant forall e :: 0 <= e < i ==> block[e].features == cents[e] && block[e].cls == c
    {
      block := block + [Sample(cents[i], c)];
    }
  }

  /** One class's k-means++ run with `m` clusters. */
  method ClassRun(g: seq<Sample>, m: nat, maxIter: nat, tol: real, first: nat, draws: seq<real>,
                  dist: (seq<real>, seq<real>) -> real)
    returns (cents: seq<seq<real>>)
    requires first < |g| && m >= 1 && |draws| == m - 1
    requires Width(g, |g[0].features|)
    ensures cents == Centroids(g, m, maxIter, tol, first, draws, dist)
  {
    cents := BaselineKMeans.KMeansPP(g, m, maxIter, tol, first, draws, dist);
  }

  /**
   * `ClusterCentroids`: the table becomes the labelled centroid blocks of
   * classes 1..n, each from a run with `m` clusters, `m` the least class
   * count; `runs` are the runs' centroids, class by class.
   */
  method Resample(rows: seq<Sample>, n: nat, maxIter: nat, tol: real, firsts: seq<nat>,
                  draws: seq<seq<real>>, dist: (seq<real>, seq<real>) -> real)
    returns (out: seq<Sample>, runs: seq<seq<seq<real>>>)
    requires rows != [] && 1 <= n && LabelsIn(rows, n)
    requires Width(rows, |rows[0].features|)
    requires Fits(rows, n, LeastCount(rows, n), firsts, draws)
    ensures |runs| == n && ClassRuns(rows, LeastCount(rows, n), maxIter, tol, firsts, draws, dist, runs)
    ensures out == Stacked(runs, n)
  {
    var counts := TallyLabels(rows, n);
    var groups := GroupByClass(rows, n);
    var m := counts[LeastClass(counts, n)];
    assert m == LeastCount(rows, n);
    out := [];
    runs := [];
    for c := 1 to n + 1
      invariant |runs| == c - 1
      invariant ClassRuns(rows, m, maxIter, tol, firsts, draws, dist, runs)
      invariant out == Stacked(runs, |runs|)
    {
      var g := groups[c];
      assert firsts[c - 1] < |RowsOf(rows, c)|;
      RowsOfWidth(rows, c, |rows[0].features|);
      assert g[0] in g;
      assert Fits(rows, |firsts|, m, firsts, draws);
      assert |runs| < |firsts|;
      assert g == RowsOf(rows, |runs| + 1);
      assert g != [];
      assert Width(g, |g[0].features|);
      assert ClassRuns(rows, m, maxIter, tol, firsts, draws, dist, runs);
      assert out == Stacked(runs, |runs|);
      runs, out := Extend(rows, m, maxIter, tol, firsts, draws, dist, g, runs, out);
    }
  }

  /** One class of the resampling loop: its run's centroids, labelled and appended. */
  method Extend(rows: seq<Sample>, m: nat, maxIter: nat, tol: real, firsts: seq<nat>,
                draws: seq<seq<real>>, dist: (seq<real>, seq<real>) -> real, g: seq<Sample>,
                runs: seq<seq<seq<real>>>, out: seq<Sample>)
    returns (runs': seq<seq<seq<real>>>, out': seq<Sample>)
    requires Fits(rows, |firsts|, m, firsts, draws) && |runs| < |firsts|
    requires g == RowsOf(rows, |runs| + 1) && g != [] && Width(g, |g[0].features|)
    requires ClassRuns(rows, m, maxIter, tol, firsts, draws, dist, runs) && out == Stacked(runs, |runs|)
    ensures |runs'| == |runs| + 1 && ClassRuns(rows, m, maxIter, tol, firsts, draws, dist, runs')
    ensures out' == Stacked(runs', |runs'|)
  {
    var c := |runs| + 1;
    var cents := ClassRun(g, m, maxIter, tol, firsts[c - 1], draws[c - 1], dist);
    var block := LabelCentroids(cents, c);
    assert block == Labelled(cents, c);
    StackedSnoc(runs, cents);
    ClassRunsSnoc(rows, m, maxIter, tol, firsts, draws, dist, runs, cents);
    runs' := runs + [cents];
    out' := out + block;
  }

  /** The next class's run extends the runs so far. */
  lemma ClassRunsSnoc(rows: seq<Sample>, m: nat, maxIter: nat, tol: real, firsts: seq<nat>,
                      draws: seq<seq<real>>, dist: (seq<real>, seq<real>) -> real,
                      runs: seq<seq<seq<real>>>, cents: seq<seq<real>>)
    requires Fits(rows, |firsts|, m, firsts, draws)
    requires ClassRuns(rows, m, maxIter, tol, firsts, draws, dist, runs) && |runs| < |firsts|
    requires cents == Centroids(RowsOf(rows, |runs| + 1), m, maxIter, tol, firsts[|runs|], draws[|runs|], dist)
    ensures ClassRuns(rows, m, maxIter, tol, firsts, draws, dist, runs + [cents])
  {
    var next := runs + [cents];
    forall i | 0 <= i < |next|
      ensures next[i] == Centroids(RowsOf(rows, i + 1), m, maxIter, tol, firsts[i], draws[i], dist)
    {
      if i < |runs| {
        assert next[i] == runs[i];
      }
    }
  }

  // ---------------------------------------------------------------------
  // What the resampling achieves.
  // ---------------------------------------------------------------------

  /** The rows of a class share the width of the table. */
  lemma {:induction false} RowsOfWidth(rows: seq<Sample>, c: nat, w: nat)
    requires Width(rows, w)
    ensures Width(RowsOf(rows, c), w)
  {
    if rows != [] {
      RowsOfWidth(rows[..|rows| - 1], c, w);
    }
  }

  /** A further run leaves the blocks stacked so far alone. */
  lemma {:induction false} StackedExtend(runs: seq<seq<seq<real>>>, x: seq<seq<real>>, k: nat)
    requires k <= |runs|
    ensures Stacked(runs + [x], k) == Stacked(runs, k)
  {
    if k > 0 {
      StackedExtend(runs, x, k - 1);
      assert (runs + [x])[k - 1] == runs[k - 1];
    }
  }

  /** A further run adds its labelled block at the end. */
  lemma StackedSnoc(runs: seq<seq<seq<real>>>, x: seq<seq<real>>)
    ensures Stacked(runs + [x], |runs| + 1) == Stacked(runs, |runs|) + Labelled(x, |runs| + 1)
  {
    var y, k := runs + [x], |runs|;
    assert y[k] == x;
    calc {
      Stacked(y, k + 1);
      Stacked(y, k) + Labelled(y[k], k + 1);
      { StackedExtend(runs, x, k); }
      Stacked(runs, k) + Labelled(x, k + 1);
    }
  }

  /** The least count is the count of some class and no class has fewer rows. */
  lemma LeastCountFacts(rows: seq<Sample>, n: nat)
    requires 1 <= n
    ensures exists c :: 1 <= c <= n && LeastCount(rows, n) == CountLabel(rows, c)
    ensures forall c :: 1 <= c <= n ==> LeastCount(rows, n) <= CountLabel(rows, c)
  {
    var counts := ClassCounts(rows, n);
    LeastClassIsFirstMinimum(counts, n);
    var least := LeastClass(counts, n);
    assert LeastCount(rows, n) == counts[least] == CountLabel(rows, least);
    forall c | 1 <= c <= n
      ensures LeastCount(rows, n) <= CountLabel(rows, c)
    {
      assert counts[least] <= counts[c] == CountLabel(rows, c);
    }
  }

  /** A run over at least one row ends with at least one live centroid. */
  lemma RunKeepsLiveCentroid(how: Measure, rows: seq<Sample>, cents: seq<Centroid>,
                             dist: (seq<real>, seq<real>) -> real, w: nat, maxIter: nat, tol: real)
    requires rows != [] && |cents| >= 1
    ensures |Present(Iterate(how, rows, cents, dist, w, maxIter, tol, 0, Some(FLT_MAX)).cents)| >= 1
  {
    var end := Iterate(how, rows, cents, dist, w, maxIter, tol, 0, Some(FLT_MAX)).cents;
    RunEndsOnMeans(how, rows, cents, dist, w, maxIter, tol, 0, Some(FLT_MAX));
    var last: seq<Centroid> :| |last| == |cents| && end == Means(rows, Labels(rows, last, dist), |cents|, w);
    var labels := Labels(rows, last, dist);
    MeanLiveIffMember(rows, labels, |cents|, w, labels[0]);
    PresentExactly(end);
    assert Some(end[labels[0]].value) in end;
  }

  /** A class's run keeps between one and `m` centroids. */
  lemma CentroidsCount(g: seq<Sample>, m: nat, maxIter: nat, tol: real, first: nat, draws: seq<real>,
                       dist: (seq<real>, seq<real>) -> real)
    requires first < |g| && m >= 1 && |draws| == m - 1
    ensures 1 <= |Centroids(g, m, maxIter, tol, first, draws, dist)| <= m
  {
    var init := SeedCentroids(g, BaselineKMeans.Seeds(g, dist, first, draws));
    RunKeepsLiveCentroid(InPass, g, init, dist, |g[0].features|, maxIter, tol);
  }

  /** In a block of one class, the count of a label is the block size or zero. */
  lemma {:induction false} CountSame(block: seq<Sample>, l: nat, c: nat)
    requires forall j :: 0 <= j < |block| ==> block[j].cls == l
    ensures CountLabel(block, c) == if c == l then |block| else 0
  {
    if block != [] {
      CountSame(block[..|block| - 1], l, c);
    }
  }

  /** Each class 1..k appears as often as its run has centroids, and no other label appears. */
  lemma {:induction false} StackedCounts(runs: seq<seq<seq<real>>>, k: nat, c: nat)
    requires k <= |runs|
    ensures CountLabel(Stacked(runs, k), c) == if 1 <= c <= k then |runs[c - 1]| else 0
  {
    if k > 0 {
      StackedCounts(runs, k - 1, c);
      CountLabelAppend(Stacked(runs, k - 1), Labelled(runs[k - 1], k), c);
      CountSame(Labelled(runs[k - 1], k), k, c);
    }
  }

  /** Runs of between one and `m` centroids stack to between `k` and `k * m` rows. */
  lemma {:induction false} StackedSize(runs: seq<seq<seq<real>>>, k: nat, m: nat)
    requires k <= |runs|
    requires forall i :: 0 <= i < |runs| ==> 1 <= |runs[i]| <= m
    ensures k <= |Stacked(runs, k)| <= k * m
  {
    if k > 0 {
      StackedSize(runs, k - 1, m);
      assert k * m == (k - 1) * m + m;
    }
  }

  /** The blocks of classes 1..k hold labels 1..k only, in ascending order. */
  lemma {:induction false} StackedOrdered(runs: seq<seq<seq<real>>>, k: nat)
    requires k <= |runs|
    ensures LabelsIn(Stacked(runs, k), k)
    ensures ClassOrdered(Stacked(runs, k))
  {
    if k > 0 {
      StackedOrdered(runs, k - 1);
      var front := Stacked(runs, k - 1);
      var all := Stacked(runs, k);
      assert forall i :: 0 <= i < |all| ==> all[i].cls == if i < |front| then front[i].cls else k;
    }
  }

  /**
   * The resampled table is balanced: each class 1..n keeps between one and
   * `m` rows and no other label appears; it has between `n` and `n * m`
   * rows, and its labels come in ascending class order.
   */
  lemma ResampledFacts(rows: seq<Sample>, n: nat, m: nat, maxIter: nat, tol: real, firsts: seq<nat>,
                       draws: seq<seq<real>>, dist: (seq<real>, seq<real>) -> real, runs: seq<seq<seq<real>>>)
    requires Fits(rows, n, m, firsts, draws)
    requires |runs| == n && ClassRuns(rows, m, maxIter, tol, firsts, draws, dist, runs)
    ensures var out := Stacked(runs, n);
            (forall c :: 1 <= c <= n ==> 1 <= CountLabel(out, c) <= m)
            && (forall c :: c == 0 || c > n ==> CountLabel(out, c) == 0)
            && n <= |out| <= n * m && LabelsIn(out, n) && ClassOrdered(out)
  {
    forall i | 0 <= i < n
      ensures 1 <= |runs[i]| <= m
    {
      CentroidsCount(RowsOf(rows, i + 1), m, maxIter, tol, firsts[i], draws[i], dist);
    }
    forall c: nat
      ensures CountLabel(Stacked(runs, n), c) == if 1 <= c <= n then |runs[c - 1]| else 0
    {
      StackedCounts(runs, n, c);
    }
    StackedSize(runs, n, m);
    StackedOrdered(runs, n);
  }
}
