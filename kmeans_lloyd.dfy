/**
 * The Lloyd iteration shared by the two k-means++ implementations: each
 * round labels every row with its nearest centroid, measures the sum of
 * squared errors, and moves every centroid to the mean of its members.
 *
 * A centroid is `None` when it is the float NaN that `0 / 0` produces for a
 * cluster with no members; a distance to it is NaN as well, and every
 * comparison with NaN is false, so it is never anyone's nearest centroid.
 * The distance is a parameter (the programs use the Euclidean distance of
 * the feature columns); a row's label column is kept apart in `Sample.cls`.
 */
module Lloyd {
  import opened Samples

  type Centroid = Option<seq<real>>

  // ---------------------------------------------------------------------
  // The first strict minimum, as every "nearest" loop of the programs
  // computes it: start from FLT_MAX at index 0, move on `<` only.
  // ---------------------------------------------------------------------

  /**
   * The scan of `vals[..n]`.  It ends at index 0 with FLT_MAX when no
   * present value lies below FLT_MAX; otherwise at the lowest index of the
   * least present value.
   */
  function FirstBelow(vals: seq<Option<real>>, n: nat): (p: (nat, real))
    requires n <= |vals|
    ensures p.1 <= FLT_MAX
    ensures n >= 1 ==> p.0 < n
    ensures p.1 < FLT_MAX ==> p.0 < n && vals[p.0] == Some(p.1)
    ensures p.1 == FLT_MAX ==> p.0 == 0
    ensures forall e :: 0 <= e < n && vals[e].Some? ==> p.1 <= vals[e].value
    ensures forall e :: 0 <= e < p.0 && vals[e].Some? ==> p.1 < vals[e].value
  {
    if n == 0 then (0, FLT_MAX)
    else
      var p := FirstBelow(vals, n - 1);
      match vals[n - 1]
      case Some(v) => if v < p.1 then (n - 1, v) else p
      case None => p
  }

  /** The distances from `x` to every centroid; NaN for an empty cluster's. */
  function DistancesTo(x: seq<real>, cents: seq<Centroid>, dist: (seq<real>, seq<real>) -> real)
    : (d: seq<Option<real>>)
    ensures |d| == |cents|
  {
    seq(|cents|, c requires 0 <= c < |cents| =>
      match cents[c]
      case Some(m) => Some(dist(x, m))
      case None => None)
  }

  /** The nearest centroid's index and distance, as the assignment loop finds them. */
  function Nearest(x: seq<real>, cents: seq<Centroid>, dist: (seq<real>, seq<real>) -> real): (nat, real)
  {
    FirstBelow(DistancesTo(x, cents, dist), |cents|)
  }

  /** The inner assignment loop: one row against every centroid. */
  method NearestCentroid(x: seq<real>, cents: seq<Centroid>, dist: (seq<real>, seq<real>) -> real)
    returns (j: nat, best: real)
    ensures (j, best) == Nearest(x, cents, dist)
  {
    ghost var d := DistancesTo(x, cents, dist);
    j, best := 0, FLT_MAX;
    for c := 0 to |cents|
      invariant (j, best) == FirstBelow(d, c)
    {
      match cents[c]
      case Some(m) =>
        var e := dist(x, m);
        if e < best {
          j, best := c, e;
        }
      case None =>
    }
  }

  /**
   * The nearest centroid is a live one at least as close as every live
   * centroid and strictly closer than every live centroid before it, as
   * soon as some live centroid lies below FLT_MAX.
   */
  lemma NearestIsFirstClosest(x: seq<real>, cents: seq<Centroid>, dist: (seq<real>, seq<real>) -> real,
                              c: nat)
    requires c < |cents| && cents[c].Some? && dist(x, cents[c].value) < FLT_MAX
    ensures var (j, best) := Nearest(x, cents, dist);
            && j < |cents| && cents[j].Some? && best == dist(x, cents[j].value)
            && best <= dist(x, cents[c].value)
            && (c < j ==> best < dist(x, cents[c].value))
  {
    var d := DistancesTo(x, cents, dist);
    assert d[c] == Some(dist(x, cents[c].value));
  }

  // ---------------------------------------------------------------------
  // Labels and the two ways of measuring the error.
  // ---------------------------------------------------------------------

  /** Every row's nearest centroid. */
  function Labels(rows: seq<Sample>, cents: seq<Centroid>, dist: (seq<real>, seq<real>) -> real)
    : (labels: seq<nat>)
    ensures |labels| == |rows|
    ensures |cents| >= 1 ==> forall i :: 0 <= i < |rows| ==> labels[i] < |cents|
  {
    seq(|rows|, i requires 0 <= i < |rows| => Nearest(rows[i].features, cents, dist).0)
  }

  /** A squared error. */
  function Sq(e: real): real
  {
    e * e
  }

  /** The error summed in the assignment pass: the squared nearest distance of each of the first `n` rows. */
  function InPassError(rows: seq<Sample>, cents: seq<Centroid>, dist: (seq<real>, seq<real>) -> real,
                       n: nat): real
    requires n <= |rows|
  {
    if n == 0 then 0.0
    else
      InPassError(rows, cents, dist, n - 1) + Sq(Nearest(rows[n - 1].features, cents, dist).1)
  }

  /**
   * The error summed in a pass of its own: the squared distance of each of
   * the first `n` rows to its labelled centroid; NaN (`None`) from the
   * first row whose labelled centroid is NaN.
   */
  function SeparateError(rows: seq<Sample>, cents: seq<Centroid>, labels: seq<nat>,
                         dist: (seq<real>, seq<real>) -> real, n: nat): Option<real>
    requires n <= |rows| && n <= |labels|
    requires forall i :: 0 <= i < |labels| ==> labels[i] < |cents|
  {
    if n == 0 then Some(0.0)
    else
      var s := SeparateError(rows, cents, labels, dist, n - 1);
      var m := cents[labels[n - 1]];
      if s.Some? && m.Some? then
        Some(s.value + Sq(dist(rows[n - 1].features, m.value)))
      else None
  }

  /** The assignment pass of the baseline program: labels, and the error summed on the way. */
  method AssignInPass(rows: seq<Sample>, cents: seq<Centroid>, dist: (seq<real>, seq<real>) -> real)
    returns (labels: seq<nat>, sse: real)
    ensures labels == Labels(rows, cents, dist)
    ensures sse == InPassError(rows, cents, dist, |rows|)
  {
    labels, sse := [], 0.0;
    for i := 0 to |rows|
      invariant labels == Labels(rows[..i], cents, dist)
      invariant sse == InPassError(rows, cents, dist, i)
    {
      var j, best := NearestCentroid(rows[i].features, cents, dist);
      labels := labels + [j];
      sse := sse + Sq(best);
    }
  }

  /** The assignment pass of the proposed program: labels only. */
  method AssignNearest(rows: seq<Sample>, cents: seq<Centroid>, dist: (seq<real>, seq<real>) -> real)
    returns (labels: seq<nat>)
    ensures labels == Labels(rows, cents, dist)
  {
    labels := [];
    for i := 0 to |rows|
      invariant labels == Labels(rows[..i], cents, dist)
    {
      var j, _ := NearestCentroid(rows[i].features, cents, dist);
      labels := labels + [j];
    }
  }

  /** The error pass of the proposed program, once the labels are known. */
  method MeasureAssigned(rows: seq<Sample>, cents: seq<Centroid>, labels: seq<nat>,
                         dist: (seq<real>, seq<real>) -> real)
    returns (sse: Option<real>)
    requires |labels| == |rows| && forall i :: 0 <= i < |labels| ==> labels[i] < |cents|
    ensures sse == SeparateError(rows, cents, labels, dist, |rows|)
  {
    sse := Some(0.0);
    for i := 0 to |rows|
      invariant sse == SeparateError(rows, cents, labels, dist, i)
    {
      var m := cents[labels[i]];
      if sse.Some? && m.Some? {
        var e := dist(rows[i].features, m.value);
        sse := Some(sse.value + Sq(e));
      } else {
        sse := None;
      }
    }
  }

  /**
   * The two ways of measuring agree whenever every row has a live centroid
   * below FLT_MAX: the error pass then revisits exactly the nearest
   * distances.
   */
  lemma {:induction false} SeparateErrorAgrees(rows: seq<Sample>, cents: seq<Centroid>,
                                               dist: (seq<real>, seq<real>) -> real, n: nat)
    requires |cents| >= 1 && n <= |rows|
    requires forall i :: 0 <= i < |rows| ==> Nearest(rows[i].features, cents, dist).1 < FLT_MAX
    ensures SeparateError(rows, cents, Labels(rows, cents, dist), dist, n)
              == Some(InPassError(rows, cents, dist, n))
  {
    if n > 0 {
      var labels := Labels(rows, cents, dist);
      SeparateErrorAgrees(rows, cents, dist, n - 1);
      var x := rows[n - 1].features;
      NearestIsLive(x, cents, dist);
      var p := Nearest(x, cents, dist);
      assert labels[n - 1] == p.0;
      var prior := SeparateError(rows, cents, labels, dist, n - 1);
      assert prior == Some(InPassError(rows, cents, dist, n - 1));
      assert SeparateError(rows, cents, labels, dist, n)
               == Some(prior.value + Sq(dist(x, cents[p.0].value)));
    }
  }

  /** A nearest distance below FLT_MAX is the distance to the labelled, live, centroid. */
  lemma NearestIsLive(x: seq<real>, cents: seq<Centroid>, dist: (seq<real>, seq<real>) -> real)
    requires Nearest(x, cents, dist).1 < FLT_MAX
    ensures var p := Nearest(x, cents, dist);
            p.0 < |cents| && cents[p.0].Some? && dist(x, cents[p.0].value) == p.1
  {
    var p := Nearest(x, cents, dist);
    assert DistancesTo(x, cents, dist)[p.0] == Some(p.1);
  }

  // ---------------------------------------------------------------------
  // Moving the centroids.
  // ---------------------------------------------------------------------

  /** How many of the first `n` rows are labelled `c`. */
  function Size(labels: seq<nat>, c: nat, n: nat): nat
    requires n <= |labels|
  {
    if n == 0 then 0 else Size(labels, c, n - 1) + (if labels[n - 1] == c then 1 else 0)
  }

  /** Coordinate `d` summed over the first `n` rows labelled `c`. */
  function CoordSum(rows: seq<Sample>, labels: seq<nat>, c: nat, d: nat, n: nat): real
    requires n <= |labels| && n <= |rows|
  {
    if n == 0 then 0.0
    else
      CoordSum(rows, labels, c, d, n - 1)
        + (if labels[n - 1] == c && d < |rows[n - 1].features| then rows[n - 1].features[d] else 0.0)
  }

  /** The first `w` coordinate sums of cluster `c` over the first `n` rows. */
  function Sums(rows: seq<Sample>, labels: seq<nat>, c: nat, w: nat, n: nat): (s: seq<real>)
    requires n <= |labels| && n <= |rows|
    ensures |s| == w
  {
    seq(w, d requires 0 <= d < w => CoordSum(rows, labels, c, d, n))
  }

  /** A coordinate sum divided by a cluster size. */
  function Scaled(sum: seq<real>, size: nat): (m: seq<real>)
    requires size > 0
    ensures |m| == |sum|
  {
    seq(|sum|, d requires 0 <= d < |sum| => sum[d] / size as real)
  }

  /** A cluster's new centroid: the mean of its members, NaN when it has none. */
  function Mean(rows: seq<Sample>, labels: seq<nat>, c: nat, w: nat): Centroid
    requires |labels| == |rows|
  {
    var size := Size(labels, c, |labels|);
    if size == 0 then None
    else Some(Scaled(Sums(rows, labels, c, w, |labels|), size))
  }

  /** The update step: every cluster's mean. */
  function Means(rows: seq<Sample>, labels: seq<nat>, k: nat, w: nat): (cents: seq<Centroid>)
    requires |labels| == |rows|
    ensures |cents| == k
  {
    seq(k, c requires 0 <= c < k => Mean(rows, labels, c, w))
  }

  /** Adding one member's first `w` coordinates onto a running sum. */
  method AddMember(acc: seq<real>, x: seq<real>, w: nat) returns (acc': seq<real>)
    requires |acc| == w && |x| == w
    ensures acc' == seq(w, d requires 0 <= d < w => acc[d] + x[d])
  {
    acc' := acc;
    for d := 0 to w
      invariant |acc'| == w
      invariant forall e :: 0 <= e < d ==> acc'[e] == acc[e] + x[e]
      invariant forall e :: d <= e < w ==> acc'[e] == acc[e]
    {
      acc' := acc'[d := acc'[d] + x[d]];
    }
  }

  /** Dividing a sum by its cluster size, coordinate by coordinate: NaN for an empty cluster. */
  method DivideSum(sum: seq<real>, size: nat) returns (m: Centroid)
    ensures size == 0 ==> m == None
    ensures size > 0 ==> m == Some(Scaled(sum, size))
  {
    if size == 0 {
      return None;
    }
    var mean := sum;
    for d := 0 to |sum|
      invariant |mean| == |sum|
      invariant forall e :: 0 <= e < d ==> mean[e] == sum[e] / size as real
      invariant forall e :: d <= e < |sum| ==> mean[e] == sum[e]
    {
      mean := mean[d := mean[d] / size as real];
    }
    assert mean == Scaled(sum, size);
    m := Some(mean);
  }

  /** The accumulation loop after `i` rows: every cluster's size and coordinate sums. */
  ghost predicate Accumulated(rows: seq<Sample>, labels: seq<nat>, k: nat, w: nat, i: nat,
                              sizes: seq<nat>, sums: seq<seq<real>>)
    requires i <= |labels| && i <= |rows|
  {
    && |sizes| == k && |sums| == k
    && (forall c :: 0 <= c < k ==> sizes[c] == Size(labels, c, i))
    && (forall c :: 0 <= c < k ==> sums[c] == Sums(rows, labels, c, w, i))
  }

  /** One more row: its cluster grows by one member and by its coordinates. */
  lemma AccumulatedStep(rows: seq<Sample>, labels: seq<nat>, k: nat, w: nat, i: nat,
                        sizes: seq<nat>, sums: seq<seq<real>>, acc: seq<real>)
    requires |labels| == |rows| && i < |rows| && Width(rows, w) && labels[i] < k
    requires Accumulated(rows, labels, k, w, i, sizes, sums)
    requires acc == seq(w, d requires 0 <= d < w => sums[labels[i]][d] + rows[i].features[d])
    ensures Accumulated(rows, labels, k, w, i + 1,
                        sizes[labels[i] := sizes[labels[i]] + 1], sums[labels[i] := acc])
  {
    var sizes', sums' := sizes[labels[i] := sizes[labels[i]] + 1], sums[labels[i] := acc];
    forall c | 0 <= c < k
      ensures sums'[c] == Sums(rows, labels, c, w, i + 1)
    {
      if c == labels[i] {
        assert forall d :: 0 <= d < w ==>
          CoordSum(rows, labels, c, d, i + 1) == CoordSum(rows, labels, c, d, i) + rows[i].features[d];
      } else {
        assert forall d :: 0 <= d < w ==>
          CoordSum(rows, labels, c, d, i + 1) == CoordSum(rows, labels, c, d, i);
      }
    }
  }

  /**
   * The update step as the programs write it: zero the sums and sizes, add
   * every row onto its cluster, then divide.
   */
  method UpdateCentroids(rows: seq<Sample>, labels: seq<nat>, k: nat, w: nat) returns (cents: seq<Centroid>)
    requires |labels| == |rows| && Width(rows, w)
    requires forall i :: 0 <= i < |labels| ==> labels[i] < k
    ensures cents == Means(rows, labels, k, w)
  {
    var sizes: seq<nat> := seq(k, _ => 0);
    var sums: seq<seq<real>> := seq(k, _ => seq(w, _ => 0.0));
    for i := 0 to |rows|
      invariant Accumulated(rows, labels, k, w, i, sizes, sums)
    {
      var l := labels[i];
      var acc := AddMember(sums[l], rows[i].features, w);
      AccumulatedStep(rows, labels, k, w, i, sizes, sums, acc);
      sizes := sizes[l := sizes[l] + 1];
      sums := sums[l := acc];
    }
    cents := [];
    for c := 0 to k
      invariant |cents| == c
      invariant forall e :: 0 <= e < c ==> cents[e] == Mean(rows, labels, e, w)
    {
      var m := DivideSum(sums[c], sizes[c]);
      assert m == Mean(rows, labels, c, w) by {
        assert sums[c] == Sums(rows, labels, c, w, |labels|) && sizes[c] == Size(labels, c, |labels|);
      }
      cents := cents + [m];
    }
  }

  /** Every row belongs to exactly one cluster, so the sizes add up to the row count. */
  lemma {:induction false} SizesAddUp(labels: seq<nat>, k: nat, n: nat)
    requires n <= |labels| && forall i :: 0 <= i < |labels| ==> labels[i] < k
    ensures Sum(seq(k, c requires 0 <= c < k => Size(labels, c, n)), 0, k) == n
  {
    var s := seq(k, c requires 0 <= c < k => Size(labels, c, n));
    if n == 0 {
      SumZero(s, 0, k);
    } else {
      SizesAddUp(labels, k, n - 1);
      var t := seq(k, c requires 0 <= c < k => Size(labels, c, n - 1));
      SumShift(t, s, 0, k, labels[n - 1]);
    }
  }

  /** A cluster has members exactly when some row is labelled with it. */
  lemma {:induction false} SizePositiveIffMember(labels: seq<nat>, c: nat, n: nat)
    requires n <= |labels|
    ensures Size(labels, c, n) > 0 <==> exists i :: 0 <= i < n && labels[i] == c
  {
    if n > 0 {
      SizePositiveIffMember(labels, c, n - 1);
      if labels[n - 1] != c {
        assert forall i :: 0 <= i < n && labels[i] == c ==> i < n - 1;
      }
    }
  }

  /**
   * After the update a centroid is NaN exactly when no row was labelled
   * with it; in particular every row's own cluster is live.
   */
  lemma MeanLiveIffMember(rows: seq<Sample>, labels: seq<nat>, k: nat, w: nat, c: nat)
    requires |labels| == |rows| && c < k
    ensures Means(rows, labels, k, w)[c].Some? <==> exists i :: 0 <= i < |labels| && labels[i] == c
  {
    SizePositiveIffMember(labels, c, |labels|);
  }

  // ---------------------------------------------------------------------
  // Dropping the NaN centroids.
  // ---------------------------------------------------------------------

  /** The live entries, in order. */
  function Present<T>(s: seq<Option<T>>): (p: seq<T>)
    ensures |p| <= |s|
  {
    if s == [] then []
    else (if s[0].Some? then [s[0].value] else []) + Present(s[1..])
  }

  /** Number of live entries. */
  function LiveCount<T>(s: seq<Option<T>>): nat
  {
    if s == [] then 0 else (if s[0].Some? then 1 else 0) + LiveCount(s[1..])
  }

  /** Dropping keeps every live entry and nothing else. */
  lemma {:induction false} PresentExactly<T>(s: seq<Option<T>>)
    ensures |Present(s)| == LiveCount(s)
    ensures forall x :: x in Present(s) <==> Some(x) in s
  {
    if s != [] {
      PresentExactly(s[1..]);
      assert s == [s[0]] + s[1..];
      forall x
        ensures x in Present(s) <==> Some(x) in s
      {
        assert Some(x) in s <==> s[0] == Some(x) || Some(x) in s[1..];
      }
    }
  }

  /**
   * The erasing loop: from the last centroid down to the first, erase
   * every NaN one; the others keep their order.
   */
  method DropEmpty<T>(s: seq<Option<T>>) returns (out: seq<T>)
    ensures out == Present(s)
  {
    var cur := s;
    var c: nat := |s|;
    while c > 0
      invariant c <= |s|
      invariant cur == s[..c] + Wrap(Present(s[c..]))
    {
      c := c - 1;
      DropStep(s, c, cur);
      if cur[c].None? {
        cur := cur[..c] + cur[c + 1..];
      }
    }
    assert s[0..] == s;
    assert cur == Wrap(Present(s));
    out := Unwrap(cur);
    assert forall i :: 0 <= i < |out| ==> Wrap(out)[i] == Some(out[i]);
  }

  /** One step of the erasing loop keeps its invariant. */
  lemma DropStep<T>(s: seq<Option<T>>, c: nat, cur: seq<Option<T>>)
    requires c < |s| && cur == s[..c + 1] + Wrap(Present(s[c + 1..]))
    ensures cur[c] == s[c]
    ensures cur[c].None? ==> cur[..c] + cur[c + 1..] == s[..c] + Wrap(Present(s[c..]))
    ensures cur[c].Some? ==> cur == s[..c] + Wrap(Present(s[c..]))
  {
    assert s[c..] == [s[c]] + s[c + 1..];
    assert s[..c + 1] == s[..c] + [s[c]];
    if s[c].None? {
      assert Present(s[c..]) == Present(s[c + 1..]);
      assert cur[..c] == s[..c];
      assert cur[c + 1..] == Wrap(Present(s[c + 1..]));
    } else {
      assert Present(s[c..]) == [s[c].value] + Present(s[c + 1..]);
      assert Wrap(Present(s[c..])) == [s[c]] + Wrap(Present(s[c + 1..]));
    }
  }

  /** Entries made live. */
  function Wrap<T>(s: seq<T>): (w: seq<Option<T>>)
    ensures |w| == |s| && forall i :: 0 <= i < |s| ==> w[i] == Some(s[i])
  {
    seq(|s|, i requires 0 <= i < |s| => Some(s[i]))
  }

  /** Reading back the values of live entries. */
  method Unwrap<T>(s: seq<Option<T>>) returns (out: seq<T>)
    requires exists t :: s == Wrap(t)
    ensures Wrap(out) == s
  {
    out := [];
    for i := 0 to |s|
      invariant Wrap(out) == s[..i]
    {
      out := out + [s[i].value];
    }
  }

  // ---------------------------------------------------------------------
  // The iteration.
  // ---------------------------------------------------------------------

  /** Where the error is measured: in the assignment pass, or in a pass of its own. */
  datatype Measure = InPass | Separately

  /** One round's error; NaN is `None`. */
  function RoundError(how: Measure, rows: seq<Sample>, cents: seq<Centroid>,
                      dist: (seq<real>, seq<real>) -> real): Option<real>
    requires |cents| >= 1
  {
    match how
    case InPass => Some(InPassError(rows, cents, dist, |rows|))
    case Separately => SeparateError(rows, cents, Labels(rows, cents, dist), dist, |rows|)
  }

  /** The loop condition `previous - current > tolerance`; false when either is NaN. */
  predicate Improved(prev: Option<real>, cur: Option<real>, tol: real)
  {
    prev.Some? && cur.Some? && prev.value - cur.value > tol
  }

  /** The centroids a run ends with and the number of rounds it takes. */
  datatype Run = Run(cents: seq<Centroid>, rounds: nat)

  /**
   * The do-while loop from round `iter` on, `prev` being the error of the
   * round before (FLT_MAX before the first): one round, then stop when the
   * round counter passes `maxIter` or the error did not improve by more
   * than `tol`.
   */
  function Iterate(how: Measure, rows: seq<Sample>, cents: seq<Centroid>, dist: (seq<real>, seq<real>) -> real,
                   w: nat, maxIter: nat, tol: real, iter: nat, prev: Option<real>): (r: Run)
    requires |cents| >= 1 && iter <= maxIter
    ensures |r.cents| == |cents|
    ensures 1 <= r.rounds <= maxIter + 1 - iter
    decreases maxIter - iter
  {
    var labels := Labels(rows, cents, dist);
    var sse := RoundError(how, rows, cents, dist);
    var next := Means(rows, labels, |cents|, w);
    if iter + 1 > maxIter || !Improved(prev, sse, tol) then Run(next, 1)
    else
      var r := Iterate(how, rows, next, dist, w, maxIter, tol, iter + 1, sse);
      Run(r.cents, r.rounds + 1)
  }

  /**
   * The loop stops after its first round exactly when that round is the
   * last one allowed or its error did not improve on `prev` by more than
   * `tol`.
   */
  lemma StopsAfterOneRound(how: Measure, rows: seq<Sample>, cents: seq<Centroid>,
                           dist: (seq<real>, seq<real>) -> real, w: nat, maxIter: nat, tol: real,
                           iter: nat, prev: Option<real>)
    requires |cents| >= 1 && iter <= maxIter
    ensures Iterate(how, rows, cents, dist, w, maxIter, tol, iter, prev).rounds == 1
        <==> (iter == maxIter || !Improved(prev, RoundError(how, rows, cents, dist), tol))
  {
    if iter < maxIter && Improved(prev, RoundError(how, rows, cents, dist), tol) {
      var next := Means(rows, Labels(rows, cents, dist), |cents|, w);
      var r := Iterate(how, rows, next, dist, w, maxIter, tol, iter + 1, RoundError(how, rows, cents, dist));
      assert r.rounds >= 1;
    }
  }

  /**
   * Every centroid a run ends with is either NaN or the mean of the rows
   * the last round labelled with it: a run ends on an update step.
   */
  lemma {:induction false} RunEndsOnMeans(how: Measure, rows: seq<Sample>, cents: seq<Centroid>,
                                          dist: (seq<real>, seq<real>) -> real, w: nat, maxIter: nat,
                                          tol: real, iter: nat, prev: Option<real>)
    requires |cents| >= 1 && iter <= maxIter
    ensures exists last: seq<Centroid> :: |last| == |cents|
              && Iterate(how, rows, cents, dist, w, maxIter, tol, iter, prev).cents
                   == Means(rows, Labels(rows, last, dist), |cents|, w)
    decreases maxIter - iter
  {
    var next := Means(rows, Labels(rows, cents, dist), |cents|, w);
    var sse := RoundError(how, rows, cents, dist);
    if iter + 1 > maxIter || !Improved(prev, sse, tol) {
      assert Iterate(how, rows, cents, dist, w, maxIter, tol, iter, prev).cents == next;
    } else {
      RunEndsOnMeans(how, rows, next, dist, w, maxIter, tol, iter + 1, sse);
      var last: seq<Centroid> :| |last| == |next|
        && Iterate(how, rows, next, dist, w, maxIter, tol, iter + 1, sse).cents
             == Means(rows, Labels(rows, last, dist), |next|, w);
    }
  }

  /** The loop state before a round: the rest of the run is still to come. */
  lemma IterateUnfold(how: Measure, rows: seq<Sample>, cents: seq<Centroid>, dist: (seq<real>, seq<real>) -> real,
                      w: nat, maxIter: nat, tol: real, iter: nat, prev: Option<real>)
    requires |cents| >= 1 && iter <= maxIter
    ensures var next := Means(rows, Labels(rows, cents, dist), |cents|, w);
            var sse := RoundError(how, rows, cents, dist);
            Iterate(how, rows, cents, dist, w, maxIter, tol, iter, prev).cents
              == if iter + 1 > maxIter || !Improved(prev, sse, tol) then next
                 else Iterate(how, rows, next, dist, w, maxIter, tol, iter + 1, sse).cents
  {
  }
}
