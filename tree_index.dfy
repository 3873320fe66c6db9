/**
 * The decision tree of the edited-nearest-neighbours experiment: a
 * partition is a list of row indices built by appending, every candidate
 * midpoint is scored by building the two index lists, an earlier
 * candidate and an earlier feature win ties (`<`, `>`), the majority scan
 * compares classes 2..n against class 1, and the size of a node is the
 * length of its index list.
 *
 * Each method is proved to compute what `TreeSpec` defines for `IndexPolicy`.
 */
module IndexTree {
  import opened Samples
  import opened Gini
  import opened Sorting
  import opened TreeSpec
  import opened TreeFacts
  import opened TreeLoops

  const IndexPolicy: Policy := Policy(false, false, false, false)

  /** Class counts of the rows an index list names. */
  method CountClasses(rows: seq<Sample>, n: nat, P: seq<nat>) returns (counts: seq<nat>)
    requires LabelsIn(rows, n) && InRows(rows, P)
    ensures counts == PartCounts(rows, P, n)
  {
    var a := new nat[n + 1](_ => 0);
    for i := 0 to |P|
      invariant forall c :: 0 <= c <= n ==> a[c] == CountLabel(Gather(rows, P[..i]), c)
    {
      assert Gather(rows, P[..i + 1]) == Gather(rows, P[..i]) + [rows[P[i]]];
      forall c | 0 <= c <= n
        ensures CountLabel(Gather(rows, P[..i + 1]), c)
                == CountLabel(Gather(rows, P[..i]), c) + (if rows[P[i]].cls == c then 1 else 0)
      {
        CountLabelAppend(Gather(rows, P[..i]), [rows[P[i]]], c);
        CountLabelOne(rows[P[i]], c);
      }
      var cls := rows[P[i]].cls;
      a[cls] := a[cls] + 1;
    }
    assert P[..|P|] == P;
    counts := a[..];
  }

  /**
   * The weighted Gini index of two non-empty index lists; the program
   * divides by each list's length without checking it.
   */
  method CalculateGini(rows: seq<Sample>, n: nat, yes: seq<nat>, no: seq<nat>) returns (score: real)
    requires LabelsIn(rows, n) && InRows(rows, yes) && InRows(rows, no)
    requires |yes| > 0 && |no| > 0
    ensures score == WeightedGini(PartCounts(rows, yes, n), |yes|, PartCounts(rows, no, n), |no|)
  {
    var countsY := CountClasses(rows, n, yes);
    var countsN := CountClasses(rows, n, no);
    var giniY := SubtractSquaredShares(countsY, |yes|);
    var giniN := SubtractSquaredShares(countsN, |no|);
    var total := (|yes| + |no|) as real;
    score := (|yes| as real / total) * giniY + (|no| as real / total) * giniN;
  }

  /** Feature `f` of the listed rows, appended in list order. */
  method SelectFeature(rows: seq<Sample>, P: seq<nat>, f: nat) returns (selected: seq<real>)
    requires InRows(rows, P) && HasFeature(rows, f)
    ensures selected == Values(rows, P, f)
  {
    selected := [];
    for i := 0 to |P|
      invariant selected == Values(rows, P[..i], f)
    {
      selected := selected + [rows[P[i]].features[f]];
    }
    assert P[..|P|] == P;
  }

  /** The two index lists of splitting `P` at `f <= t`, in the order of `P`. */
  method SplitIndices(rows: seq<Sample>, P: seq<nat>, f: nat, t: real) returns (yes: seq<nat>, no: seq<nat>)
    requires InRows(rows, P) && HasFeature(rows, f)
    ensures yes == Below(rows, P, f, t) && no == Above(rows, P, f, t)
  {
    yes, no := [], [];
    for i := 0 to |P|
      invariant yes == Below(rows, P[..i], f, t) && no == Above(rows, P[..i], f, t)
    {
      assert P[..i + 1][..i] == P[..i];
      if rows[P[i]].features[f] <= t {
        yes := yes + [P[i]];
      } else {
        no := no + [P[i]];
      }
    }
    assert P[..|P|] == P;
  }

  /** The best split point of feature `f` on `P`, the first of equal scores kept. */
  method EvaluateSplitPoint(rows: seq<Sample>, P: seq<nat>, n: nat, f: nat) returns (best: SplitPoint)
    requires LabelsIn(rows, n) && InRows(rows, P) && HasFeature(rows, f)
    ensures best == FeatureBest(rows, P, n, f, IndexPolicy)
  {
    var selected := SelectFeature(rows, P, f);
    var sorted := Sort(selected);
    ghost var sc := CandidateScores(rows, P, n, f, sorted);
    best := SplitPoint(f, 0.0, NoSplitScore);
    var j := 1;
    while j < |sorted|
      invariant 1 <= j && best.feature == f
      invariant ScanFrom(f, false, sorted, sc, j, best) == FeatureBest(rows, P, n, f, IndexPolicy)
    {
      best := TryCandidate(rows, P, n, f, sorted, j, best);
      j := j + 1;
    }
  }

  /**
   * The loop body of `EvaluateSplitPoint`: positions with equal neighbours
   * are skipped; otherwise the split at the midpoint is scored and kept when
   * strictly better than the best so far.
   */
  method TryCandidate(rows: seq<Sample>, P: seq<nat>, n: nat, f: nat, sorted: seq<real>, j: nat,
                      best: SplitPoint) returns (next: SplitPoint)
    requires LabelsIn(rows, n) && InRows(rows, P) && HasFeature(rows, f)
    requires sorted == Sort(Values(rows, P, f)) && 1 <= j < |sorted|
    requires best.feature == f
    ensures next.feature == f
    ensures var sc := CandidateScores(rows, P, n, f, sorted);
            ScanFrom(f, false, sorted, sc, j, best) == ScanFrom(f, false, sorted, sc, j + 1, next)
  {
    ghost var sc := CandidateScores(rows, P, n, f, sorted);
    next := best;
    if sorted[j - 1] == sorted[j] {
      ScanAdvance(f, false, sorted, sc, j, best, next);
      return;
    }
    var mid := (sorted[j - 1] + sorted[j]) / 2.0;
    assert mid == CandidateValue(sorted, j);
    var yes, no := SplitIndices(rows, P, f, mid);
    CandidateSplitsBothWays(rows, P, f, j);
    SplitSizes(rows, P, f, mid);
    var score := CalculateGini(rows, n, yes, no);
    CandidateScoreAt(rows, P, n, f, sorted, j);
    assert score == Score(rows, P, n, f, mid) == sc[j];
    if score < best.score {
      next := best.(score := score, value := mid);
    }
    ScanAdvance(f, false, sorted, sc, j, best, next);
  }

  /** The best split point over features 0..d-1, the first of equal scores kept. */
  method BestOverFeatures(rows: seq<Sample>, n: nat, d: nat, P: seq<nat>) returns (split: SplitPoint)
    requires Fits(rows, n, d) && InRows(rows, P)
    ensures split == BestSplit(rows, P, n, d, IndexPolicy)
  {
    ghost var fbs := FeatureBests(rows, P, n, d, IndexPolicy);
    split := SplitPoint(0, 0.0, NoSplitScore);
    for f := 0 to d
      invariant AcrossFrom(fbs, false, f, split) == BestSplit(rows, P, n, d, IndexPolicy)
    {
      var local := EvaluateSplitPoint(rows, P, n, f);
      if split.score > local.score {
        split := local;
      }
    }
  }

  /** Majority over classes 2..n against class 1: the lowest class of largest count. */
  method MajorityClass(n: nat, counts: seq<nat>) returns (majority: nat)
    requires n >= 1 && |counts| == n + 1
    ensures 1 <= majority <= n && majority == Majority(counts, false)
  {
    majority := 1;
    for c := 2 to n + 1
      invariant 1 <= majority <= n
      invariant ArgMaxFrom(counts, c, majority) == Majority(counts, false)
    {
      if counts[majority] < counts[c] {
        majority := c;
      }
    }
  }

  /**
   * Grows the subtree of the listed rows.  A side that receives no row gets
   * no child, and the program then recurses for ever on the other side;
   * the model reports `Loops` there.
   */
  method FindBestSplitPoint(rows: seq<Sample>, n: nat, d: nat, eta: nat, pi: real, P: seq<nat>)
    returns (o: Outcome)
    requires Fits(rows, n, d) && InRows(rows, P)
    ensures o == Build(rows, n, d, eta, pi, IndexPolicy, P)
    decreases |P|, 1
  {
    var counts := CountClasses(rows, n, P);
    var majority := MajorityClass(n, counts);
    if |P| <= eta || counts[majority] as real / |P| as real >= pi {
      assert IsLeafNode(counts, majority, |P|, eta, pi);
      return Finished(Leaf(majority));
    }

    o := SplitNode(rows, n, d, eta, pi, P);
  }

  /** The split and the two recursive calls of `FindBestSplitPoint` on a node that is not a leaf. */
  method SplitNode(rows: seq<Sample>, n: nat, d: nat, eta: nat, pi: real, P: seq<nat>)
    returns (o: Outcome)
    requires Fits(rows, n, d) && InRows(rows, P)
    requires var counts := PartCounts(rows, P, n);
             var maj := Majority(counts, IndexPolicy.majorityFromZero);
             maj < |counts| && !IsLeafNode(counts, maj, |P|, eta, pi)
    ensures o == Build(rows, n, d, eta, pi, IndexPolicy, P)
    decreases |P|, 0
  {
    var split := BestOverFeatures(rows, n, d, P);
    BestSplitFeature(rows, P, n, d, IndexPolicy);
    var yes, no := SplitIndices(rows, P, split.feature, split.value);
    SplitSizes(rows, P, split.feature, split.value);
    if |yes| == 0 || |no| == 0 {
      return Loops;
    }
    var left := FindBestSplitPoint(rows, n, d, eta, pi, yes);
    if left.Loops? {
      return Loops;
    }
    var right := FindBestSplitPoint(rows, n, d, eta, pi, no);
    if right.Loops? {
      return Loops;
    }
    o := Finished(Node(split, Some(left.tree), Some(right.tree)));
  }

  /**
   * The tree grown from the index list 0..|rows|-1.  It finishes on
   * consistent data when `pi` is at most 1, and a finished tree predicts a
   * class 1..n for every training row.
   */
  method CreateDecisionTree(rows: seq<Sample>, n: nat, d: nat, eta: nat, pi: real) returns (o: Outcome)
    requires Fits(rows, n, d)
    ensures o == Grow(rows, n, d, eta, pi, IndexPolicy)
    ensures Consistent(rows) && pi <= 1.0 ==> o.Finished?
    ensures o.Finished? ==> FeaturesBelow(o.tree, d)
    ensures o.Finished? && rows != [] ==> LeafLabelsIn(o.tree, 1, n)
  {
    var all: seq<nat> := [];
    for i := 0 to |rows|
      invariant all == Indices(i)
    {
      all := all + [i];
    }
    o := FindBestSplitPoint(rows, n, d, eta, pi, all);
    GrowReachesLeaves(rows, n, d, eta, pi, IndexPolicy);
  }
}
