/**
 * The decision tree of the random-under-sampling experiment: a partition is
 * a mask over the training rows, every candidate midpoint is scored by
 * building the two side masks and counting classes afresh, a later
 * candidate and a later feature win ties (`<=`, `>=`), the majority scan
 * starts at class 1, and a feature without candidates reports value 0.
 *
 * Each method is proved to compute what `TreeSpec` defines for `MaskPolicy`.
 */
module MaskTree {
  import opened Samples
  import opened Gini
  import opened Sorting
  import opened TreeSpec
  import opened TreeLoops

  const MaskPolicy: Policy := Policy(true, true, false, false)

  /** Rows marked in `no` and not in `yes`: the count loop's "else if" side. */
  function OnlyIn(no: seq<bool>, yes: seq<bool>): (m: seq<bool>)
    requires |no| == |yes|
    ensures |m| == |no| && forall i :: 0 <= i < |no| ==> m[i] == (no[i] && !yes[i])
  {
    seq(|no|, i requires 0 <= i < |no| => no[i] && !yes[i])
  }

  /** The count loop of `CalculateGini`: a row goes to "yes" if marked there, else to "no" if marked there. */
  method TallySides(rows: seq<Sample>, n: nat, yes: seq<bool>, no: seq<bool>) returns (countsY: seq<nat>, countsN: seq<nat>)
    requires LabelsIn(rows, n) && |yes| == |rows| && |no| == |rows|
    ensures countsY == ClassCounts(Keep(rows, yes), n)
    ensures countsN == ClassCounts(Keep(rows, OnlyIn(no, yes)), n)
  {
    ghost var noOnly := OnlyIn(no, yes);
    var cy := new nat[n + 1](_ => 0);
    var cn := new nat[n + 1](_ => 0);
    for i := 0 to |rows|
      invariant forall c :: 0 <= c <= n ==> cy[c] == CountMarked(rows[..i], yes[..i], c)
      invariant forall c :: 0 <= c <= n ==> cn[c] == CountMarked(rows[..i], noOnly[..i], c)
    {
      forall c | 0 <= c <= n
        ensures CountMarked(rows[..i + 1], yes[..i + 1], c)
                == CountMarked(rows[..i], yes[..i], c) + (if yes[i] && rows[i].cls == c then 1 else 0)
        ensures CountMarked(rows[..i + 1], noOnly[..i + 1], c)
                == CountMarked(rows[..i], noOnly[..i], c) + (if noOnly[i] && rows[i].cls == c then 1 else 0)
      {
        CountMarkedSnoc(rows, yes, i, c);
        CountMarkedSnoc(rows, noOnly, i, c);
      }
      var cls := rows[i].cls;
      if yes[i] {
        cy[cls] := cy[cls] + 1;
      } else if no[i] {
        cn[cls] := cn[cls] + 1;
      }
    }
    assert rows[..|rows|] == rows && yes[..|rows|] == yes && noOnly[..|rows|] == noOnly;
    forall c | 0 <= c <= n
      ensures cy[c] == CountLabel(Keep(rows, yes), c) && cn[c] == CountLabel(Keep(rows, noOnly), c)
    {
      CountKeep(rows, yes, c);
      CountKeep(rows, noOnly, c);
    }
    countsY, countsN := cy[..], cn[..];
  }

  /** `size += counts[c]` over the classes 1..: the size of a side with labels 1..n. */
  method SumOverClasses(ghost rows: seq<Sample>, n: nat, counts: seq<nat>) returns (size: nat)
    requires LabelsIn(rows, n) && counts == ClassCounts(rows, n)
    ensures size == |rows|
  {
    size := 0;
    for c := 1 to n + 1
      invariant size == Sum(counts, 1, c)
    {
      SumSplitLast(counts, 1, c + 1);
      size := size + counts[c];
    }
    CountsAddUp(rows, n);
  }

  /**
   * Weighted Gini score of the rows marked `yes` against the rows marked
   * `no` only; side sizes are the sums of their class counts.
   */
  method CalculateGini(rows: seq<Sample>, n: nat, yes: seq<bool>, no: seq<bool>) returns (score: real)
    requires LabelsIn(rows, n) && |yes| == |rows| && |no| == |rows|
    requires |Keep(rows, yes)| + |Keep(rows, OnlyIn(no, yes))| > 0
    ensures score == WeightedGini(ClassCounts(Keep(rows, yes), n), |Keep(rows, yes)|,
                                  ClassCounts(Keep(rows, OnlyIn(no, yes)), n), |Keep(rows, OnlyIn(no, yes))|)
  {
    var countsY, countsN := TallySides(rows, n, yes, no);
    KeepLabelsIn(rows, yes, n);
    KeepLabelsIn(rows, OnlyIn(no, yes), n);
    var sizeY := SumOverClasses(Keep(rows, yes), n, countsY);
    var sizeN := SumOverClasses(Keep(rows, OnlyIn(no, yes)), n, countsN);
    var giniY, giniN := 1.0, 1.0;
    if sizeY > 0 {
      giniY := SubtractSquaredShares(countsY, sizeY);
    }
    if sizeN > 0 {
      giniN := SubtractSquaredShares(countsN, sizeN);
    }
    score := sizeY as real / (sizeY + sizeN) as real * giniY + sizeN as real / (sizeY + sizeN) as real * giniN;
  }

  /** The score `CalculateGini` gives for the side masks of a split is the split's score. */
  lemma SideMaskScore(rows: seq<Sample>, n: nat, mask: seq<bool>, f: nat, t: real)
    requires |mask| == |rows| && HasFeature(rows, f)
    requires InRows(rows, Members(mask)) && |Members(mask)| > 0
    ensures var yes := SideMask(rows, mask, f, t, true);
            var no := SideMask(rows, mask, f, t, false);
            OnlyIn(no, yes) == no
            && |Keep(rows, yes)| + |Keep(rows, no)| == |Members(mask)|
            && Score(rows, Members(mask), n, f, t)
               == WeightedGini(ClassCounts(Keep(rows, yes), n), |Keep(rows, yes)|,
                               ClassCounts(Keep(rows, no), n), |Keep(rows, no)|)
  {
    var yes := SideMask(rows, mask, f, t, true);
    var no := SideMask(rows, mask, f, t, false);
    assert OnlyIn(no, yes) == no;
    SideMaskMembers(rows, mask, f, t);
    GatherMembers(rows, yes);
    GatherMembers(rows, no);
    SplitSizes(rows, Members(mask), f, t);
    KeepIsSelection(rows, yes);
    KeepIsSelection(rows, no);
  }

  /** Feature `f` of the masked rows, in row order (`selected_feature` before sorting). */
  method SelectFeature(rows: seq<Sample>, mask: seq<bool>, f: nat) returns (selected: seq<real>)
    requires |mask| == |rows| && HasFeature(rows, f)
    ensures InRows(rows, Members(mask))
    ensures selected == Values(rows, Members(mask), f)
  {
    GatherMembers(rows, mask);
    var size := 0;
    for i := 0 to |rows|
      invariant size == Trues(mask[..i])
    {
      assert mask[..i + 1][..i] == mask[..i];
      if mask[i] {
        size := size + 1;
      }
    }
    assert mask[..|rows|] == mask;

    var a := new real[size](_ => 0.0);
    var k := 0;
    for i := 0 to |rows|
      invariant InRows(rows, Members(mask[..i]))
      invariant k == |Members(mask[..i])| == Trues(mask[..i]) <= size
      invariant a[..k] == Values(rows, Members(mask[..i]), f)
    {
      MaskPrefixStep(rows, mask, i);
      if !mask[i] {
        continue;
      }
      a[k] := rows[i].features[f];
      k := k + 1;
      ghost var M := Members(mask[..i]);
      assert a[..k] == a[..k - 1] + [rows[i].features[f]];
      assert Values(rows, M + [i], f) == Values(rows, M, f) + [rows[i].features[f]];
    }
    assert mask[..|rows|] == mask;
    selected := a[..];
  }

  /** The two side masks of splitting the masked rows at `f <= t`. */
  method SplitMasks(rows: seq<Sample>, mask: seq<bool>, f: nat, t: real) returns (yes: seq<bool>, no: seq<bool>)
    requires |mask| == |rows| && HasFeature(rows, f)
    ensures yes == SideMask(rows, mask, f, t, true) && no == SideMask(rows, mask, f, t, false)
  {
    var y := new bool[|rows|](_ => false);
    var m := new bool[|rows|](_ => false);
    for i := 0 to |rows|
      invariant forall r :: 0 <= r < i ==> y[r] == (mask[r] && rows[r].features[f] <= t)
      invariant forall r :: 0 <= r < i ==> m[r] == (mask[r] && !(rows[r].features[f] <= t))
      invariant forall r :: i <= r < |rows| ==> !y[r] && !m[r]
    {
      if !mask[i] {
        continue;
      }
      if rows[i].features[f] <= t {
        y[i] := true;
      } else {
        m[i] := true;
      }
    }
    yes, no := y[..], m[..];
  }

  /** The best split point of feature `f` on the masked rows. */
  method EvaluateSplitPoint(rows: seq<Sample>, mask: seq<bool>, n: nat, f: nat) returns (best: SplitPoint)
    requires LabelsIn(rows, n) && |mask| == |rows| && HasFeature(rows, f)
    ensures InRows(rows, Members(mask))
    ensures best == FeatureBest(rows, Members(mask), n, f, MaskPolicy)
  {
    var selected := SelectFeature(rows, mask, f);
    ghost var P := Members(mask);
    var sorted := Sort(selected);
    ghost var sc := CandidateScores(rows, P, n, f, sorted);
    best := SplitPoint(f, 0.0, NoSplitScore);
    var j := 1;
    while j < |sorted|
      invariant 1 <= j && best.feature == f
      invariant ScanFrom(f, true, sorted, sc, j, best) == FeatureBest(rows, P, n, f, MaskPolicy)
    {
      best := TryCandidate(rows, mask, n, f, sorted, j, best);
      j := j + 1;
    }
  }

  /**
   * The loop body of `EvaluateSplitPoint`: when positions j-1 and j of the
   * sorted values differ, score a split at their midpoint and keep it when
   * its score is at most the best so far.
   */
  method TryCandidate(rows: seq<Sample>, mask: seq<bool>, n: nat, f: nat, sorted: seq<real>, j: nat,
                      best: SplitPoint) returns (next: SplitPoint)
    requires LabelsIn(rows, n) && |mask| == |rows| && HasFeature(rows, f)
    requires InRows(rows, Members(mask)) && sorted == Sort(Values(rows, Members(mask), f)) && 1 <= j < |sorted|
    requires best.feature == f
    ensures next.feature == f
    ensures var sc := CandidateScores(rows, Members(mask), n, f, sorted);
            ScanFrom(f, true, sorted, sc, j, best) == ScanFrom(f, true, sorted, sc, j + 1, next)
  {
    ghost var P := Members(mask);
    ghost var sc := CandidateScores(rows, P, n, f, sorted);
    next := best;
    if sorted[j - 1] != sorted[j] {
      var mid := (sorted[j - 1] + sorted[j]) / 2.0;
      assert mid == CandidateValue(sorted, j);
      var yes, no := SplitMasks(rows, mask, f, mid);
      SideMaskScore(rows, n, mask, f, mid);
      var score := CalculateGini(rows, n, yes, no);
      assert score == Score(rows, P, n, f, mid);
      CandidateScoreAt(rows, P, n, f, sorted, j);
      assert score == sc[j];
      if score <= best.score {
        next := best.(score := score, value := mid);
      }
    }
    ScanAdvance(f, true, sorted, sc, j, best, next);
  }

  /** Class counts of the masked rows. */
  method TallyMasked(rows: seq<Sample>, n: nat, mask: seq<bool>) returns (counts: seq<nat>)
    requires LabelsIn(rows, n) && |mask| == |rows|
    ensures InRows(rows, Members(mask))
    ensures counts == PartCounts(rows, Members(mask), n)
  {
    MaskedCounts(rows, mask, n);
    var a := new nat[n + 1](_ => 0);
    for i := 0 to |rows|
      invariant forall c :: 0 <= c <= n ==> a[c] == CountMarked(rows[..i], mask[..i], c)
    {
      forall c | 0 <= c <= n
        ensures CountMarked(rows[..i + 1], mask[..i + 1], c)
                == CountMarked(rows[..i], mask[..i], c) + (if mask[i] && rows[i].cls == c then 1 else 0)
      {
        CountMarkedSnoc(rows, mask, i, c);
      }
      if mask[i] {
        a[rows[i].cls] := a[rows[i].cls] + 1;
      }
    }
    assert rows[..|rows|] == rows && mask[..|rows|] == mask;
    counts := a[..];
  }

  /**
   * One pass over classes 1..n: the partition size as the sum of the class
   * counts, and the majority as the first class with the largest count.
   */
  method MajorityAndSize(ghost rows: seq<Sample>, ghost P: seq<nat>, n: nat, counts: seq<nat>)
    returns (majority: nat, size: nat)
    requires n >= 1 && LabelsIn(rows, n) && InRows(rows, P) && counts == PartCounts(rows, P, n)
    ensures majority == Majority(counts, false) && size == |P|
  {
    majority, size := 1, 0;
    for c := 1 to n + 1
      invariant 1 <= majority <= n
      invariant size == Sum(counts, 1, c)
      invariant ArgMaxFrom(counts, c, majority) == Majority(counts, false)
    {
      SumSplitLast(counts, 1, c + 1);
      size := size + counts[c];
      if counts[majority] < counts[c] {
        majority := c;
      }
    }
    assert LabelsIn(Gather(rows, P), n);
    CountsAddUp(Gather(rows, P), n);
  }

  /** The best split point over features 0..d-1, a later feature winning ties. */
  method BestOverFeatures(rows: seq<Sample>, n: nat, d: nat, mask: seq<bool>) returns (split: SplitPoint)
    requires Fits(rows, n, d) && |mask| == |rows|
    ensures InRows(rows, Members(mask))
    ensures split == BestSplit(rows, Members(mask), n, d, MaskPolicy)
  {
    GatherMembers(rows, mask);
    ghost var fbs := FeatureBests(rows, Members(mask), n, d, MaskPolicy);
    split := SplitPoint(0, 0.0, NoSplitScore);
    for f := 0 to d
      invariant AcrossFrom(fbs, true, f, split) == BestSplit(rows, Members(mask), n, d, MaskPolicy)
    {
      var local := EvaluateSplitPoint(rows, mask, n, f);
      if split.score >= local.score {
        split := local;
      }
    }
  }

  /** The child masks of a node, with whether each side received a row. */
  method PartitionMasks(rows: seq<Sample>, mask: seq<bool>, f: nat, t: real)
    returns (yes: seq<bool>, no: seq<bool>, splitY: bool, splitN: bool)
    requires |mask| == |rows| && HasFeature(rows, f)
    ensures InRows(rows, Members(mask))
    ensures yes == SideMask(rows, mask, f, t, true) && no == SideMask(rows, mask, f, t, false)
    ensures splitY <==> Below(rows, Members(mask), f, t) != []
    ensures splitN <==> Above(rows, Members(mask), f, t) != []
  {
    var y := new bool[|rows|](_ => false);
    var m := new bool[|rows|](_ => false);
    splitY, splitN := false, false;
    ghost var sy := SideMask(rows, mask, f, t, true);
    ghost var sn := SideMask(rows, mask, f, t, false);
    for i := 0 to |rows|
      invariant forall r :: 0 <= r < i ==> y[r] == sy[r] && m[r] == sn[r]
      invariant splitY <==> exists r :: 0 <= r < i && sy[r]
      invariant splitN <==> exists r :: 0 <= r < i && sn[r]
    {
      if !mask[i] {
        y[i], m[i] := false, false;
        continue;
      }
      if rows[i].features[f] <= t {
        y[i], m[i] := true, false;
        splitY := true;
      } else {
        y[i], m[i] := false, true;
        splitN := true;
      }
    }
    yes, no := y[..], m[..];
    assert yes == sy && no == sn;
    SideMaskMembers(rows, mask, f, t);
    MembersNonEmpty(yes);
    MembersNonEmpty(no);
  }

  /**
   * Grows the subtree of the masked rows: the class counts and majority,
   * the stopping rule, the best split over all `d` features, and the two
   * child masks.  The program recurses for ever when one side is empty;
   * the model reports `Loops` there.
   */
  method FindBestSplitPoint(rows: seq<Sample>, n: nat, d: nat, minSplit: nat, purity: real, mask: seq<bool>)
    returns (o: Outcome)
    requires Fits(rows, n, d) && |mask| == |rows|
    ensures InRows(rows, Members(mask))
    ensures o == Build(rows, n, d, minSplit, purity, MaskPolicy, Members(mask))
    decreases |Members(mask)|, 1
  {
    var counts := TallyMasked(rows, n, mask);
    ghost var P := Members(mask);
    var majority, size := MajorityAndSize(rows, P, n, counts);
    MajorityInRange(counts, false);
    if size <= minSplit || counts[majority] as real / size as real >= purity {
      return Finished(Leaf(majority));
    }

    o := SplitNode(rows, n, d, minSplit, purity, mask);
  }

  /** The split and the two recursive calls of `FindBestSplitPoint` on a node that is not a leaf. */
  method SplitNode(rows: seq<Sample>, n: nat, d: nat, minSplit: nat, purity: real, mask: seq<bool>)
    returns (o: Outcome)
    requires Fits(rows, n, d) && |mask| == |rows| && InRows(rows, Members(mask))
    requires var counts := PartCounts(rows, Members(mask), n);
             var maj := Majority(counts, MaskPolicy.majorityFromZero);
             maj < |counts| && !IsLeafNode(counts, maj, |Members(mask)|, minSplit, purity)
    ensures o == Build(rows, n, d, minSplit, purity, MaskPolicy, Members(mask))
    decreases |Members(mask)|, 0
  {
    ghost var P := Members(mask);
    var split := BestOverFeatures(rows, n, d, mask);
    BestSplitFeature(rows, P, n, d, MaskPolicy);
    var yes, no, splitY, splitN := PartitionMasks(rows, mask, split.feature, split.value);
    if !splitY || !splitN {
      return Loops;
    }
    SideMaskMembers(rows, mask, split.feature, split.value);
    SplitSizes(rows, P, split.feature, split.value);
    var left := FindBestSplitPoint(rows, n, d, minSplit, purity, yes);
    if left.Loops? {
      return Loops;
    }
    var right := FindBestSplitPoint(rows, n, d, minSplit, purity, no);
    if right.Loops? {
      return Loops;
    }
    o := Finished(Node(split, Some(left.tree), Some(right.tree)));
  }

  /** The tree grown from every training row. */
  method CreateDecisionTree(rows: seq<Sample>, n: nat, d: nat, minSplit: nat, purity: real) returns (o: Outcome)
    requires Fits(rows, n, d)
    ensures o == Grow(rows, n, d, minSplit, purity, MaskPolicy)
  {
    var all := seq(|rows|, _ => true);
    MembersOfAll(all);
    o := FindBestSplitPoint(rows, n, d, minSplit, purity, all);
  }
}
