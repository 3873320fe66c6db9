/**
 * Properties of the tree learner shared by all four variants: the split
 * search finds the minimum-score candidate with the variant's tie rule, a
 * node that is split sends rows to both sides exactly when some feature
 * takes two values on it, growth finishes on data without contradictory
 * duplicates, and every training row reaches a leaf.
 */
module TreeFacts {
  import opened Samples
  import opened Gini
  import opened Sorting
  import opened TreeSpec

  /**
   * What a scan from position i, starting from `best`, ends with: either no
   * candidate improved on `best` and it is returned unchanged, or candidate j
   * did; j is the first minimum (`<`) or the last minimum (`<=`), and no
   * candidate scores below the result.
   */
  ghost predicate ScanOutcome(f: nat, keepLast: bool, sv: seq<real>, sc: seq<real>,
                              i: nat, best: SplitPoint, r: SplitPoint)
    requires |sc| == |sv|
  {
    (forall k :: i <= k && IsCandidate(sv, k) ==> r.score <= Cand(f, sv, sc, k).score)
    && ((r == best
         && forall k :: i <= k && IsCandidate(sv, k) ==> !Improves(Cand(f, sv, sc, k).score, best.score, keepLast))
        || (exists j :: i <= j && IsCandidate(sv, j) && r == Cand(f, sv, sc, j)
             && Improves(r.score, best.score, keepLast)
             && (forall k :: i <= k < j && IsCandidate(sv, k) && !keepLast ==> Cand(f, sv, sc, k).score > r.score)
             && (forall k :: j < k && IsCandidate(sv, k) && keepLast ==> Cand(f, sv, sc, k).score > r.score)))
  }

  lemma {:induction false} ScanFromOutcome(f: nat, keepLast: bool, sv: seq<real>, sc: seq<real>,
                                           i: nat, best: SplitPoint)
    requires |sc| == |sv| && 1 <= i
    ensures ScanOutcome(f, keepLast, sv, sc, i, best, ScanFrom(f, keepLast, sv, sc, i, best))
    decreases |sv| - i
  {
    if i >= |sv| {
    } else if !IsCandidate(sv, i) {
      ScanFromOutcome(f, keepLast, sv, sc, i + 1, best);
    } else {
      var c := Cand(f, sv, sc, i);
      var r := ScanFrom(f, keepLast, sv, sc, i, best);
      if Improves(c.score, best.score, keepLast) {
        assert r == ScanFrom(f, keepLast, sv, sc, i + 1, c);
        ScanFromOutcome(f, keepLast, sv, sc, i + 1, c);
        ScanTaken(f, keepLast, sv, sc, i, best, r);
      } else {
        assert r == ScanFrom(f, keepLast, sv, sc, i + 1, best);
        ScanFromOutcome(f, keepLast, sv, sc, i + 1, best);
        ScanPassed(f, keepLast, sv, sc, i, best, r);
      }
    }
  }

  /** One scan step in which candidate i improves on `best` and is carried forward. */
  lemma ScanTaken(f: nat, keepLast: bool, sv: seq<real>, sc: seq<real>,
                  i: nat, best: SplitPoint, r: SplitPoint)
    requires |sc| == |sv| && IsCandidate(sv, i)
    requires Improves(Cand(f, sv, sc, i).score, best.score, keepLast)
    requires ScanOutcome(f, keepLast, sv, sc, i + 1, Cand(f, sv, sc, i), r)
    ensures ScanOutcome(f, keepLast, sv, sc, i, best, r)
  {
    var c := Cand(f, sv, sc, i);
    if r == c && forall k :: i + 1 <= k && IsCandidate(sv, k) ==> !Improves(Cand(f, sv, sc, k).score, c.score, keepLast) {
      assert i <= i && IsCandidate(sv, i) && r == Cand(f, sv, sc, i);
    } else {
      var j :| i + 1 <= j && IsCandidate(sv, j) && r == Cand(f, sv, sc, j)
               && Improves(r.score, c.score, keepLast)
               && (forall k :: i + 1 <= k < j && IsCandidate(sv, k) && !keepLast ==> Cand(f, sv, sc, k).score > r.score)
               && (forall k :: j < k && IsCandidate(sv, k) && keepLast ==> Cand(f, sv, sc, k).score > r.score);
      assert Improves(r.score, best.score, keepLast);
    }
  }

  /** One scan step in which candidate i does not improve on `best`. */
  lemma ScanPassed(f: nat, keepLast: bool, sv: seq<real>, sc: seq<real>,
                   i: nat, best: SplitPoint, r: SplitPoint)
    requires |sc| == |sv| && IsCandidate(sv, i)
    requires !Improves(Cand(f, sv, sc, i).score, best.score, keepLast)
    requires ScanOutcome(f, keepLast, sv, sc, i + 1, best, r)
    ensures ScanOutcome(f, keepLast, sv, sc, i, best, r)
  {
    if r == best && forall k :: i + 1 <= k && IsCandidate(sv, k) ==> !Improves(Cand(f, sv, sc, k).score, best.score, keepLast) {
    } else {
      var j :| i + 1 <= j && IsCandidate(sv, j) && r == Cand(f, sv, sc, j)
               && Improves(r.score, best.score, keepLast)
               && (forall k :: i + 1 <= k < j && IsCandidate(sv, k) && !keepLast ==> Cand(f, sv, sc, k).score > r.score)
               && (forall k :: j < k && IsCandidate(sv, k) && keepLast ==> Cand(f, sv, sc, k).score > r.score);
      assert i <= j;
    }
  }

  /** Feature `f` takes a single value on the rows of `P`. */
  ghost predicate ConstantOn(rows: seq<Sample>, P: seq<nat>, f: nat)
    requires InRows(rows, P) && HasFeature(rows, f)
  {
    forall a, b :: 0 <= a < |P| && 0 <= b < |P| ==> rows[P[a]].features[f] == rows[P[b]].features[f]
  }

  lemma {:induction false} NoCandidateConstant(sv: seq<real>, k: nat)
    requires forall j :: !IsCandidate(sv, j)
    requires k < |sv|
    ensures sv[k] == sv[0]
  {
    if k > 0 {
      NoCandidateConstant(sv, k - 1);
      assert !IsCandidate(sv, k);
    }
  }

  /** The sorted values of `f` on `P` have a candidate exactly when `f` is not constant on `P`. */
  lemma CandidateIffNotConstant(rows: seq<Sample>, P: seq<nat>, f: nat)
    requires InRows(rows, P) && HasFeature(rows, f)
    ensures (exists j :: IsCandidate(Sort(Values(rows, P, f)), j)) <==> !ConstantOn(rows, P, f)
  {
    var v := Values(rows, P, f);
    var sv := Sort(v);
    if j :| IsCandidate(sv, j) {
      assert sv[j - 1] in multiset(v) && sv[j] in multiset(v);
      var a :| 0 <= a < |v| && v[a] == sv[j - 1];
      var b :| 0 <= b < |v| && v[b] == sv[j];
      assert rows[P[a]].features[f] != rows[P[b]].features[f];
    } else if !ConstantOn(rows, P, f) {
      var a, b :| 0 <= a < |P| && 0 <= b < |P| && rows[P[a]].features[f] != rows[P[b]].features[f];
      assert v[a] in multiset(sv) && v[b] in multiset(sv);
      var a' :| 0 <= a' < |sv| && sv[a'] == v[a];
      var b' :| 0 <= b' < |sv| && sv[b'] == v[b];
      NoCandidateConstant(sv, a');
      NoCandidateConstant(sv, b');
      assert false;
    }
  }

  /** The midpoint at a candidate sends at least one row of `P` to each side. */
  lemma CandidateSplitsBothWays(rows: seq<Sample>, P: seq<nat>, f: nat, j: int)
    requires InRows(rows, P) && HasFeature(rows, f)
    requires IsCandidate(Sort(Values(rows, P, f)), j)
    ensures Below(rows, P, f, CandidateValue(Sort(Values(rows, P, f)), j)) != []
    ensures Above(rows, P, f, CandidateValue(Sort(Values(rows, P, f)), j)) != []
  {
    var v := Values(rows, P, f);
    var sv := Sort(v);
    var t := CandidateValue(sv, j);
    assert sv[j - 1] < t < sv[j];
    assert sv[j - 1] in multiset(v) && sv[j] in multiset(v);
    var a :| 0 <= a < |v| && v[a] == sv[j - 1];
    var b :| 0 <= b < |v| && v[b] == sv[j];
    SplitSizes(rows, P, f, t);
    assert P[a] in Below(rows, P, f, t);
    assert P[b] in Above(rows, P, f, t);
  }

  /** A constant feature sends every row of `P` to the same side, whatever the threshold. */
  lemma ConstantSplitsOneWay(rows: seq<Sample>, P: seq<nat>, f: nat, t: real)
    requires InRows(rows, P) && HasFeature(rows, f) && ConstantOn(rows, P, f)
    ensures Below(rows, P, f, t) == [] || Above(rows, P, f, t) == []
  {
    SplitSizes(rows, P, f, t);
  }

  /** A Gini score is at most 1, and lies in [0, 1) when every label is a class 1..n. */
  lemma ScoreBounds(rows: seq<Sample>, P: seq<nat>, n: nat, f: nat, t: real)
    requires InRows(rows, P) && HasFeature(rows, f) && |P| > 0
    ensures Score(rows, P, n, f, t) <= 1.0
    ensures LabelsIn(rows, n) ==> 0.0 <= Score(rows, P, n, f, t) < 1.0
  {
    var yes := Below(rows, P, f, t);
    var no := Above(rows, P, f, t);
    SplitSizes(rows, P, f, t);
    if LabelsIn(rows, n) {
      CountsAddUp(Gather(rows, yes), n);
      CountsAddUp(Gather(rows, no), n);
    }
    WeightedGiniBounds(PartCounts(rows, yes, n), |yes|, PartCounts(rows, no, n), |no|);
  }

  /**
   * The split point the scan reports for feature `f`: its score is at most
   * every candidate's score; when some candidate exists it is a candidate,
   * the first (`<`) or last (`<=`) one of lowest score; otherwise it is the
   * starting point with the variant's default value and score 1.1.
   */
  lemma FeatureBestIsMinimum(rows: seq<Sample>, P: seq<nat>, n: nat, f: nat, pol: Policy)
    requires InRows(rows, P) && HasFeature(rows, f)
    ensures var sv := Sort(Values(rows, P, f));
            var fb := FeatureBest(rows, P, n, f, pol);
            fb.feature == f
            && (forall j :: IsCandidate(sv, j) ==> fb.score <= Score(rows, P, n, f, CandidateValue(sv, j)))
            && ((exists j :: IsCandidate(sv, j)) ==>
                  exists j :: IsCandidate(sv, j) && fb.value == CandidateValue(sv, j)
                    && fb.score == Score(rows, P, n, f, fb.value)
                    && (forall k :: IsCandidate(sv, k) && k < j && !pol.keepLastMinimum ==>
                          Score(rows, P, n, f, CandidateValue(sv, k)) > fb.score)
                    && (forall k :: IsCandidate(sv, k) && k > j && pol.keepLastMinimum ==>
                          Score(rows, P, n, f, CandidateValue(sv, k)) > fb.score))
            && ((forall j :: !IsCandidate(sv, j)) ==>
                  fb == SplitPoint(f, DefaultValue(rows, f, pol), NoSplitScore))
  {
    var sv := Sort(Values(rows, P, f));
    var sc := CandidateScores(rows, P, n, f, sv);
    var init := SplitPoint(f, DefaultValue(rows, f, pol), NoSplitScore);
    var fb := FeatureBest(rows, P, n, f, pol);
    ScanFromOutcome(f, pol.keepLastMinimum, sv, sc, 1, init);
    assert forall j :: IsCandidate(sv, j) ==> Cand(f, sv, sc, j).score == Score(rows, P, n, f, CandidateValue(sv, j));
    if j0 :| IsCandidate(sv, j0) {
      ScoreBounds(rows, P, n, f, CandidateValue(sv, j0));
      assert Improves(Cand(f, sv, sc, j0).score, init.score, pol.keepLastMinimum);
    }
  }

  /** A feature has a split point below 1.1 exactly when it varies on `P`, and that point splits `P` both ways. */
  lemma FeatureBestSplits(rows: seq<Sample>, P: seq<nat>, n: nat, f: nat, pol: Policy)
    requires InRows(rows, P) && HasFeature(rows, f)
    ensures FeatureBest(rows, P, n, f, pol).score < NoSplitScore <==> !ConstantOn(rows, P, f)
    ensures FeatureBest(rows, P, n, f, pol).score < NoSplitScore ==>
              Below(rows, P, f, FeatureBest(rows, P, n, f, pol).value) != []
              && Above(rows, P, f, FeatureBest(rows, P, n, f, pol).value) != []
  {
    var sv := Sort(Values(rows, P, f));
    var fb := FeatureBest(rows, P, n, f, pol);
    FeatureBestIsMinimum(rows, P, n, f, pol);
    CandidateIffNotConstant(rows, P, f);
    if j :| IsCandidate(sv, j) {
      var j' :| IsCandidate(sv, j') && fb.value == CandidateValue(sv, j') && fb.score == Score(rows, P, n, f, fb.value);
      ScoreBounds(rows, P, n, f, fb.value);
      CandidateSplitsBothWays(rows, P, f, j');
    }
  }

  /**
   * What the scan over features f.. ends with: a score at most that of the
   * start and of every feature's best; either the start, unchanged because
   * no feature improved on it, or the per-feature best of some feature g,
   * the earliest (`>`) or the latest (`>=`) of lowest score.
   */
  ghost predicate AcrossOutcome(fbs: seq<SplitPoint>, laterWins: bool, f: nat, best: SplitPoint, r: SplitPoint)
  {
    r.score <= best.score
    && (forall g :: f <= g < |fbs| ==> r.score <= fbs[g].score)
    && ((r == best && forall g :: f <= g < |fbs| ==> !Improves(fbs[g].score, best.score, laterWins))
        || (exists g :: f <= g < |fbs| && r == fbs[g] && Improves(r.score, best.score, laterWins)
             && (forall k :: f <= k < g && !laterWins ==> fbs[k].score > r.score)
             && (forall k :: g < k < |fbs| && laterWins ==> fbs[k].score > r.score)))
  }

  lemma {:induction false} AcrossFromOutcome(fbs: seq<SplitPoint>, laterWins: bool, f: nat, best: SplitPoint)
    ensures AcrossOutcome(fbs, laterWins, f, best, AcrossFrom(fbs, laterWins, f, best))
    decreases |fbs| - f
  {
    var r := AcrossFrom(fbs, laterWins, f, best);
    if f < |fbs| {
      var next := if Improves(fbs[f].score, best.score, laterWins) then fbs[f] else best;
      AcrossFromOutcome(fbs, laterWins, f + 1, next);
      if Improves(fbs[f].score, best.score, laterWins) {
        if r == next && forall g :: f + 1 <= g < |fbs| ==> !Improves(fbs[g].score, next.score, laterWins) {
          assert r == fbs[f];
        } else {
          var g :| f + 1 <= g < |fbs| && r == fbs[g] && Improves(r.score, next.score, laterWins)
                   && (forall k :: f + 1 <= k < g && !laterWins ==> fbs[k].score > r.score)
                   && (forall k :: g < k < |fbs| && laterWins ==> fbs[k].score > r.score);
          assert Improves(r.score, best.score, laterWins);
        }
      } else {
        if r == best && forall g :: f + 1 <= g < |fbs| ==> !Improves(fbs[g].score, best.score, laterWins) {
        } else {
          var g :| f + 1 <= g < |fbs| && r == fbs[g] && Improves(r.score, best.score, laterWins)
                   && (forall k :: f + 1 <= k < g && !laterWins ==> fbs[k].score > r.score)
                   && (forall k :: g < k < |fbs| && laterWins ==> fbs[k].score > r.score);
          assert f <= g;
        }
      }
    }
  }

  /**
   * The split point of a node: its score is at most every feature's best;
   * it is the starting point (feature 0, value 0, score 1.1) or the best of
   * some feature, the earliest (`>`) or latest (`>=`) of lowest score.  Under
   * `>=` a feature without candidates (score 1.1) still replaces the start.
   */
  lemma BestSplitIsMinimum(rows: seq<Sample>, P: seq<nat>, n: nat, d: nat, pol: Policy)
    requires InRows(rows, P) && Width(rows, d)
    ensures var sp := BestSplit(rows, P, n, d, pol);
            var fbs := FeatureBests(rows, P, n, d, pol);
            sp.score <= NoSplitScore
            && (forall f :: 0 <= f < d ==> sp.score <= fbs[f].score)
            && (sp == SplitPoint(0, 0.0, NoSplitScore)
                || exists g :: 0 <= g < d && sp == fbs[g]
                    && (forall k :: 0 <= k < g && !pol.laterFeatureWins ==> fbs[k].score > sp.score)
                    && (forall k :: g < k < d && pol.laterFeatureWins ==> fbs[k].score > sp.score))
  {
    AcrossMinimum(FeatureBests(rows, P, n, d, pol), pol.laterFeatureWins);
  }

  lemma AcrossMinimum(fbs: seq<SplitPoint>, laterWins: bool)
    ensures var sp := AcrossFrom(fbs, laterWins, 0, SplitPoint(0, 0.0, NoSplitScore));
            sp.score <= NoSplitScore
            && (forall f :: 0 <= f < |fbs| ==> sp.score <= fbs[f].score)
            && (sp == SplitPoint(0, 0.0, NoSplitScore)
                || exists g :: 0 <= g < |fbs| && sp == fbs[g]
                    && (forall k :: 0 <= k < g && !laterWins ==> fbs[k].score > sp.score)
                    && (forall k :: g < k < |fbs| && laterWins ==> fbs[k].score > sp.score))
  {
    var init := SplitPoint(0, 0.0, NoSplitScore);
    AcrossFromOutcome(fbs, laterWins, 0, init);
  }

  /**
   * The split point of a node is a proper split (rows on both sides) exactly
   * when some feature takes two distinct values on the node's rows.
   */
  lemma SplitProperIff(rows: seq<Sample>, P: seq<nat>, n: nat, d: nat, pol: Policy)
    requires InRows(rows, P) && Width(rows, d) && d >= 1
    ensures HasFeature(rows, BestSplit(rows, P, n, d, pol).feature)
    ensures var sp := BestSplit(rows, P, n, d, pol);
            (Below(rows, P, sp.feature, sp.value) != [] && Above(rows, P, sp.feature, sp.value) != [])
            <==> exists f :: 0 <= f < d && !ConstantOn(rows, P, f)
  {
    var sp := BestSplit(rows, P, n, d, pol);
    BestSplitFeature(rows, P, n, d, pol);
    if f :| 0 <= f < d && !ConstantOn(rows, P, f) {
      SplitVaryingFeature(rows, P, n, d, pol, f);
    } else {
      ConstantSplitsOneWay(rows, P, sp.feature, sp.value);
    }
  }

  lemma SplitVaryingFeature(rows: seq<Sample>, P: seq<nat>, n: nat, d: nat, pol: Policy, f: nat)
    requires InRows(rows, P) && Width(rows, d) && f < d && !ConstantOn(rows, P, f)
    ensures HasFeature(rows, BestSplit(rows, P, n, d, pol).feature)
    ensures var sp := BestSplit(rows, P, n, d, pol);
            Below(rows, P, sp.feature, sp.value) != [] && Above(rows, P, sp.feature, sp.value) != []
  {
    var sp := BestSplit(rows, P, n, d, pol);
    var fbs := FeatureBests(rows, P, n, d, pol);
    BestSplitIsMinimum(rows, P, n, d, pol);
    FeatureBestSplits(rows, P, n, f, pol);
    assert fbs[f] == FeatureBest(rows, P, n, f, pol);
    assert sp.score < NoSplitScore;
    var g :| 0 <= g < d && sp == fbs[g];
    assert fbs[g] == FeatureBest(rows, P, n, g, pol);
    FeatureBestSplits(rows, P, n, g, pol);
    FeatureBestFeature(rows, P, n, g, pol);
  }

  /** Different labels never come with equal feature vectors. */
  ghost predicate Consistent(rows: seq<Sample>)
  {
    forall i, j :: 0 <= i < |rows| && 0 <= j < |rows| && rows[i].features == rows[j].features
      ==> rows[i].cls == rows[j].cls
  }

  /**
   * On consistent data, a node whose features are all constant is pure: its
   * majority count is its size.
   */
  lemma UniformNodeIsPure(rows: seq<Sample>, P: seq<nat>, n: nat, d: nat, fromZero: bool)
    requires Fits(rows, n, d) && InRows(rows, P) && Consistent(rows) && |P| > 0
    requires forall f :: 0 <= f < d ==> ConstantOn(rows, P, f)
    ensures var counts := PartCounts(rows, P, n);
            |counts| == n + 1 && Majority(counts, fromZero) < |counts| && counts[Majority(counts, fromZero)] == |P|
  {
    var g := Gather(rows, P);
    var counts := PartCounts(rows, P, n);
    var c := g[0].cls;
    forall a | 0 <= a < |P| ensures g[a].cls == c {
      assert rows[P[a]].features == rows[P[0]].features by {
        forall f | 0 <= f < d ensures rows[P[a]].features[f] == rows[P[0]].features[f] {
          assert ConstantOn(rows, P, f);
        }
      }
    }
    CountLabelBounds(g, c);
    var maj := Majority(counts, fromZero);
    MajorityIsLowestMax(counts, fromZero);
    CountLabelBounds(g, maj);
    assert counts[c] <= counts[maj];
  }

  /**
   * Growth finishes on consistent data when the purity threshold is at most
   * 1: a node that is not a leaf has a varying feature, so its split is proper
   * and both children are smaller.
   */
  lemma {:induction false} BuildFinishes(rows: seq<Sample>, n: nat, d: nat, minSplit: nat, purity: real,
                                         pol: Policy, P: seq<nat>)
    requires Fits(rows, n, d) && InRows(rows, P) && Consistent(rows) && purity <= 1.0
    ensures Build(rows, n, d, minSplit, purity, pol, P).Finished?
    decreases |P|
  {
    var counts := PartCounts(rows, P, n);
    var maj := Majority(counts, pol.majorityFromZero);
    MajorityInRange(counts, pol.majorityFromZero);
    if !IsLeafNode(counts, maj, |P|, minSplit, purity) {
      if forall f :: 0 <= f < d ==> ConstantOn(rows, P, f) {
        UniformNodeIsPure(rows, P, n, d, pol.majorityFromZero);
        assert false;
      }
      SplitProperIff(rows, P, n, d, pol);
      var sp := BestSplit(rows, P, n, d, pol);
      SplitSizes(rows, P, sp.feature, sp.value);
      BuildFinishes(rows, n, d, minSplit, purity, pol, Below(rows, P, sp.feature, sp.value));
      BuildFinishes(rows, n, d, minSplit, purity, pol, Above(rows, P, sp.feature, sp.value));
    }
  }

  /** Every leaf of `t` carries a label in lo..hi. */
  ghost predicate LeafLabelsIn(t: Tree, lo: nat, hi: nat)
  {
    match t
    case Leaf(c) => lo <= c <= hi
    case Node(_, l, r) =>
      (l.Some? ==> LeafLabelsIn(l.value, lo, hi)) && (r.Some? ==> LeafLabelsIn(r.value, lo, hi))
  }

  /** A prediction is the label of some leaf. */
  lemma {:induction false} PredictionIsLeafLabel(t: Tree, x: seq<real>, lo: nat, hi: nat)
    requires FeaturesBelow(t, |x|) && LeafLabelsIn(t, lo, hi)
    ensures Predict(t, x).Some? ==> lo <= Predict(t, x).value <= hi
  {
    match t
    case Leaf(_) =>
    case Node(sp, l, r) =>
      if !(l.None? && r.None?) {
        var next := if x[sp.feature] <= sp.value then l else r;
        if next.Some? {
          PredictionIsLeafLabel(next.value, x, lo, hi);
        }
      }
  }

  /** The majority label of a non-empty partition is one of the labels 1..n. */
  lemma MajorityIsALabel(rows: seq<Sample>, P: seq<nat>, n: nat, fromZero: bool)
    requires n >= 1 && LabelsIn(rows, n) && InRows(rows, P) && |P| > 0
    ensures 1 <= Majority(PartCounts(rows, P, n), fromZero) <= n
  {
    var g := Gather(rows, P);
    var counts := PartCounts(rows, P, n);
    MajorityIsLowestMax(counts, fromZero);
    CountLabelBounds(g, 0);
    CountLabelBounds(g, g[0].cls);
    assert counts[g[0].cls] >= 1;
  }

  /** A finished leaf carries the partition's majority label and met the stopping rule. */
  lemma LeafParts(rows: seq<Sample>, n: nat, d: nat, minSplit: nat, purity: real,
                  pol: Policy, P: seq<nat>, t: Tree)
    requires Fits(rows, n, d) && InRows(rows, P)
    requires Build(rows, n, d, minSplit, purity, pol, P) == Finished(t) && t.Leaf?
    ensures var counts := PartCounts(rows, P, n);
            t.cls == Majority(counts, pol.majorityFromZero) && t.cls < |counts|
            && IsLeafNode(counts, t.cls, |P|, minSplit, purity)
  {
    MajorityInRange(PartCounts(rows, P, n), pol.majorityFromZero);
  }

  /**
   * A finished inner node splits `P` into two smaller finished parts, and
   * every row of `P` goes to the part its split test selects.
   */
  lemma NodeParts(rows: seq<Sample>, n: nat, d: nat, minSplit: nat, purity: real,
                  pol: Policy, P: seq<nat>, t: Tree)
    returns (yes: seq<nat>, no: seq<nat>)
    requires Fits(rows, n, d) && InRows(rows, P)
    requires Build(rows, n, d, minSplit, purity, pol, P) == Finished(t) && t.Node?
    ensures t.split.feature < d && t.left.Some? && t.right.Some?
    ensures InRows(rows, yes) && InRows(rows, no) && 0 < |yes| < |P| && 0 < |no| < |P|
    ensures Build(rows, n, d, minSplit, purity, pol, yes) == Finished(t.left.value)
    ensures Build(rows, n, d, minSplit, purity, pol, no) == Finished(t.right.value)
    ensures forall x :: x in P ==>
              if rows[x].features[t.split.feature] <= t.split.value then x in yes else x in no
  {
    var counts := PartCounts(rows, P, n);
    MajorityInRange(counts, pol.majorityFromZero);
    var sp := BestSplit(rows, P, n, d, pol);
    BestSplitFeature(rows, P, n, d, pol);
    yes := Below(rows, P, sp.feature, sp.value);
    no := Above(rows, P, sp.feature, sp.value);
    SplitSizes(rows, P, sp.feature, sp.value);
    forall x | x in P
      ensures if rows[x].features[sp.feature] <= sp.value then x in yes else x in no
    {
      var a :| 0 <= a < |P| && P[a] == x;
    }
  }

  /** An inner node with both children passes the sample to the child its test selects. */
  lemma NodePredict(t: Tree, x: seq<real>)
    requires t.Node? && t.left.Some? && t.right.Some? && FeaturesBelow(t, |x|)
    ensures FeaturesBelow(t.left.value, |x|) && FeaturesBelow(t.right.value, |x|)
    ensures Predict(t, x) == if x[t.split.feature] <= t.split.value
                             then Predict(t.left.value, x) else Predict(t.right.value, x)
  {
  }

  /**
   * A finished tree tests only features 0..d-1 and every training row of
   * the partition reaches a leaf; when the partition is not empty, every
   * leaf carries one of the labels 1..n.
   */
  lemma {:induction false} BuildReachesLeaves(rows: seq<Sample>, n: nat, d: nat, minSplit: nat, purity: real,
                                              pol: Policy, P: seq<nat>, t: Tree)
    requires Fits(rows, n, d) && InRows(rows, P)
    requires Build(rows, n, d, minSplit, purity, pol, P) == Finished(t)
    ensures FeaturesBelow(t, d)
    ensures |P| > 0 ==> LeafLabelsIn(t, 1, n)
    ensures forall x :: x in P ==> Predict(t, rows[x].features).Some?
    decreases |P|
  {
    if t.Leaf? {
      LeafParts(rows, n, d, minSplit, purity, pol, P, t);
      if |P| > 0 {
        MajorityIsALabel(rows, P, n, pol.majorityFromZero);
      }
    } else {
      var yes, no := NodeParts(rows, n, d, minSplit, purity, pol, P, t);
      var l, r := t.left.value, t.right.value;
      BuildReachesLeaves(rows, n, d, minSplit, purity, pol, yes, l);
      BuildReachesLeaves(rows, n, d, minSplit, purity, pol, no, r);
      forall x | x in P ensures Predict(t, rows[x].features).Some? {
        NodePredict(t, rows[x].features);
      }
    }
  }

  /** At purity 1 or above a leaf holds rows of its own label only. */
  lemma PureLeaf(rows: seq<Sample>, n: nat, P: seq<nat>, maj: nat, purity: real)
    requires InRows(rows, P) && |P| > 0 && purity >= 1.0
    requires maj < |PartCounts(rows, P, n)|
    requires PartCounts(rows, P, n)[maj] as real / |P| as real >= purity
    ensures forall x :: x in P ==> rows[x].cls == maj
  {
    var g := Gather(rows, P);
    CountLabelBounds(g, maj);
    assert PartCounts(rows, P, n)[maj] as real >= |P| as real;
    forall x | x in P ensures rows[x].cls == maj {
      var a :| 0 <= a < |P| && P[a] == x;
      assert g[a] == rows[x];
    }
  }

  /**
   * With no size limit and purity 1 (or above), a finished tree predicts the
   * label of every training row of its partition.
   */
  lemma {:induction false} BuildFitsTrainingRows(rows: seq<Sample>, n: nat, d: nat, purity: real,
                                                 pol: Policy, P: seq<nat>, t: Tree)
    requires Fits(rows, n, d) && InRows(rows, P) && purity >= 1.0
    requires Build(rows, n, d, 0, purity, pol, P) == Finished(t)
    ensures FeaturesBelow(t, d)
    ensures forall x :: x in P ==> Predict(t, rows[x].features) == Some(rows[x].cls)
    decreases |P|
  {
    BuildReachesLeaves(rows, n, d, 0, purity, pol, P, t);
    if t.Leaf? {
      LeafParts(rows, n, d, 0, purity, pol, P, t);
      if |P| > 0 {
        PureLeaf(rows, n, P, t.cls, purity);
      }
    } else {
      var yes, no := NodeParts(rows, n, d, 0, purity, pol, P, t);
      BuildFitsTrainingRows(rows, n, d, purity, pol, yes, t.left.value);
      BuildFitsTrainingRows(rows, n, d, purity, pol, no, t.right.value);
      forall x | x in P ensures Predict(t, rows[x].features) == Some(rows[x].cls) {
        NodePredict(t, rows[x].features);
      }
    }
  }

  /**
   * On consistent data with no size limit and purity 1, growth finishes and
   * the tree reproduces every training label.
   */
  lemma GrowFitsConsistentData(rows: seq<Sample>, n: nat, d: nat, pol: Policy)
    requires Fits(rows, n, d) && Consistent(rows)
    ensures Grow(rows, n, d, 0, 1.0, pol).Finished?
    ensures var t := Grow(rows, n, d, 0, 1.0, pol).tree;
            FeaturesBelow(t, d)
            && forall i :: 0 <= i < |rows| ==> Predict(t, rows[i].features) == Some(rows[i].cls)
  {
    var P := Indices(|rows|);
    BuildFinishes(rows, n, d, 0, 1.0, pol, P);
    var t := Grow(rows, n, d, 0, 1.0, pol).tree;
    BuildFitsTrainingRows(rows, n, d, 1.0, pol, P, t);
    forall i | 0 <= i < |rows| ensures Predict(t, rows[i].features) == Some(rows[i].cls) {
      assert P[i] == i && i in P;
    }
  }

  /**
   * Whatever the stopping rule, a finished tree tests only existing
   * features, predicts a class 1..n, and reaches a leaf for every training row.
   */
  lemma GrowReachesLeaves(rows: seq<Sample>, n: nat, d: nat, minSplit: nat, purity: real, pol: Policy)
    requires Fits(rows, n, d)
    ensures Grow(rows, n, d, minSplit, purity, pol).Finished? ==>
            var t := Grow(rows, n, d, minSplit, purity, pol).tree;
            FeaturesBelow(t, d)
            && (rows != [] ==> LeafLabelsIn(t, 1, n))
            && forall i :: 0 <= i < |rows| ==> Predict(t, rows[i].features).Some?
    ensures Consistent(rows) && purity <= 1.0 ==> Grow(rows, n, d, minSplit, purity, pol).Finished?
  {
    var P := Indices(|rows|);
    if Consistent(rows) && purity <= 1.0 {
      BuildFinishes(rows, n, d, minSplit, purity, pol, P);
    }
    var o := Grow(rows, n, d, minSplit, purity, pol);
    if o.Finished? {
      BuildReachesLeaves(rows, n, d, minSplit, purity, pol, P, o.tree);
      forall i | 0 <= i < |rows| ensures Predict(o.tree, rows[i].features).Some? {
        assert P[i] == i && i in P;
      }
    }
  }
}
