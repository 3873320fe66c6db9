/**
 * What a CART classification tree of this program is, and how it is grown,
 * stated once for the four variants of the learner.
 *
 * A partition is the list of the training rows (by position) that reach a
 * node, in ascending order.  At a node the learner counts classes, stops with
 * the majority label when the partition is small or pure enough, and
 * otherwise picks, over every feature, the midpoint between two adjacent
 * distinct values that gives the lowest weighted Gini score; rows whose
 * value is at most the midpoint go left.  The variants differ only in how
 * ties are broken and where the majority scan starts (`Policy`).
 *
 * The program recurses without end when a node is neither small nor pure
 * and no feature takes two distinct values in it: the split then sends
 * every row to one side and the child is the node again.  `Build` returns
 * `Loops` in exactly that situation.
 */
module TreeSpec {
  import opened Samples
  import opened Gini
  import opened Sorting

  datatype SplitPoint = SplitPoint(feature: nat, value: real, score: real)

  /** A null child of the program is `None`. */
  datatype Tree = Leaf(cls: nat) | Node(split: SplitPoint, left: Option<Tree>, right: Option<Tree>)

  datatype Outcome = Finished(tree: Tree) | Loops

  /** The score every search starts from; above any Gini score. */
  const NoSplitScore: real := 1.1

  /**
   * keepLastMinimum: within a feature a later candidate with an equal score
   *   replaces the best (`<=`); otherwise the first minimum stays (`<`).
   * laterFeatureWins: across features a later feature with an equal score
   *   replaces the best (`>=`); otherwise the earliest stays (`>`).
   * majorityFromZero: the majority scan covers label 0 too (`max_element`
   *   over the whole count vector); otherwise it starts at label 1.
   * defaultFromMinimum: a feature without candidates reports the smallest
   *   value of that feature over all training rows; otherwise 0.
   */
  datatype Policy = Policy(keepLastMinimum: bool, laterFeatureWins: bool,
                           majorityFromZero: bool, defaultFromMinimum: bool)

  ghost predicate InRows(rows: seq<Sample>, P: seq<nat>)
  {
    forall j :: 0 <= j < |P| ==> P[j] < |rows|
  }

  ghost predicate HasFeature(rows: seq<Sample>, f: nat)
  {
    forall i :: 0 <= i < |rows| ==> f < |rows[i].features|
  }

  /** The rows at the positions of `P`. */
  function Gather(rows: seq<Sample>, P: seq<nat>): (g: seq<Sample>)
    requires InRows(rows, P)
    ensures |g| == |P| && forall j :: 0 <= j < |P| ==> g[j] == rows[P[j]]
  {
    seq(|P|, j requires 0 <= j < |P| => rows[P[j]])
  }

  /** Feature `f` of the rows at the positions of `P`. */
  function Values(rows: seq<Sample>, P: seq<nat>, f: nat): (v: seq<real>)
    requires InRows(rows, P) && HasFeature(rows, f)
    ensures |v| == |P| && forall j :: 0 <= j < |P| ==> v[j] == rows[P[j]].features[f]
  {
    seq(|P|, j requires 0 <= j < |P| => rows[P[j]].features[f])
  }

  /** Class counts of a partition. */
  function PartCounts(rows: seq<Sample>, P: seq<nat>, n: nat): seq<nat>
    requires InRows(rows, P)
  {
    ClassCounts(Gather(rows, P), n)
  }

  /** Positions of `P` whose feature `f` is at most `t`, in order. */
  function Below(rows: seq<Sample>, P: seq<nat>, f: nat, t: real): seq<nat>
    requires InRows(rows, P) && HasFeature(rows, f)
  {
    if P == [] then []
    else
      var k := |P| - 1;
      Below(rows, P[..k], f, t) + (if rows[P[k]].features[f] <= t then [P[k]] else [])
  }

  /** Positions of `P` whose feature `f` exceeds `t`, in order. */
  function Above(rows: seq<Sample>, P: seq<nat>, f: nat, t: real): seq<nat>
    requires InRows(rows, P) && HasFeature(rows, f)
  {
    if P == [] then []
    else
      var k := |P| - 1;
      Above(rows, P[..k], f, t) + (if rows[P[k]].features[f] <= t then [] else [P[k]])
  }

  /** Weighted Gini score of splitting `P` at `f <= t`. */
  function Score(rows: seq<Sample>, P: seq<nat>, n: nat, f: nat, t: real): real
    requires InRows(rows, P) && HasFeature(rows, f) && |P| > 0
  {
    var yes := Below(rows, P, f, t);
    var no := Above(rows, P, f, t);
    SplitSizes(rows, P, f, t);
    WeightedGini(PartCounts(rows, yes, n), |yes|, PartCounts(rows, no, n), |no|)
  }

  function Midpoint(a: real, b: real): real
  {
    (a + b) / 2.0
  }

  /** Position `j` of the sorted values starts a new value: a split candidate. */
  predicate IsCandidate(sv: seq<real>, j: int)
  {
    1 <= j < |sv| && sv[j - 1] != sv[j]
  }

  function CandidateValue(sv: seq<real>, j: int): real
    requires IsCandidate(sv, j)
  {
    Midpoint(sv[j - 1], sv[j])
  }

  /**
   * Whether a challenger with score `s` replaces the best so far: on an equal
   * score only when later entries win ties.
   */
  function Improves(s: real, best: real, laterWins: bool): bool
  {
    if laterWins then s <= best else s < best
  }

  /** Score of every candidate position of `sv` (0 elsewhere). */
  function CandidateScores(rows: seq<Sample>, P: seq<nat>, n: nat, f: nat, sv: seq<real>): (sc: seq<real>)
    requires InRows(rows, P) && HasFeature(rows, f) && |sv| == |P|
    ensures |sc| == |sv|
  {
    seq(|sv|, j requires 0 <= j < |sv| =>
      if IsCandidate(sv, j) then Score(rows, P, n, f, CandidateValue(sv, j)) else 0.0)
  }

  /** The split point candidate position j stands for. */
  function Cand(f: nat, sv: seq<real>, sc: seq<real>, j: int): SplitPoint
    requires |sc| == |sv| && IsCandidate(sv, j)
  {
    SplitPoint(f, CandidateValue(sv, j), sc[j])
  }

  /**
   * The scan over sorted positions i.. that every variant performs for one
   * feature, `sc` holding the candidates' scores.
   */
  function ScanFrom(f: nat, keepLast: bool, sv: seq<real>, sc: seq<real>, i: nat, best: SplitPoint): SplitPoint
    requires |sc| == |sv| && 1 <= i
    decreases |sv| - i
  {
    if i >= |sv| then best
    else if !IsCandidate(sv, i) then ScanFrom(f, keepLast, sv, sc, i + 1, best)
    else
      var c := Cand(f, sv, sc, i);
      ScanFrom(f, keepLast, sv, sc, i + 1, if Improves(c.score, best.score, keepLast) then c else best)
  }

  /** All positions of a table. */
  function Indices(m: nat): (P: seq<nat>)
    ensures |P| == m && forall j :: 0 <= j < m ==> P[j] == j
  {
    seq(m, j requires 0 <= j => j)
  }

  function DefaultValue(rows: seq<Sample>, f: nat, pol: Policy): real
    requires HasFeature(rows, f)
  {
    if pol.defaultFromMinimum && |rows| > 0 then Sort(Values(rows, Indices(|rows|), f))[0] else 0.0
  }

  /** The best split point of feature `f` on `P`. */
  function FeatureBest(rows: seq<Sample>, P: seq<nat>, n: nat, f: nat, pol: Policy): SplitPoint
    requires InRows(rows, P) && HasFeature(rows, f)
  {
    var sv := Sort(Values(rows, P, f));
    ScanFrom(f, pol.keepLastMinimum, sv, CandidateScores(rows, P, n, f, sv), 1,
             SplitPoint(f, DefaultValue(rows, f, pol), NoSplitScore))
  }

  /** The best split point of every feature, in feature order. */
  function FeatureBests(rows: seq<Sample>, P: seq<nat>, n: nat, d: nat, pol: Policy): (fbs: seq<SplitPoint>)
    requires InRows(rows, P) && Width(rows, d)
    ensures |fbs| == d
  {
    seq(d, f requires 0 <= f < d => FeatureBest(rows, P, n, f, pol))
  }

  /** The scan over features f.. that keeps the best per-feature split point. */
  function AcrossFrom(fbs: seq<SplitPoint>, laterWins: bool, f: nat, best: SplitPoint): SplitPoint
    decreases |fbs| - f
  {
    if f >= |fbs| then best
    else AcrossFrom(fbs, laterWins, f + 1, if Improves(fbs[f].score, best.score, laterWins) then fbs[f] else best)
  }

  /** The split point a node takes: the best over features 0..d-1. */
  function BestSplit(rows: seq<Sample>, P: seq<nat>, n: nat, d: nat, pol: Policy): SplitPoint
    requires InRows(rows, P) && Width(rows, d)
  {
    AcrossFrom(FeatureBests(rows, P, n, d, pol), pol.laterFeatureWins, 0, SplitPoint(0, 0.0, NoSplitScore))
  }

  /** Lowest label holding the maximum of `counts[i..]` over `counts[best]`, scanning with `<`. */
  function ArgMaxFrom(counts: seq<nat>, i: nat, best: nat): nat
    requires best < |counts|
    decreases |counts| - i
  {
    if i >= |counts| then best
    else ArgMaxFrom(counts, i + 1, if counts[best] < counts[i] then i else best)
  }

  function Majority(counts: seq<nat>, fromZero: bool): nat
    requires |counts| >= 2
  {
    if fromZero then ArgMaxFrom(counts, 1, 0) else ArgMaxFrom(counts, 2, 1)
  }

  ghost predicate Fits(rows: seq<Sample>, n: nat, d: nat)
  {
    n >= 1 && d >= 1 && LabelsIn(rows, n) && Width(rows, d)
  }

  predicate IsLeafNode(counts: seq<nat>, maj: nat, size: nat, minSplit: nat, purity: real)
    requires maj < |counts|
  {
    size <= minSplit || counts[maj] as real / size as real >= purity
  }

  /** The tree the learner grows from partition `P`, or `Loops`. */
  function Build(rows: seq<Sample>, n: nat, d: nat, minSplit: nat, purity: real, pol: Policy,
                 P: seq<nat>): Outcome
    requires Fits(rows, n, d) && InRows(rows, P)
    decreases |P|
  {
    var counts := PartCounts(rows, P, n);
    var maj := Majority(counts, pol.majorityFromZero);
    MajorityInRange(counts, pol.majorityFromZero);
    if IsLeafNode(counts, maj, |P|, minSplit, purity) then Finished(Leaf(maj))
    else
      var sp := BestSplit(rows, P, n, d, pol);
      BestSplitFeature(rows, P, n, d, pol);
      var yes := Below(rows, P, sp.feature, sp.value);
      var no := Above(rows, P, sp.feature, sp.value);
      SplitSizes(rows, P, sp.feature, sp.value);
      if yes == [] || no == [] then Loops
      else
        var l := Build(rows, n, d, minSplit, purity, pol, yes);
        var r := Build(rows, n, d, minSplit, purity, pol, no);
        if l.Loops? || r.Loops? then Loops
        else Finished(Node(sp, Some(l.tree), Some(r.tree)))
  }

  /** The tree grown from every training row. */
  function Grow(rows: seq<Sample>, n: nat, d: nat, minSplit: nat, purity: real, pol: Policy): Outcome
    requires Fits(rows, n, d)
  {
    Build(rows, n, d, minSplit, purity, pol, Indices(|rows|))
  }

  ghost predicate FeaturesBelow(t: Tree, d: nat)
  {
    match t
    case Leaf(_) => true
    case Node(sp, l, r) =>
      sp.feature < d
      && (l.Some? ==> FeaturesBelow(l.value, d))
      && (r.Some? ==> FeaturesBelow(r.value, d))
  }

  /**
   * Descend from the root: at a node go left when the sample's feature is at
   * most the split value.  `None` stands for following a null child.
   */
  function Predict(t: Tree, x: seq<real>): Option<nat>
    requires FeaturesBelow(t, |x|)
  {
    match t
    case Leaf(c) => Some(c)
    case Node(sp, l, r) =>
      if l.None? && r.None? then None
      else
        var next := if x[sp.feature] <= sp.value then l else r;
        if next.None? then None else Predict(next.value, x)
  }

  // ---------------------------------------------------------------------
  // Lemmas
  // ---------------------------------------------------------------------

  lemma {:induction false} MajorityFirstMax(counts: seq<nat>, i: nat, best: nat)
    requires best < |counts| && best < i
    ensures var k := ArgMaxFrom(counts, i, best);
            k < |counts| && best <= k
            && counts[best] <= counts[k]
            && (forall j :: i <= j < |counts| ==> counts[j] <= counts[k])
            && (k == best || (i <= k && forall j :: i <= j < k ==> counts[j] < counts[k]))
            && (k != best ==> counts[best] < counts[k])
    decreases |counts| - i
  {
    if i < |counts| {
      var next := if counts[best] < counts[i] then i else best;
      MajorityFirstMax(counts, i + 1, next);
    }
  }

  lemma MajorityInRange(counts: seq<nat>, fromZero: bool)
    requires |counts| >= 2
    ensures Majority(counts, fromZero) < |counts|
    ensures !fromZero ==> Majority(counts, fromZero) >= 1
  {
    if fromZero { MajorityFirstMax(counts, 1, 0); } else { MajorityFirstMax(counts, 2, 1); }
  }

  /**
   * The majority label is the lowest label among those with the largest
   * count (label 0 included only when the scan starts there).
   */
  lemma MajorityIsLowestMax(counts: seq<nat>, fromZero: bool)
    requires |counts| >= 2
    ensures var lo := if fromZero then 0 else 1;
            var k := Majority(counts, fromZero);
            lo <= k < |counts|
            && (forall j :: lo <= j < |counts| ==> counts[j] <= counts[k])
            && (forall j :: lo <= j < k ==> counts[j] < counts[k])
  {
    var lo := if fromZero then 0 else 1;
    MajorityFirstMax(counts, lo + 1, lo);
  }

  lemma SplitSizes(rows: seq<Sample>, P: seq<nat>, f: nat, t: real)
    requires InRows(rows, P) && HasFeature(rows, f)
    ensures |Below(rows, P, f, t)| + |Above(rows, P, f, t)| == |P|
    ensures InRows(rows, Below(rows, P, f, t)) && InRows(rows, Above(rows, P, f, t))
    ensures forall j :: 0 <= j < |P| && rows[P[j]].features[f] <= t ==> P[j] in Below(rows, P, f, t)
    ensures forall j :: 0 <= j < |P| && rows[P[j]].features[f] > t ==> P[j] in Above(rows, P, f, t)
    ensures forall x :: x in Below(rows, P, f, t) ==> x in P && rows[x].features[f] <= t
    ensures forall x :: x in Above(rows, P, f, t) ==> x in P && rows[x].features[f] > t
  {
    SideSizes(rows, P, f, t);
    SidesCover(rows, P, f, t);
    SidesWithin(rows, P, f, t);
  }

  lemma {:induction false} SideSizes(rows: seq<Sample>, P: seq<nat>, f: nat, t: real)
    requires InRows(rows, P) && HasFeature(rows, f)
    ensures |Below(rows, P, f, t)| + |Above(rows, P, f, t)| == |P|
    ensures InRows(rows, Below(rows, P, f, t)) && InRows(rows, Above(rows, P, f, t))
  {
    if P != [] {
      SplitStep(rows, P, f, t);
      SideSizes(rows, P[..|P| - 1], f, t);
    }
  }

  lemma {:induction false} SidesCover(rows: seq<Sample>, P: seq<nat>, f: nat, t: real)
    requires InRows(rows, P) && HasFeature(rows, f)
    ensures forall j :: 0 <= j < |P| && rows[P[j]].features[f] <= t ==> P[j] in Below(rows, P, f, t)
    ensures forall j :: 0 <= j < |P| && rows[P[j]].features[f] > t ==> P[j] in Above(rows, P, f, t)
  {
    if P != [] {
      SplitStep(rows, P, f, t);
      SidesCover(rows, P[..|P| - 1], f, t);
    }
  }

  lemma {:induction false} SidesWithin(rows: seq<Sample>, P: seq<nat>, f: nat, t: real)
    requires InRows(rows, P) && HasFeature(rows, f)
    ensures forall x :: x in Below(rows, P, f, t) ==> x in P && rows[x].features[f] <= t
    ensures forall x :: x in Above(rows, P, f, t) ==> x in P && rows[x].features[f] > t
  {
    if P != [] {
      SplitStep(rows, P, f, t);
      SidesWithin(rows, P[..|P| - 1], f, t);
    }
  }

  /** How the last position of `P` extends the two sides of its front. */
  lemma SplitStep(rows: seq<Sample>, P: seq<nat>, f: nat, t: real)
    requires InRows(rows, P) && HasFeature(rows, f) && P != []
    ensures var k := |P| - 1;
            InRows(rows, P[..k])
            && Below(rows, P, f, t) == Below(rows, P[..k], f, t) + (if rows[P[k]].features[f] <= t then [P[k]] else [])
            && Above(rows, P, f, t) == Above(rows, P[..k], f, t) + (if rows[P[k]].features[f] <= t then [] else [P[k]])
            && (forall j :: 0 <= j < k ==> P[..k][j] == P[j])
            && (forall x :: x in P <==> x in P[..k] || x == P[k])
  {
    var k := |P| - 1;
    assert P == P[..k] + [P[k]];
  }

  /** The score recorded for a candidate position is the score of its midpoint split. */
  lemma CandidateScoreAt(rows: seq<Sample>, P: seq<nat>, n: nat, f: nat, sv: seq<real>, j: int)
    requires InRows(rows, P) && HasFeature(rows, f) && |sv| == |P| && IsCandidate(sv, j)
    ensures CandidateScores(rows, P, n, f, sv)[j] == Score(rows, P, n, f, CandidateValue(sv, j))
  {
  }

  /** One step of the scan: position j either replaces the best so far or leaves it. */
  lemma ScanAdvance(f: nat, keepLast: bool, sv: seq<real>, sc: seq<real>, j: nat,
                    best: SplitPoint, next: SplitPoint)
    requires |sc| == |sv| && 1 <= j < |sv|
    requires next == if IsCandidate(sv, j) && Improves(sc[j], best.score, keepLast)
                     then Cand(f, sv, sc, j) else best
    ensures ScanFrom(f, keepLast, sv, sc, j, best) == ScanFrom(f, keepLast, sv, sc, j + 1, next)
  {
  }

  lemma BestSplitFeature(rows: seq<Sample>, P: seq<nat>, n: nat, d: nat, pol: Policy)
    requires InRows(rows, P) && Width(rows, d) && d >= 1
    ensures BestSplit(rows, P, n, d, pol).feature < d
    ensures HasFeature(rows, BestSplit(rows, P, n, d, pol).feature)
  {
    var fbs := FeatureBests(rows, P, n, d, pol);
    forall f | 0 <= f < d ensures fbs[f].feature < d {
      FeatureBestFeature(rows, P, n, f, pol);
    }
    AcrossFromFeature(fbs, pol.laterFeatureWins, d, 0, SplitPoint(0, 0.0, NoSplitScore));
  }

  lemma {:induction false} AcrossFromFeature(fbs: seq<SplitPoint>, laterWins: bool, d: nat, f: nat, best: SplitPoint)
    requires best.feature < d
    requires forall g :: 0 <= g < |fbs| ==> fbs[g].feature < d
    ensures AcrossFrom(fbs, laterWins, f, best).feature < d
    decreases |fbs| - f
  {
    if f < |fbs| {
      AcrossFromFeature(fbs, laterWins, d, f + 1,
                        if Improves(fbs[f].score, best.score, laterWins) then fbs[f] else best);
    }
  }

  lemma FeatureBestFeature(rows: seq<Sample>, P: seq<nat>, n: nat, f: nat, pol: Policy)
    requires InRows(rows, P) && HasFeature(rows, f)
    ensures FeatureBest(rows, P, n, f, pol).feature == f
  {
    var sv := Sort(Values(rows, P, f));
    ScanFromFeature(f, pol.keepLastMinimum, sv, CandidateScores(rows, P, n, f, sv), 1,
                    SplitPoint(f, DefaultValue(rows, f, pol), NoSplitScore));
  }

  lemma {:induction false} ScanFromFeature(f: nat, keepLast: bool, sv: seq<real>, sc: seq<real>, i: nat, best: SplitPoint)
    requires |sc| == |sv| && 1 <= i && best.feature == f
    ensures ScanFrom(f, keepLast, sv, sc, i, best).feature == f
    decreases |sv| - i
  {
    if i < |sv| {
      if IsCandidate(sv, i) {
        var c := Cand(f, sv, sc, i);
        ScanFromFeature(f, keepLast, sv, sc, i + 1, if Improves(c.score, best.score, keepLast) then c else best);
      } else {
        ScanFromFeature(f, keepLast, sv, sc, i + 1, best);
      }
    }
  }
}
