/**
 * The decision tree of `src/`: one table per feature of (row index, value,
 * label) entries sorted by value, built once; a partition is a mask over
 * the rows.  A feature is scored in one sweep over its table: the first
 * row of the partition starts side "yes", the others start side "no", and
 * each further row moves from "no" to "yes", the split between two distinct
 * values being scored just before the row that starts the new value moves.
 * An earlier candidate and a later feature win ties (`<`, `>=`), the
 * majority is the first largest count from label 0 on, and a feature
 * without candidates reports the midpoint of its table's first entry with
 * itself: the smallest value of that feature over all training rows.
 *
 * Each method is proved to compute what `TreeSpec` defines for
 * `SweepPolicy`, whatever order the sort leaves equal values in.
 */
module SweepTree {
  import opened Samples
  import opened Gini
  import opened Sorting
  import opened TreeSpec
  import opened TreeFacts
  import opened TreeLoops
  import opened EntryTable

  const SweepPolicy: Policy := Policy(false, true, true, true)

  // ---------------------------------------------------------------------
  // Class counts of runs of the visit
  // ---------------------------------------------------------------------

  /** Class counts of the rows at positions lo..hi-1 of a visit `Q`. */
  ghost function RunCounts(rows: seq<Sample>, Q: seq<nat>, lo: nat, hi: nat, n: nat): (counts: seq<nat>)
    requires InRows(rows, Q) && lo <= hi <= |Q|
    ensures |counts| == n + 1
  {
    assert InRows(rows, Q[lo..hi]);
    ClassCounts(Gather(rows, Q[lo..hi]), n)
  }

  /** An empty run counts nothing. */
  lemma RunCountsEmpty(rows: seq<Sample>, Q: seq<nat>, lo: nat, n: nat)
    requires InRows(rows, Q) && lo <= |Q|
    ensures RunCounts(rows, Q, lo, lo, n) == seq(n + 1, _ => 0)
  {
    assert Gather(rows, Q[lo..lo]) == [];
  }

  /** Extending a run at its end adds one to the label of the new row. */
  lemma RunCountsSnoc(rows: seq<Sample>, Q: seq<nat>, lo: nat, hi: nat, n: nat)
    requires InRows(rows, Q) && LabelsIn(rows, n) && lo <= hi < |Q|
    ensures var c := rows[Q[hi]].cls;
            1 <= c <= n
            && RunCounts(rows, Q, lo, hi + 1, n) == RunCounts(rows, Q, lo, hi, n)[c := RunCounts(rows, Q, lo, hi, n)[c] + 1]
  {
    assert Gather(rows, Q[lo..hi + 1]) == Gather(rows, Q[lo..hi]) + [rows[Q[hi]]];
    ClassCountsSnoc(Gather(rows, Q[lo..hi]), rows[Q[hi]], n);
  }

  /** Shortening a run at its start removes one from the label of the row left behind. */
  lemma RunCountsDrop(rows: seq<Sample>, Q: seq<nat>, lo: nat, hi: nat, n: nat)
    requires InRows(rows, Q) && LabelsIn(rows, n) && lo < hi <= |Q|
    ensures var c := rows[Q[lo]].cls;
            1 <= c <= n && RunCounts(rows, Q, lo, hi, n)[c] >= 1
            && RunCounts(rows, Q, lo + 1, hi, n) == RunCounts(rows, Q, lo, hi, n)[c := RunCounts(rows, Q, lo, hi, n)[c] - 1]
  {
    assert Gather(rows, Q[lo..hi]) == [rows[Q[lo]]] + Gather(rows, Q[lo + 1..hi]);
    ClassCountsCons(rows[Q[lo]], Gather(rows, Q[lo + 1..hi]), n);
  }

  /** The counts of a run add up to its length, label 0 counting nothing. */
  lemma RunSize(rows: seq<Sample>, Q: seq<nat>, lo: nat, hi: nat, n: nat)
    requires InRows(rows, Q) && LabelsIn(rows, n) && lo <= hi <= |Q|
    ensures Sum(RunCounts(rows, Q, lo, hi, n), 0, n + 1) == hi - lo
  {
    var g := Gather(rows, Q[lo..hi]);
    assert LabelsIn(g, n);
    CountsAddUp(g, n);
    CountLabelBounds(g, 0);
  }

  /** The sorted values of feature `f` over the partition a mask stands for. */
  ghost function SortedValues(rows: seq<Sample>, mask: seq<bool>, f: nat): seq<real>
    requires |mask| == |rows| && HasFeature(rows, f)
  {
    GatherMembers(rows, mask);
    Sort(Values(rows, Members(mask), f))
  }

  /** The scores of the candidates of the partition a mask stands for. */
  ghost function MaskScores(rows: seq<Sample>, mask: seq<bool>, n: nat, f: nat): (sc: seq<real>)
    requires |mask| == |rows| && HasFeature(rows, f)
    ensures |sc| == |SortedValues(rows, mask, f)|
  {
    GatherMembers(rows, mask);
    CandidateScores(rows, Members(mask), n, f, SortedValues(rows, mask, f))
  }

  /** The best split point of feature `f` on the partition a mask stands for. */
  ghost function MaskBest(rows: seq<Sample>, mask: seq<bool>, n: nat, f: nat): SplitPoint
    requires |mask| == |rows| && HasFeature(rows, f)
  {
    GatherMembers(rows, mask);
    FeatureBest(rows, Members(mask), n, f, SweepPolicy)
  }

  /** The facts the sweep starts from: the visit's length, and the default split value. */
  lemma SweepSetup(rows: seq<Sample>, f: nat, column: seq<Entry>, mask: seq<bool>)
    requires SortedColumn(rows, f, column) && |mask| == |rows|
    ensures InRows(rows, Visit(column, mask))
    ensures |Visit(column, mask)| == Trues(ExistingMask(column, mask)) == |SortedValues(rows, mask, f)|
    ensures |column| == |rows| && (|rows| > 0 ==> DefaultValue(rows, f, SweepPolicy) == column[0].attr)
  {
    VisitFacts(rows, f, column, mask);
    ColumnEntries(rows, f, column);
    if |rows| > 0 {
      ColumnMinimum(rows, f, column);
    }
  }

  /** The visit lists as many rows as the partition has sorted values. */
  lemma VisitLength(rows: seq<Sample>, f: nat, column: seq<Entry>, mask: seq<bool>)
    requires SortedColumn(rows, f, column) && |mask| == |rows|
    ensures InRows(rows, Visit(column, mask)) && |SortedValues(rows, mask, f)| == |Visit(column, mask)|
  {
    VisitFacts(rows, f, column, mask);
  }

  /**
   * Candidate `k` of the partition's sorted values is scored by the
   * weighted Gini index of the first `k` visited rows and the rest.
   */
  lemma CandidateRuns(rows: seq<Sample>, f: nat, column: seq<Entry>, mask: seq<bool>, n: nat, k: nat)
    requires SortedColumn(rows, f, column) && |mask| == |rows|
    requires IsCandidate(SortedValues(rows, mask, f), k)
    ensures InRows(rows, Visit(column, mask))
    ensures k < |Visit(column, mask)|
    ensures var Q := Visit(column, mask);
            MaskScores(rows, mask, n, f)[k]
            == WeightedGini(RunCounts(rows, Q, 0, k, n), k, RunCounts(rows, Q, k, |Q|, n), |Q| - k)
  {
    VisitFacts(rows, f, column, mask);
    var Q := Visit(column, mask);
    var sv := SortedValues(rows, mask, f);
    assert sv == Values(rows, Q, f);
    MaskScoreAt(rows, mask, n, f, k);
    SweepScore(rows, Members(mask), Q, n, f, k);
    assert Q[0..k] == Q[..k] && Q[k..|Q|] == Q[k..];
  }

  /** The recorded score of candidate `k` is the score of its midpoint split. */
  lemma MaskScoreAt(rows: seq<Sample>, mask: seq<bool>, n: nat, f: nat, k: nat)
    requires |mask| == |rows| && HasFeature(rows, f) && IsCandidate(SortedValues(rows, mask, f), k)
    ensures InRows(rows, Members(mask))
    ensures MaskScores(rows, mask, n, f)[k]
            == Score(rows, Members(mask), n, f, CandidateValue(SortedValues(rows, mask, f), k))
  {
    GatherMembers(rows, mask);
    CandidateScoreAt(rows, Members(mask), n, f, SortedValues(rows, mask, f), k);
  }

  /** What the sweep learns from table position `p`. */
  lemma EntryStep(rows: seq<Sample>, f: nat, column: seq<Entry>, mask: seq<bool>, n: nat, p: nat)
    requires SortedColumn(rows, f, column) && |mask| == |rows| && LabelsIn(rows, n) && p < |column|
    ensures var em := ExistingMask(column, mask);
            var Q := Visit(column, mask);
            var k := Trues(em[..p]);
            InRows(rows, Q) && column[p].idx < |mask| && |SortedValues(rows, mask, f)| == |Q|
            && em[p] == mask[column[p].idx]
            && Trues(em[..p + 1]) == k + (if em[p] then 1 else 0) && Trues(em[..p + 1]) <= |Q|
            && (em[p] ==> Q[k] == column[p].idx && column[p].cls == rows[Q[k]].cls
                          && SortedValues(rows, mask, f)[k] == column[p].attr)
  {
    VisitAt(rows, f, column, mask, p);
    VisitFacts(rows, f, column, mask);
    ColumnEntries(rows, f, column);
  }

  /** One more position of a mask adds its mark to the count of the prefix. */
  lemma TruesStep(m: seq<bool>, p: nat)
    requires p < |m|
    ensures Trues(m[..p + 1]) == Trues(m[..p]) + (if m[p] then 1 else 0)
    ensures Trues(m[..p + 1]) <= Trues(m)
  {
    assert m[..p + 1][..p] == m[..p];
    TruesPrefix(m, p + 1);
  }

  /**
   * What the sweep over `column` knows of the partition a mask stands for:
   * `Q` is its visit, `em` marks the table positions of its rows, `sv` is
   * its sorted values and `sc` its candidates' scores.
   */
  ghost predicate Frame(rows: seq<Sample>, column: seq<Entry>, mask: seq<bool>, n: nat,
                        Q: seq<nat>, em: seq<bool>, sv: seq<real>, sc: seq<real>)
  {
    InRows(rows, Q) && LabelsIn(rows, n)
    && |em| == |column| && Trues(em) == |Q| && |sv| == |Q| && |sc| == |Q|
    && (forall p :: 0 <= p < |column| ==> column[p].idx < |mask| && em[p] == mask[column[p].idx])
    && (forall p :: 0 <= p < |column| && em[p] ==>
          Trues(em[..p]) < |Q| && Q[Trues(em[..p])] == column[p].idx
          && column[p].cls == rows[column[p].idx].cls && sv[Trues(em[..p])] == column[p].attr)
    && (forall k :: IsCandidate(sv, k) ==> ScoredAt(rows, Q, sc, n, k))
  }

  /** The score at candidate `k` is the weighted Gini index of the rows before `k` and from `k` on. */
  ghost predicate ScoredAt(rows: seq<Sample>, Q: seq<nat>, sc: seq<real>, n: nat, k: nat)
  {
    InRows(rows, Q) && 1 <= k < |Q| && k < |sc|
    && sc[k] == WeightedGini(RunCounts(rows, Q, 0, k, n), k, RunCounts(rows, Q, k, |Q|, n), |Q| - k)
  }

  /** The frame of the partition a mask stands for. */
  lemma FrameHolds(rows: seq<Sample>, f: nat, column: seq<Entry>, mask: seq<bool>, n: nat)
    requires SortedColumn(rows, f, column) && |mask| == |rows| && LabelsIn(rows, n)
    ensures Frame(rows, column, mask, n, Visit(column, mask), ExistingMask(column, mask),
                  SortedValues(rows, mask, f), MaskScores(rows, mask, n, f))
  {
    SweepSetup(rows, f, column, mask);
    FrameEntries(rows, f, column, mask, n);
    FrameScores(rows, f, column, mask, n);
  }

  lemma FrameEntries(rows: seq<Sample>, f: nat, column: seq<Entry>, mask: seq<bool>, n: nat)
    requires SortedColumn(rows, f, column) && |mask| == |rows| && LabelsIn(rows, n)
    ensures InRows(rows, Visit(column, mask)) && |SortedValues(rows, mask, f)| == |Visit(column, mask)|
    ensures var Q := Visit(column, mask);
            var em := ExistingMask(column, mask);
            var sv := SortedValues(rows, mask, f);
            (forall p :: 0 <= p < |column| ==> column[p].idx < |mask| && em[p] == mask[column[p].idx])
            && (forall p :: 0 <= p < |column| && em[p] ==>
                  Trues(em[..p]) < |Q| && Q[Trues(em[..p])] == column[p].idx
                  && column[p].cls == rows[column[p].idx].cls && sv[Trues(em[..p])] == column[p].attr)
  {
    var Q := Visit(column, mask);
    var em := ExistingMask(column, mask);
    var sv := SortedValues(rows, mask, f);
    SweepSetup(rows, f, column, mask);
    forall p | 0 <= p < |column|
      ensures column[p].idx < |mask| && em[p] == mask[column[p].idx]
      ensures em[p] ==> Trues(em[..p]) < |Q| && Q[Trues(em[..p])] == column[p].idx
                        && column[p].cls == rows[column[p].idx].cls && sv[Trues(em[..p])] == column[p].attr
    {
      EntryStep(rows, f, column, mask, n, p);
    }
  }

  lemma FrameScores(rows: seq<Sample>, f: nat, column: seq<Entry>, mask: seq<bool>, n: nat)
    requires SortedColumn(rows, f, column) && |mask| == |rows| && LabelsIn(rows, n)
    ensures InRows(rows, Visit(column, mask)) && |SortedValues(rows, mask, f)| == |Visit(column, mask)|
    ensures var Q := Visit(column, mask);
            var sv := SortedValues(rows, mask, f);
            var sc := MaskScores(rows, mask, n, f);
            forall k :: IsCandidate(sv, k) ==> ScoredAt(rows, Q, sc, n, k)
  {
    var Q := Visit(column, mask);
    var sv := SortedValues(rows, mask, f);
    var sc := MaskScores(rows, mask, n, f);
    VisitLength(rows, f, column, mask);
    forall k | IsCandidate(sv, k)
      ensures ScoredAt(rows, Q, sc, n, k)
    {
      CandidateRuns(rows, f, column, mask, n, k);
    }
  }

  // ---------------------------------------------------------------------
  // Scoring one feature
  // ---------------------------------------------------------------------

  /**
   * Weighted Gini index of the two sides given by their sizes and class
   * counts; an empty side keeps impurity 1.  The program divides by the
   * sum of the sizes without checking it.
   */
  method CalculateGini(sizeY: nat, countsY: seq<nat>, sizeN: nat, countsN: seq<nat>) returns (score: real)
    requires |countsY| >= 1 && |countsN| >= 1 && sizeY + sizeN > 0
    ensures score == WeightedGini(countsY, sizeY, countsN, sizeN)
  {
    var giniY := 1.0;
    if sizeY > 0 {
      giniY := SubtractSquaredShares(countsY, sizeY);
    }
    var giniN := 1.0;
    if sizeN > 0 {
      giniN := SubtractSquaredShares(countsN, sizeN);
    }
    var total := (sizeY + sizeN) as real;
    score := sizeY as real / total * giniY + sizeN as real / total * giniN;
  }

  /**
   * The first loop's state after table positions 0..p-1, `t` of them rows
   * of the partition: the first of those is on side "yes" (found at
   * `right`), the others on side "no".
   */
  ghost predicate FirstSeen(rows: seq<Sample>, column: seq<Entry>, n: nat, Q: seq<nat>, em: seq<bool>,
                            sv: seq<real>, p: nat, t: nat,
                            sizeY: nat, countsY: seq<nat>, countsN: seq<nat>, right: nat)
    requires InRows(rows, Q) && p <= |em|
  {
    t == Trues(em[..p]) && t <= |Q| && sizeY == (if t == 0 then 0 else 1)
    && countsY == RunCounts(rows, Q, 0, sizeY, n) && countsN == RunCounts(rows, Q, sizeY, t, n)
    && (t > 0 ==> right < p && right < |column| && em[right] && Trues(em[..right]) == 0
                  && 0 < |sv| && column[right].attr == sv[0])
    && (t == 0 ==> right == 0)
  }

  /** One table position of the first loop. */
  method FirstStep(ghost rows: seq<Sample>, column: seq<Entry>, mask: seq<bool>, n: nat, p: nat,
                   sizeY: nat, countsY: seq<nat>, countsN: seq<nat>, right: nat, ghost t: nat,
                   ghost Q: seq<nat>, ghost em: seq<bool>, ghost sv: seq<real>, ghost sc: seq<real>)
    returns (sizeY': nat, countsY': seq<nat>, countsN': seq<nat>, right': nat, ghost t': nat)
    requires Frame(rows, column, mask, n, Q, em, sv, sc) && p < |column|
    requires FirstSeen(rows, column, n, Q, em, sv, p, t, sizeY, countsY, countsN, right)
    ensures FirstSeen(rows, column, n, Q, em, sv, p + 1, t', sizeY', countsY', countsN', right')
  {
    TruesStep(em, p);
    sizeY', countsY', countsN', right', t' := sizeY, countsY, countsN, right, t;
    var idx := column[p].idx;
    if mask[idx] {
      var cls := column[p].cls;
      if sizeY == 0 {
        RunCountsSnoc(rows, Q, 0, 0, n);
        RunCountsEmpty(rows, Q, 1, n);
        sizeY' := 1;
        countsY' := countsY[cls := countsY[cls] + 1];
        right' := p;
      } else {
        RunCountsSnoc(rows, Q, 1, t, n);
        countsN' := countsN[cls := countsN[cls] + 1];
      }
      t' := t + 1;
    }
  }

  /**
   * The first loop of the sweep: the first row of the partition in table
   * order goes to side "yes", every later one to side "no".
   */
  method FirstEntry(ghost rows: seq<Sample>, column: seq<Entry>, mask: seq<bool>, n: nat,
                    ghost Q: seq<nat>, ghost em: seq<bool>, ghost sv: seq<real>, ghost sc: seq<real>)
    returns (sizeY: nat, countsY: seq<nat>, countsN: seq<nat>, right: nat)
    requires Frame(rows, column, mask, n, Q, em, sv, sc)
    ensures sizeY == (if Q == [] then 0 else 1)
    ensures countsY == RunCounts(rows, Q, 0, sizeY, n) && countsN == RunCounts(rows, Q, sizeY, |Q|, n)
    ensures Q != [] ==> right < |column| && em[right] && Trues(em[..right]) == 0 && column[right].attr == sv[0]
    ensures Q == [] ==> right == 0
  {
    sizeY, right := 0, 0;
    countsY := seq(n + 1, _ => 0);
    countsN := seq(n + 1, _ => 0);
    RunCountsEmpty(rows, Q, 0, n);
    ghost var t := 0;
    for p := 0 to |column|
      invariant FirstSeen(rows, column, n, Q, em, sv, p, t, sizeY, countsY, countsN, right)
    {
      sizeY, countsY, countsN, right, t := FirstStep(rows, column, mask, n, p, sizeY, countsY, countsN, right, t,
                                                     Q, em, sv, sc);
    }
    assert em[..|column|] == em;
  }

  /**
   * The sweep's running state: the sizes and class counts of sides "yes"
   * and "no", the best score so far, and the two table positions whose
   * values the best split lies between.
   */
  datatype Sweep = Sweep(sizeY: nat, countsY: seq<nat>, sizeN: nat, countsN: seq<nat>,
                         bestGini: real, bestLeft: nat, bestRight: nat)

  /**
   * The state after the first `s.sizeY` rows of the visit `Q` have moved to
   * side "yes": the sides are the two runs of the visit, and the ghost
   * split point `cur` (the best so far) is where the specification's scan
   * of feature `f` stands before position `s.sizeY`, the scan ending at
   * `target`.
   */
  ghost predicate Swept(rows: seq<Sample>, f: nat, column: seq<Entry>, n: nat, Q: seq<nat>,
                        sv: seq<real>, sc: seq<real>, s: Sweep, cur: SplitPoint, target: SplitPoint)
    requires InRows(rows, Q) && |sc| == |sv|
  {
    var k := s.sizeY;
    k <= |Q| && (k == 0 <==> |Q| == 0) && s.sizeN == |Q| - k
    && s.countsY == RunCounts(rows, Q, 0, k, n) && s.countsN == RunCounts(rows, Q, k, |Q|, n)
    && ScanFrom(f, false, sv, sc, if k == 0 then 1 else k, cur) == target
    && cur.feature == f && cur.score == s.bestGini && s.bestLeft < |column| && s.bestRight < |column|
    && cur.value == Midpoint(column[s.bestLeft].attr, column[s.bestRight].attr)
  }

  /**
   * The anchor of a run: the last row moved to side "yes" sits at table
   * position `left`.
   */
  ghost predicate Anchored(column: seq<Entry>, em: seq<bool>, sv: seq<real>, left: nat, k: nat)
  {
    left < |column| && left < |em| && 0 < k <= |sv| && em[left] && Trues(em[..left]) == k - 1
    && column[left].attr == sv[k - 1]
  }

  /**
   * Moving the next row of the visit to side "yes" keeps the state a sweep
   * state, once the scan has stepped over its position to `next`.
   */
  lemma MoveToYes(rows: seq<Sample>, f: nat, column: seq<Entry>, n: nat, Q: seq<nat>, sv: seq<real>, sc: seq<real>,
                  s: Sweep, cur: SplitPoint, target: SplitPoint,
                  next: SplitPoint, bestGini: real, bestLeft: nat, bestRight: nat)
    requires InRows(rows, Q) && LabelsIn(rows, n) && |sc| == |sv|
    requires Swept(rows, f, column, n, Q, sv, sc, s, cur, target) && 0 < s.sizeY < |Q|
    requires ScanFrom(f, false, sv, sc, s.sizeY, cur) == ScanFrom(f, false, sv, sc, s.sizeY + 1, next)
    requires next.feature == f && next.score == bestGini && bestLeft < |column| && bestRight < |column|
    requires next.value == Midpoint(column[bestLeft].attr, column[bestRight].attr)
    ensures var c := rows[Q[s.sizeY]].cls;
            c < |s.countsY| && c < |s.countsN| && s.countsN[c] >= 1
            && Swept(rows, f, column, n, Q, sv, sc,
                     Sweep(s.sizeY + 1, s.countsY[c := s.countsY[c] + 1], s.sizeN - 1,
                           s.countsN[c := s.countsN[c] - 1], bestGini, bestLeft, bestRight), next, target)
  {
    RunCountsSnoc(rows, Q, 0, s.sizeY, n);
    RunCountsDrop(rows, Q, s.sizeY, |Q|, n);
  }

  /**
   * One table position of the inner loop: a row of the partition moves to
   * side "yes"; when its value differs from the anchor's, the split before
   * it is scored first and the run ends (`ended`).
   */
  method MoveEntry(ghost rows: seq<Sample>, ghost f: nat, column: seq<Entry>, mask: seq<bool>, n: nat,
                   left: nat, right: nat, s: Sweep, ghost cur: SplitPoint, ghost target: SplitPoint,
                   ghost Q: seq<nat>, ghost em: seq<bool>, ghost sv: seq<real>, ghost sc: seq<real>)
    returns (ended: bool, s': Sweep, ghost cur': SplitPoint)
    requires Frame(rows, column, mask, n, Q, em, sv, sc) && left < right < |column|
    requires Swept(rows, f, column, n, Q, sv, sc, s, cur, target)
    requires s.sizeY == Trues(em[..right])
    requires s.sizeY > 0 ==> column[left].attr == sv[s.sizeY - 1]
    ensures Swept(rows, f, column, n, Q, sv, sc, s', cur', target)
    ensures s'.sizeY == Trues(em[..right + 1])
    ensures ended ==> s'.sizeY > 0 && Anchored(column, em, sv, right, s'.sizeY)
    ensures !ended ==> (s'.sizeY > 0 ==> column[left].attr == sv[s'.sizeY - 1])
  {
    TruesStep(em, right);
    s', cur', ended := s, cur, false;
    var idx := column[right].idx;
    if !mask[idx] {
      return;
    }
    var cls := column[right].cls;
    ghost var k := s.sizeY;
    var bestGini, bestLeft, bestRight := s.bestGini, s.bestLeft, s.bestRight;
    if column[left].attr != column[right].attr {
      assert IsCandidate(sv, k);
      var weightedGini := CalculateGini(s.sizeY, s.countsY, s.sizeN, s.countsN);
      if weightedGini < bestGini {
        bestGini, bestLeft, bestRight := weightedGini, left, right;
        cur' := Cand(f, sv, sc, k);
      }
      ended := true;
    }
    MoveToYes(rows, f, column, n, Q, sv, sc, s, cur, target, cur', bestGini, bestLeft, bestRight);
    s' := Sweep(s.sizeY + 1, s.countsY[cls := s.countsY[cls] + 1], s.sizeN - 1,
                s.countsN[cls := s.countsN[cls] - 1], bestGini, bestLeft, bestRight);
  }

  /**
   * The inner loop of the sweep, from the anchor at `left`: rows of the
   * anchor's value move to side "yes"; the first row of a new value is
   * scored against the best, moves, and ends the run at its position.
   */
  method NextRun(ghost rows: seq<Sample>, ghost f: nat, column: seq<Entry>, mask: seq<bool>, n: nat,
                 left: nat, s: Sweep, ghost cur: SplitPoint, ghost target: SplitPoint,
                 ghost Q: seq<nat>, ghost em: seq<bool>, ghost sv: seq<real>, ghost sc: seq<real>)
    returns (right: nat, s': Sweep, ghost cur': SplitPoint)
    requires Frame(rows, column, mask, n, Q, em, sv, sc) && left < |column|
    requires Swept(rows, f, column, n, Q, sv, sc, s, cur, target)
    requires s.sizeY > 0 ==> Anchored(column, em, sv, left, s.sizeY)
    requires s.sizeY == 0 ==> Trues(em[..left + 1]) == 0
    ensures left < right <= |column| && Swept(rows, f, column, n, Q, sv, sc, s', cur', target)
    ensures right < |column| ==> s'.sizeY > 0 && Anchored(column, em, sv, right, s'.sizeY)
    ensures right == |column| ==> s'.sizeY == |Q|
  {
    var N := |column|;
    s', cur' := s, cur;
    if s.sizeY > 0 {
      TruesStep(em, left);
    }
    right := left + 1;
    while right < N
      invariant left < right <= N
      invariant Swept(rows, f, column, n, Q, sv, sc, s', cur', target)
      invariant s'.sizeY == Trues(em[..right])
      invariant s'.sizeY > 0 ==> column[left].attr == sv[s'.sizeY - 1]
      decreases N - right
    {
      var ended;
      ended, s', cur' := MoveEntry(rows, f, column, mask, n, left, right, s', cur', target, Q, em, sv, sc);
      if ended {
        return;
      }
      right := right + 1;
    }
    assert em[..N] == em;
  }

  /**
   * The sweep over a feature's table, from the scan's start: the default
   * split point at the table's first value, with no score.
   */
  method SweepColumn(ghost rows: seq<Sample>, f: nat, column: seq<Entry>, mask: seq<bool>, n: nat,
                     ghost target: SplitPoint,
                     ghost Q: seq<nat>, ghost em: seq<bool>, ghost sv: seq<real>, ghost sc: seq<real>)
    returns (best: SplitPoint)
    requires Frame(rows, column, mask, n, Q, em, sv, sc) && |column| > 0
    requires target == ScanFrom(f, false, sv, sc, 1, SplitPoint(f, column[0].attr, NoSplitScore))
    ensures best == target
  {
    var N := |column|;
    best := SplitPoint(f, 0.0, NoSplitScore);
    var left := 0;
    var sizeY, countsY, countsN, right := FirstEntry(rows, column, mask, n, Q, em, sv, sc);
    var sizeN := Sum(countsN, 0, |countsN|);
    RunSize(rows, Q, sizeY, |Q|, n);
    var s := Sweep(sizeY, countsY, sizeN, countsN, NoSplitScore, 0, 0);
    ghost var cur := SplitPoint(f, column[0].attr, NoSplitScore);
    assert Swept(rows, f, column, n, Q, sv, sc, s, cur, target);

    while left < N && right < N
      invariant left <= right <= N
      invariant Swept(rows, f, column, n, Q, sv, sc, s, cur, target)
      invariant right < N && s.sizeY > 0 ==> Anchored(column, em, sv, right, s.sizeY)
      invariant right < N && s.sizeY == 0 ==> Q == []
      invariant right == N ==> s.sizeY == |Q|
      decreases N - right
    {
      left := right;
      if s.sizeY == 0 {
        TruesPrefix(em, left + 1);
      }
      right, s, cur := NextRun(rows, f, column, mask, n, left, s, cur, target, Q, em, sv, sc);
    }

    best := best.(score := s.bestGini);
    best := best.(value := (column[s.bestLeft].attr + column[s.bestRight].attr) / 2.0);
  }

  /**
   * The sweep over feature `f`'s table.  The result is the feature's best
   * split point for `SweepPolicy`: the first minimum over the candidates
   * of the partition's sorted values.
   */
  method EvaluateSplitPoint(ghost rows: seq<Sample>, table: seq<seq<Entry>>, mask: seq<bool>, n: nat, f: nat)
    returns (best: SplitPoint)
    requires f < |table| && SortedColumn(rows, f, table[f]) && |mask| == |rows|
    requires LabelsIn(rows, n) && |rows| > 0
    ensures InRows(rows, Members(mask))
    ensures best == FeatureBest(rows, Members(mask), n, f, SweepPolicy)
  {
    SweepSetup(rows, f, table[f], mask);
    GatherMembers(rows, mask);
    FrameHolds(rows, f, table[f], mask, n);
    best := SweepColumn(rows, f, table[f], mask, n, MaskBest(rows, mask, n, f), Visit(table[f], mask),
                        ExistingMask(table[f], mask), SortedValues(rows, mask, f), MaskScores(rows, mask, n, f));
  }

  // ---------------------------------------------------------------------
  // Growing the tree
  // ---------------------------------------------------------------------

  /** `count_if` over the mask: the number of rows in the partition. */
  method PartitionSize(mask: seq<bool>) returns (size: nat)
    ensures size == Trues(mask)
  {
    size := 0;
    for i := 0 to |mask|
      invariant size == Trues(mask[..i])
    {
      assert mask[..i + 1][..i] == mask[..i];
      if mask[i] {
        size := size + 1;
      }
    }
    assert mask[..|mask|] == mask;
  }

  /** The count loop over a table: labels of the partition's rows, in table order. */
  method CountInTable(ghost rows: seq<Sample>, column: seq<Entry>, mask: seq<bool>, n: nat,
                      ghost Q: seq<nat>, ghost em: seq<bool>, ghost sv: seq<real>, ghost sc: seq<real>)
    returns (counts: seq<nat>)
    requires Frame(rows, column, mask, n, Q, em, sv, sc)
    ensures counts == RunCounts(rows, Q, 0, |Q|, n)
  {
    counts := seq(n + 1, _ => 0);
    RunCountsEmpty(rows, Q, 0, n);
    ghost var t := 0;
    for p := 0 to |column|
      invariant t == Trues(em[..p]) && t <= |Q|
      invariant counts == RunCounts(rows, Q, 0, t, n)
    {
      TruesStep(em, p);
      var idx := column[p].idx;
      if mask[idx] {
        var cls := column[p].cls;
        RunCountsSnoc(rows, Q, 0, t, n);
        counts := counts[cls := counts[cls] + 1];
        t := t + 1;
      }
    }
    assert em[..|column|] == em;
  }

  /** The class counts of the partition, gathered over the first feature's table. */
  method PartitionCounts(ghost rows: seq<Sample>, table: seq<seq<Entry>>, mask: seq<bool>, n: nat)
    returns (counts: seq<nat>)
    requires |table| > 0 && SortedColumn(rows, 0, table[0]) && |mask| == |rows| && LabelsIn(rows, n)
    ensures InRows(rows, Members(mask)) && counts == PartCounts(rows, Members(mask), n)
  {
    var column := table[0];
    ghost var Q := Visit(column, mask);
    FrameHolds(rows, 0, column, mask, n);
    VisitFacts(rows, 0, column, mask);
    counts := CountInTable(rows, column, mask, n, Q, ExistingMask(column, mask),
                           SortedValues(rows, mask, 0), MaskScores(rows, mask, n, 0));
    assert Q[0..|Q|] == Q;
    PartCountsPermutation(rows, Members(mask), Q, n);
  }

  /** `max_element` over the counts of labels 0..n: the first label of largest count. */
  method MaxElement(counts: seq<nat>) returns (majority: nat)
    requires |counts| >= 2
    ensures majority < |counts| && majority == Majority(counts, true)
  {
    majority := 0;
    for c := 1 to |counts|
      invariant majority < |counts|
      invariant ArgMaxFrom(counts, c, majority) == Majority(counts, true)
    {
      if counts[majority] < counts[c] {
        majority := c;
      }
    }
  }

  /** The best split point over all features, a later feature winning ties (`>=`). */
  method BestOverFeatures(ghost rows: seq<Sample>, table: seq<seq<Entry>>, n: nat, d: nat, mask: seq<bool>)
    returns (split: SplitPoint)
    requires Fits(rows, n, d) && TableOf(rows, table, d) && |mask| == |rows| && |rows| > 0
    ensures InRows(rows, Members(mask))
    ensures split == BestSplit(rows, Members(mask), n, d, SweepPolicy)
  {
    GatherMembers(rows, mask);
    ghost var fbs := FeatureBests(rows, Members(mask), n, d, SweepPolicy);
    split := SplitPoint(0, 0.0, NoSplitScore);
    for f := 0 to |table|
      invariant AcrossFrom(fbs, true, f, split) == BestSplit(rows, Members(mask), n, d, SweepPolicy)
    {
      var local := EvaluateSplitPoint(rows, table, mask, n, f);
      if split.score >= local.score {
        split := local;
      }
    }
  }

  /** Every row has an entry in each table. */
  lemma ColumnCovers(rows: seq<Sample>, f: nat, column: seq<Entry>, r: nat)
    requires SortedColumn(rows, f, column) && r < |rows|
    ensures exists p :: 0 <= p < |column| && column[p].idx == r
  {
    var e := Tagged(rows, f)[r];
    assert e in multiset(column);
    var p :| 0 <= p < |column| && column[p] == e;
  }

  /**
   * The child masks of a node, set row by row while walking the split
   * feature's table, with whether each side received a row.
   */
  method PartitionByTable(ghost rows: seq<Sample>, column: seq<Entry>, mask: seq<bool>, ghost f: nat, t: real)
    returns (yes: seq<bool>, no: seq<bool>, splitY: bool, splitN: bool)
    requires SortedColumn(rows, f, column) && |mask| == |rows|
    ensures InRows(rows, Members(mask))
    ensures yes == SideMask(rows, mask, f, t, true) && no == SideMask(rows, mask, f, t, false)
    ensures splitY <==> Below(rows, Members(mask), f, t) != []
    ensures splitN <==> Above(rows, Members(mask), f, t) != []
  {
    ColumnEntries(rows, f, column);
    ghost var sy := SideMask(rows, mask, f, t, true);
    ghost var sn := SideMask(rows, mask, f, t, false);
    var y := new bool[|mask|](_ => false);
    var m := new bool[|mask|](_ => false);
    splitY, splitN := false, false;
    ghost var seen: set<nat> := {};
    for p := 0 to |column|
      invariant forall q :: 0 <= q < p ==> column[q].idx in seen
      invariant forall r :: 0 <= r < |mask| ==> y[r] == (sy[r] && r in seen) && m[r] == (sn[r] && r in seen)
      invariant splitY <==> exists r :: 0 <= r < |mask| && r in seen && sy[r]
      invariant splitN <==> exists r :: 0 <= r < |mask| && r in seen && sn[r]
    {
      var idx := column[p].idx;
      if mask[idx] {
        if column[p].attr <= t {
          y[idx] := true;
          splitY := true;
        } else {
          m[idx] := true;
          splitN := true;
        }
      }
      seen := seen + {idx};
    }
    forall r | 0 <= r < |mask| ensures r in seen {
      ColumnCovers(rows, f, column, r);
    }
    yes, no := y[..], m[..];
    assert yes == sy && no == sn;
    SideMaskMembers(rows, mask, f, t);
    MembersNonEmpty(yes);
    MembersNonEmpty(no);
  }

  /**
   * Grows the subtree of the masked rows: its size and class counts, the
   * majority, the stopping rule, the best split over all features, and the
   * two child masks.  A side that receives no row gets no child, and the
   * program then recurses for ever on the other side with the same rows;
   * the model reports `Loops` there.
   */
  method FindBestSplitPoint(ghost rows: seq<Sample>, table: seq<seq<Entry>>, n: nat, d: nat,
                            minSplit: nat, purity: real, mask: seq<bool>)
    returns (o: Outcome)
    requires Fits(rows, n, d) && TableOf(rows, table, d) && |mask| == |rows|
    ensures InRows(rows, Members(mask))
    ensures o == Build(rows, n, d, minSplit, purity, SweepPolicy, Members(mask))
    decreases |Members(mask)|, 1
  {
    GatherMembers(rows, mask);
    ghost var P := Members(mask);
    var size := PartitionSize(mask);
    var counts := PartitionCounts(rows, table, mask, n);
    var majority := MaxElement(counts);
    if size <= minSplit || counts[majority] as real / size as real >= purity {
      return Finished(Leaf(majority));
    }

    assert !IsLeafNode(PartCounts(rows, P, n), Majority(PartCounts(rows, P, n), SweepPolicy.majorityFromZero),
                       |P|, minSplit, purity);
    o := SplitNode(rows, table, n, d, minSplit, purity, mask);
  }

  /** The split and the two recursive calls of `FindBestSplitPoint` on a node that is not a leaf. */
  method SplitNode(ghost rows: seq<Sample>, table: seq<seq<Entry>>, n: nat, d: nat,
                   minSplit: nat, purity: real, mask: seq<bool>)
    returns (o: Outcome)
    requires Fits(rows, n, d) && TableOf(rows, table, d) && |mask| == |rows|
    requires InRows(rows, Members(mask))
    requires var counts := PartCounts(rows, Members(mask), n);
             var maj := Majority(counts, SweepPolicy.majorityFromZero);
             maj < |counts| && !IsLeafNode(counts, maj, |Members(mask)|, minSplit, purity)
    ensures o == Build(rows, n, d, minSplit, purity, SweepPolicy, Members(mask))
    decreases |Members(mask)|, 0
  {
    ghost var P := Members(mask);
    var split := BestOverFeatures(rows, table, n, d, mask);
    BestSplitFeature(rows, P, n, d, SweepPolicy);
    var yes, no, splitY, splitN := PartitionByTable(rows, table[split.feature], mask, split.feature, split.value);
    if !splitY || !splitN {
      return Loops;
    }
    SideMaskMembers(rows, mask, split.feature, split.value);
    SplitSizes(rows, P, split.feature, split.value);
    var left := FindBestSplitPoint(rows, table, n, d, minSplit, purity, yes);
    if left.Loops? {
      return Loops;
    }
    var right := FindBestSplitPoint(rows, table, n, d, minSplit, purity, no);
    if right.Loops? {
      return Loops;
    }
    o := Finished(Node(split, Some(left.tree), Some(right.tree)));
  }

  /** The entries of feature `f`, one per row in row order, before sorting. */
  method FillEntries(rows: seq<Sample>, f: nat) returns (entries: seq<Entry>)
    requires HasFeature(rows, f)
    ensures entries == Tagged(rows, f)
  {
    entries := [];
    for i := 0 to |rows|
      invariant |entries| == i
      invariant forall j :: 0 <= j < i ==> entries[j] == Entry(j, rows[j].features[f], rows[j].cls)
    {
      entries := entries + [Entry(i, rows[i].features[f], rows[i].cls)];
    }
  }

  /**
   * One table per feature, each sorted by value.  The program's sort leaves
   * equal values in an unspecified order; the model takes one such order,
   * and every method above holds for any.
   */
  method BuildTables(rows: seq<Sample>, d: nat) returns (table: seq<seq<Entry>>)
    requires Width(rows, d)
    ensures TableOf(rows, table, d)
  {
    table := [];
    for f := 0 to d
      invariant |table| == f
      invariant forall g :: 0 <= g < f ==> SortedColumn(rows, g, table[g])
    {
      var entries := FillEntries(rows, f);
      table := table + [SortBy(entries, AttrOf)];
    }
  }

  /**
   * The tree grown from every training row.  It finishes on consistent
   * data when `purity` is at most 1, and a finished tree predicts a class
   * 1..n for every training row.
   */
  method CreateDecisionTree(rows: seq<Sample>, n: nat, d: nat, minSplit: nat, purity: real) returns (o: Outcome)
    requires Fits(rows, n, d) && rows != []
    ensures o == Grow(rows, n, d, minSplit, purity, SweepPolicy)
    ensures Consistent(rows) && purity <= 1.0 ==> o.Finished?
    ensures o.Finished? ==> FeaturesBelow(o.tree, d) && LeafLabelsIn(o.tree, 1, n)
  {
    var table := BuildTables(rows, d);
    var all := seq(|rows|, _ => true);
    MembersOfAll(all);
    o := FindBestSplitPoint(rows, table, n, d, minSplit, purity, all);
    GrowReachesLeaves(rows, n, d, minSplit, purity, SweepPolicy);
  }
}
