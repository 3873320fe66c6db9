/**
 * `Validation` of the edited-nearest-neighbours program: the same `{TP,
 * FP, FN}` tally and macro averages as the proposed program, but a class
 * takes part when the data set's stored testing count for it is not zero,
 * and the tally stays all zero when the model type is not a decision tree.
 */
module EnnValidation {
  import opened Samples
  import opened ConfusionTally
  import opened MacroMetrics
  import DatasetInfo
  import ProposedValidation

  /** The tally the class loop reads: the comparisons, or none for another model type. */
  function ModelTally(isTree: bool, rows: seq<Sample>, preds: seq<nat>, n: nat): (t: seq<Tally>)
    requires |preds| == |rows| && LabelsIn(rows, n) && PredsIn(preds, n)
    ensures |t| == n + 1
  {
    if isTree then Tallies(rows, preds, n) else Tallies([], [], n)
  }

  /**
   * The macro averages of the data set's testing table, whose rows the tree
   * labels `preds`; `isTree` says whether the model type is "decision_tree".
   */
  method Validation(ds: DatasetInfo.Dataset, isTree: bool, preds: seq<nat>) returns (acc: Option<Accuracies>)
    requires |preds| == |ds.testing| && LabelsIn(ds.testing, ds.numClasses) && PredsIn(preds, ds.numClasses)
    requires |ds.testingCounts| == ds.numClasses + 1
    ensures acc == Averages(Accumulated(ModelTally(isTree, ds.testing, preds, ds.numClasses),
                                        ds.testingCounts, ds.numClasses))
  {
    var n := ds.numClasses;
    var cm: array2<nat>;
    if isTree {
      cm := TallyPredictions(ds.testing, preds, n);
    } else {
      cm := new nat[n + 1, 3]((_, _) => 0);
      assert Holds(cm, Tallies([], [], n));
    }
    acc := MacroAverages(cm, ds.testingCounts, n, ModelTally(isTree, ds.testing, preds, n));
  }

  /**
   * With the testing counts the data set stores after reading its tables,
   * a decision tree's averages exist exactly when the testing table is not
   * empty, and lie in [0, 1].
   */
  lemma ValidationFacts(rows: seq<Sample>, preds: seq<nat>, n: nat, counts: seq<nat>)
    requires |preds| == |rows| && LabelsIn(rows, n) && PredsIn(preds, n)
    requires counts == ClassCounts(rows, n)
    ensures var acc := Averages(Accumulated(ModelTally(true, rows, preds, n), counts, n));
            && (acc.Some? <==> rows != [])
            && (acc.Some? ==>
                  && 0.0 <= acc.value.precision <= 1.0 && 0.0 <= acc.value.recall <= 1.0
                  && 0.0 <= acc.value.f1 <= 1.0 && 0.0 <= acc.value.gProduct <= 1.0)
  {
    ProposedValidation.AccuraciesFacts(rows, preds, n);
  }

  /** Every class that takes part scores 0 when nothing was tallied. */
  lemma {:induction false} EmptySums(table: seq<Tally>, counts: seq<nat>, c: nat)
    requires c < |table| && c < |counts|
    requires forall d :: 1 <= d <= c ==> table[d] == Tally(0, 0, 0)
    ensures Accumulated(table, counts, c)
            == Sums(0.0, 0.0, 0.0, if Present(counts, c) > 0 then 0.0 else 1.0, Present(counts, c))
  {
    if c > 0 {
      EmptySums(table, counts, c - 1);
      if counts[c] > 0 {
        assert table[c] == Tally(0, 0, 0);
        AddNothing(Accumulated(table, counts, c - 1));
      }
    }
  }

  /** A class with an all-zero tally adds nothing to the sums but zeroes the product. */
  lemma AddNothing(s: Sums)
    ensures Add(s, Tally(0, 0, 0)) == Sums(s.precision, s.recall, s.f1, 0.0, s.classes + 1)
  {
    assert Precision(Tally(0, 0, 0)) == 0.0 && Recall(Tally(0, 0, 0)) == 0.0;
  }

  /** Another model type scores 0 on every average whenever some class is present. */
  lemma OtherModelScoresZero(rows: seq<Sample>, preds: seq<nat>, n: nat, counts: seq<nat>)
    requires |preds| == |rows| && LabelsIn(rows, n) && PredsIn(preds, n) && |counts| == n + 1
    ensures var acc := Averages(Accumulated(ModelTally(false, rows, preds, n), counts, n));
            acc.Some? ==> acc.value == Accuracies(0.0, 0.0, 0.0, 0.0)
  {
    var t := Tallies([], [], n);
    assert forall d :: 1 <= d <= n ==> t[d] == Tally(0, 0, 0);
    EmptySums(t, counts, n);
    var k := Present(counts, n);
    if k > 0 {
      assert Averages(Sums(0.0, 0.0, 0.0, 0.0, k)) == Some(Accuracies(0.0 / k as real, 0.0 / k as real, 0.0 / k as real, 0.0));
    }
  }
}
