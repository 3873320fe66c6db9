/**
 * `CalculateAccuracies` of the proposed program: the `{TP, FP, FN}` tally
 * of the testing set, the class counts of the testing set, and the macro
 * averages over the classes that occur in it.
 */
module ProposedValidation {
  import opened Samples
  import opened ConfusionTally
  import opened MacroMetrics

  /** The macro averages of a testing set whose rows the tree labels `preds`. */
  method CalculateAccuracies(rows: seq<Sample>, preds: seq<nat>, n: nat) returns (acc: Option<Accuracies>)
    requires |preds| == |rows| && LabelsIn(rows, n) && PredsIn(preds, n)
    ensures acc == Averages(Accumulated(Tallies(rows, preds, n), ClassCounts(rows, n), n))
  {
    var cm := TallyPredictions(rows, preds, n);
    var counts := TallyLabels(rows, n);
    acc := MacroAverages(cm, counts, n, Tallies(rows, preds, n));
  }

  /**
   * The averages exist exactly when the testing set is not empty, and then
   * lie in [0, 1]; a class takes part exactly when its true positives and
   * false negatives are not both zero.
   */
  lemma AccuraciesFacts(rows: seq<Sample>, preds: seq<nat>, n: nat)
    requires |preds| == |rows| && LabelsIn(rows, n) && PredsIn(preds, n)
    ensures var t := Tallies(rows, preds, n);
            var acc := Averages(Accumulated(t, ClassCounts(rows, n), n));
            && (acc.Some? <==> rows != [])
            && (acc.Some? ==>
                  && 0.0 <= acc.value.precision <= 1.0 && 0.0 <= acc.value.recall <= 1.0
                  && 0.0 <= acc.value.f1 <= 1.0 && 0.0 <= acc.value.gProduct <= 1.0)
            && forall c :: 1 <= c <= n ==> (ClassCounts(rows, n)[c] > 0 <==> t[c].tp + t[c].fn > 0)
  {
    var counts := ClassCounts(rows, n);
    var t := Tallies(rows, preds, n);
    AveragesInUnit(t, counts, n);
    PresentPositive(counts, n);
    if rows != [] {
      CountLabelBounds(rows, rows[0].cls);
    }
    forall c | 1 <= c <= n
      ensures counts[c] > 0 <==> t[c].tp + t[c].fn > 0
    {
      TallyOfClass(rows, preds, n, c);
    }
  }

  /** The true labels of the rows. */
  function Labels(rows: seq<Sample>): (labels: seq<nat>)
    ensures |labels| == |rows|
  {
    seq(|rows|, i requires 0 <= i < |rows| => rows[i].cls)
  }

  /** Predicting every label right leaves only true positives, one per row of the class. */
  lemma {:induction false} PerfectTally(rows: seq<Sample>, n: nat)
    requires LabelsIn(rows, n)
    ensures PredsIn(Labels(rows), n)
    ensures forall c :: 0 <= c <= n ==> Tallies(rows, Labels(rows), n)[c] == Tally(CountLabel(rows, c), 0, 0)
  {
    if rows != [] {
      var k := |rows| - 1;
      assert Labels(rows)[..k] == Labels(rows[..k]);
      PerfectTally(rows[..k], n);
    }
  }

  /** Classes with only true positives add a full point each. */
  lemma {:induction false} PerfectSums(table: seq<Tally>, counts: seq<nat>, c: nat)
    requires c < |table| && c < |counts|
    requires forall d :: 1 <= d <= c && counts[d] > 0 ==> table[d].tp > 0 && table[d].fp == 0 && table[d].fn == 0
    ensures var k := Present(counts, c) as real;
            Accumulated(table, counts, c) == Sums(k, k, k, 1.0, Present(counts, c))
  {
    if c > 0 {
      PerfectSums(table, counts, c - 1);
      if counts[c] > 0 {
        assert Precision(table[c]) == 1.0 && Recall(table[c]) == 1.0;
        assert F1(1.0, 1.0) == 1.0;
      }
    }
  }

  /** A tree that labels every testing row right scores 1 on every average. */
  lemma PerfectScores(rows: seq<Sample>, n: nat)
    requires LabelsIn(rows, n) && rows != []
    ensures PredsIn(Labels(rows), n)
    ensures Averages(Accumulated(Tallies(rows, Labels(rows), n), ClassCounts(rows, n), n))
            == Some(Accuracies(1.0, 1.0, 1.0, 1.0))
  {
    PerfectTally(rows, n);
    var counts := ClassCounts(rows, n);
    var t := Tallies(rows, Labels(rows), n);
    PerfectSums(t, counts, n);
    AccuraciesFacts(rows, Labels(rows), n);
    AccumulatedBounds(t, counts, n);
    var m := Present(counts, n);
    Ratio(m, m);
  }
}
