/**
 * The decision tree of the proposed method: the masked tree with the
 * purity threshold fixed at 0.95 and the feature count read off the first
 * training row (whose last column, the label, is `cls` here).
 */
module ProposedTree {
  import opened Samples
  import opened TreeSpec
  import opened TreeFacts
  import opened MaskTree

  const Purity: real := 0.95

  /**
   * The tree grown from every training row with the fixed purity.  It
   * finishes on consistent data, and a finished tree predicts a class
   * 1..n for every training row.
   */
  method CreateDecisionTree(rows: seq<Sample>, n: nat, minSplit: nat) returns (o: Outcome)
    requires rows != [] && Fits(rows, n, |rows[0].features|)
    ensures o == Grow(rows, n, |rows[0].features|, minSplit, Purity, MaskPolicy)
    ensures Consistent(rows) ==> o.Finished?
    ensures o.Finished? ==> FeaturesBelow(o.tree, |rows[0].features|) && LeafLabelsIn(o.tree, 1, n)
    ensures o.Finished? ==> forall i :: 0 <= i < |rows| ==> Predict(o.tree, rows[i].features).Some?
  {
    var d := |rows[0].features|;
    o := MaskTree.CreateDecisionTree(rows, n, d, minSplit, Purity);
    GrowReachesLeaves(rows, n, d, minSplit, Purity, MaskPolicy);
  }
}
