/**
 * The proposed resampler: the sampling weights are computed, the number
 * of rows to remove is the number of positive weights capped by the
 * table size times one minus the decision tree's macro recall on its own
 * training table, that many rows are drawn by roulette without
 * replacement, and the drawn rows are erased, back to front.
 *
 * The confusion matrix `cm` and the macro recall come from the decision
 * tree's validation and are inputs here, and so are the roulette draws:
 * `u[k]` is the k-th draw as a fraction of the wheel's current total.
 */
module ProposedRemoval {
  import opened Samples
  import opened Neighbours
  import opened Roulette
  import opened ProposedWeights

  /**
   * `n_removed`: the candidates (positive weights) when `size * (1 -
   * recall)` exceeds them, else that product truncated to an integer.
   */
  function RemovalCount(size: nat, candidates: nat, recall: real): nat
    requires 0.0 <= recall <= 1.0
  {
    var target := (size as real) * (1.0 - recall);
    NonNegativeProduct(size as real, 1.0 - recall);
    if target > candidates as real then candidates else target.Floor
  }

  /**
   * The count removed is the smaller of the candidates and the truncated
   * target, so it never exceeds either the candidates or the table size;
   * a perfect recall removes nothing.
   */
  lemma RemovalCountFacts(size: nat, candidates: nat, recall: real)
    requires 0.0 <= recall <= 1.0
    ensures var target := ((size as real) * (1.0 - recall)).Floor;
            var r := RemovalCount(size, candidates, recall);
            r == (if candidates <= target then candidates else target)
    ensures RemovalCount(size, candidates, recall) <= candidates
    ensures RemovalCount(size, candidates, recall) <= size
    ensures recall == 1.0 ==> RemovalCount(size, candidates, recall) == 0
  {
    var t := (size as real) * (1.0 - recall);
    NonNegativeProduct(size as real, 1.0 - recall);
    assert t <= size as real by {
      assert (size as real) - t == (size as real) * recall;
      NonNegativeProduct(size as real, recall);
    }
  }

  /** The complement of a mask: the rows the erase loop leaves. */
  function Flip(mask: seq<bool>): (keep: seq<bool>)
    ensures |keep| == |mask|
  {
    seq(|mask|, i requires 0 <= i < |mask| => !mask[i])
  }

  /** A mask and its complement share out the positions. */
  lemma {:induction false} TruesFlip(mask: seq<bool>)
    ensures Trues(Flip(mask)) == |mask| - Trues(mask)
  {
    if mask != [] {
      var k := |mask| - 1;
      TruesFlip(mask[..k]);
      assert Flip(mask)[..k] == Flip(mask[..k]);
    }
  }

  /** The rounds leave the lengths of the flags and the wheel alone. */
  lemma {:induction false} RoundsLength(flags: seq<bool>, f: seq<real>, total: real, u: seq<real>)
    requires |flags| == |f|
    ensures Rounds(flags, f, total, u).Some? ==>
              |Rounds(flags, f, total, u).value.0| == |flags| && |Rounds(flags, f, total, u).value.1| == |f|
    decreases |u|
  {
    if u != [] {
      match Scan(f, u[0] * total)
      case Overrun =>
      case Selected(j) =>
        RoundsLength(flags[j := true], f[j := 0.0], total - f[j], u[1..]);
    }
  }

  /** The removal flags the draws give over the weights, all rows unflagged at first. */
  function RemovedMask(weights: seq<real>, draws: seq<real>): (mask: Option<seq<bool>>)
    ensures mask.Some? ==> |mask.value| == |weights|
  {
    var start := seq(|weights|, _ => false);
    RoundsLength(start, weights, Total(weights), draws);
    match Rounds(start, weights, Total(weights), draws)
    case None => None
    case Some((flags, _)) => Some(flags)
  }

  /** The table after the erase loop, or `None` when a scan runs off the wheel. */
  function Removal(rows: seq<Sample>, weights: seq<real>, draws: seq<real>): Option<seq<Sample>>
    requires |weights| == |rows|
  {
    match RemovedMask(weights, draws)
    case None => None
    case Some(mask) => Some(Keep(rows, Flip(mask)))
  }

  /**
   * `Proposed`: the weights and the neighbour lists behind them, the
   * number of rows removed, and the table that remains; `None` when a
   * roulette scan runs off the wheel (the program then writes past its
   * flag vector).
   */
  method Proposed(rows: seq<Sample>, n: nat, cm: seq<seq<nat>>, recall: real, u: seq<real>,
                  dist: (seq<real>, seq<real>) -> real)
    returns (out: Option<seq<Sample>>, weights: seq<real>, nbrs: seq<seq<nat>>, removed: nat)
    requires LabelsIn(rows, n) && Square(cm, n + 1)
    requires 0.0 <= recall <= 1.0 && |u| >= |rows|
    ensures |nbrs| == |rows| && AllWithin(nbrs, |rows|) && Queried(rows, ClassCounts(rows, n), dist, nbrs)
    ensures weights == Weights(rows, cm, ClassCounts(rows, n), nbrs, dist)
    ensures removed == RemovalCount(|rows|, Positives(weights), recall)
    ensures removed <= |rows| && out == Removal(rows, weights, u[..removed])
  {
    var counts := TallyLabels(rows, n);
    weights, nbrs := SamplingWeights(rows, cm, counts, dist);
    var candidates := Positives(weights);
    removed := RemovalCount(|rows|, candidates, recall);
    RemovalCountFacts(|rows|, candidates, recall);
    out := DrawAndErase(rows, weights, u[..removed]);
  }

  /**
   * The roulette draws without replacement, then the erase loop over the
   * rows left unflagged.
   */
  method DrawAndErase(rows: seq<Sample>, weights: seq<real>, draws: seq<real>)
    returns (out: Option<seq<Sample>>)
    requires |weights| == |rows|
    ensures out == Removal(rows, weights, draws)
  {
    var flags := seq(|rows|, _ => false);
    var ok, flags', _ := DrawWithoutReplacement(flags, weights, draws);
    if !ok {
      return None;
    }
    RoundsLength(flags, weights, Total(weights), draws);
    var kept := EraseUnmarked(rows, Flip(flags'));
    out := Some(kept);
  }

  // ---------------------------------------------------------------------
  // What the removal achieves.
  // ---------------------------------------------------------------------

  /**
   * With non-negative weights, no more draws than positive weights and
   * every draw in (0, 1), the removal never runs off the wheel: it flags
   * exactly one new row per draw, only rows of positive weight, and the
   * table loses exactly those rows, the others kept in order.
   */
  lemma RemovalFacts(rows: seq<Sample>, weights: seq<real>, draws: seq<real>)
    requires |weights| == |rows| && NonNegative(weights)
    requires |draws| <= Positives(weights) && forall k :: 0 <= k < |draws| ==> 0.0 < draws[k] < 1.0
    ensures RemovedMask(weights, draws).Some? && Removal(rows, weights, draws).Some?
    ensures var mask := RemovedMask(weights, draws).value;
            && Trues(mask) == |draws|
            && (forall i :: 0 <= i < |rows| && mask[i] ==> weights[i] > 0.0)
            && Removal(rows, weights, draws).value == Keep(rows, Flip(mask))
            && |Removal(rows, weights, draws).value| == |rows| - |draws|
  {
    var start := seq(|weights|, _ => false);
    TruesNone(start);
    RoundsFlagDistinctPositives(start, weights, draws);
    var mask := RemovedMask(weights, draws).value;
    KeepIsSelection(rows, Flip(mask));
    TruesFlip(mask);
  }

  /**
   * The resampler as a whole, with a distance and draws in (0, 1): it
   * removes exactly its removal count of rows, and only rows some query of
   * a relative-minority class credited, so a row with no such credit is
   * always kept.
   */
  lemma ProposedRemovesCreditedRows(rows: seq<Sample>, n: nat, cm: seq<seq<nat>>, recall: real,
                                    u: seq<real>, dist: (seq<real>, seq<real>) -> real, nbrs: seq<seq<nat>>)
    requires IsDistance(dist) && LabelsIn(rows, n) && Square(cm, n + 1)
    requires 0.0 <= recall <= 1.0 && |u| >= |rows| && |nbrs| == |rows|
    requires forall k :: 0 <= k < |u| ==> 0.0 < u[k] < 1.0
    ensures var weights := Weights(rows, cm, ClassCounts(rows, n), nbrs, dist);
            var removed := RemovalCount(|rows|, Positives(weights), recall);
            && removed <= |rows|
            && Removal(rows, weights, u[..removed]).Some?
            && |Removal(rows, weights, u[..removed]).value| == |rows| - removed
            && forall i :: 0 <= i < |rows| && RemovedMask(weights, u[..removed]).value[i] ==>
                 CreditCount(rows, cm, ClassCounts(rows, n), nbrs, i) >= 1
  {
    var counts := ClassCounts(rows, n);
    var weights := Weights(rows, cm, counts, nbrs, dist);
    var removed := RemovalCount(|rows|, Positives(weights), recall);
    RemovalCountFacts(|rows|, Positives(weights), recall);
    forall j | 0 <= j < |rows|
      ensures weights[j] >= 0.0
      ensures weights[j] > 0.0 ==> CreditCount(rows, cm, counts, nbrs, j) >= 1
    {
      WeightsSign(rows, n, cm, nbrs, dist, j);
      CreditDistanceFacts(rows, cm, counts, nbrs, dist, j);
    }
    RemovalFacts(rows, weights, u[..removed]);
  }
}
