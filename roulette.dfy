/**
 * Roulette-wheel selection.  The wheel is a list of non-negative
 * fitnesses; a draw `r` selects the first index whose running total of
 * fitness reaches `r`.  Three variants exist:
 *
 *  - the k-means++ seeding of the cluster-centroids baseline draws `r` in
 *    [0, total) and falls back to the last index;
 *  - the k-means++ seeding of the proposed method aborts on a total of
 *    zero or less, draws `u` in [0, 1) and subtracts normalised fitness;
 *  - the proposed remover draws several times without replacement,
 *    zeroing each selected fitness.
 *
 * The draws are inputs.
 */
module Roulette {
  import opened Samples

  /** Fitness of the indices below `j`. */
  function PrefixSum(f: seq<real>, j: nat): real
    requires j <= |f|
  {
    if j == 0 then 0.0 else PrefixSum(f, j - 1) + f[j - 1]
  }

  function Total(f: seq<real>): real
  {
    PrefixSum(f, |f|)
  }

  ghost predicate NonNegative(f: seq<real>)
  {
    forall j :: 0 <= j < |f| ==> f[j] >= 0.0
  }

  /** The first index at or after `from` whose running total reaches `r`. */
  function FirstReach(f: seq<real>, r: real, from: nat): Option<nat>
    requires from <= |f|
    decreases |f| - from
  {
    if from == |f| then None
    else if PrefixSum(f, from + 1) >= r then Some(from)
    else FirstReach(f, r, from + 1)
  }

  /** The search finds the first index reaching `r`, or reports that none does. */
  lemma {:induction false} FirstReachFacts(f: seq<real>, r: real, from: nat)
    requires from <= |f|
    ensures FirstReach(f, r, from).Some? ==>
              var j := FirstReach(f, r, from).value;
              from <= j < |f| && PrefixSum(f, j + 1) >= r
              && forall i :: from < i <= j ==> PrefixSum(f, i) < r
    ensures FirstReach(f, r, from).None? ==> forall i :: from < i <= |f| ==> PrefixSum(f, i) < r
    decreases |f| - from
  {
    if from < |f| && PrefixSum(f, from + 1) < r {
      FirstReachFacts(f, r, from + 1);
    }
  }

  /** With non-negative fitness the running total only grows. */
  lemma {:induction false} PrefixMonotone(f: seq<real>, i: nat, j: nat)
    requires NonNegative(f) && i <= j <= |f|
    ensures PrefixSum(f, i) <= PrefixSum(f, j)
    decreases j - i
  {
    if i < j {
      PrefixMonotone(f, i, j - 1);
    }
  }

  /** A draw up to the total is always reached. */
  lemma ReachedWithinTotal(f: seq<real>, r: real)
    requires |f| >= 1 && r <= Total(f)
    ensures FirstReach(f, r, 0).Some?
  {
    FirstReachFacts(f, r, 0);
  }

  /**
   * `RouletteWheelSelection` of the cluster-centroids baseline: the
   * selected index, or the last index when the draw is never reached.
   */
  function Spin(f: seq<real>, r: real): (j: nat)
    requires |f| >= 1
    ensures j < |f|
  {
    FirstReachFacts(f, r, 0);
    match FirstReach(f, r, 0)
    case Some(j) => j
    case None => |f| - 1
  }

  /**
   * A positive draw up to the total selects index `j` exactly when `r`
   * falls in `j`'s slice of the wheel, (PrefixSum(j), PrefixSum(j + 1)].
   */
  lemma SpinSlice(f: seq<real>, r: real, j: nat)
    requires |f| >= 1 && NonNegative(f) && 0.0 < r <= Total(f)
    ensures Spin(f, r) == j <==> j < |f| && PrefixSum(f, j) < r <= PrefixSum(f, j + 1)
  {
    ReachedWithinTotal(f, r);
    FirstReachFacts(f, r, 0);
    var s := FirstReach(f, r, 0).value;
    if j < |f| && PrefixSum(f, j) < r <= PrefixSum(f, j + 1) && j > s {
      PrefixMonotone(f, s + 1, j);
    }
  }

  /** A positive draw never selects an index of zero fitness. */
  lemma SpinAvoidsZero(f: seq<real>, r: real)
    requires |f| >= 1 && NonNegative(f) && 0.0 < r <= Total(f)
    ensures f[Spin(f, r)] > 0.0
  {
    SpinSlice(f, r, Spin(f, r));
  }

  /** The selection loop of the cluster-centroids baseline. */
  method RouletteWheelSelection(f: seq<real>, r: real) returns (j: nat)
    requires |f| >= 1
    ensures j == Spin(f, r)
  {
    var rest := r;
    for i := 0 to |f|
      invariant rest == r - PrefixSum(f, i)
      invariant FirstReach(f, r, 0) == FirstReach(f, r, i)
    {
      rest := rest - f[i];
      if rest <= 0.0 {
        return i;
      }
    }
    return |f| - 1;
  }

  /**
   * `RouletteWheelSelection` of the proposed k-means++ seeding: `None`
   * where the program stops on a total of zero or less, otherwise the
   * baseline's selection for the draw scaled to the total.
   */
  function NormalisedSpin(f: seq<real>, u: real): (j: Option<nat>)
    ensures j.Some? ==> j.value < |f|
  {
    if Total(f) <= 0.0 then None else Some(Spin(f, u * Total(f)))
  }

  /** The normalised selection loop, subtracting `f[i] / total` from `u`. */
  method NormalisedSelection(f: seq<real>, u: real) returns (j: Option<nat>)
    ensures j == NormalisedSpin(f, u)
  {
    if Total(f) <= 0.0 {
      return None;
    }
    var rest := u;
    for i := 0 to |f|
      invariant rest == u - PrefixSum(f, i) / Total(f)
      invariant FirstReach(f, u * Total(f), 0) == FirstReach(f, u * Total(f), i)
    {
      rest := rest - f[i] / Total(f);
      NormalisedStep(f, u, i);
      if rest <= 0.0 {
        NormalisedOutcome(f, u, i);
        return Some(i);
      }
    }
    NormalisedOutcome(f, u, |f|);
    return Some(|f| - 1);
  }

  /** Where the normalised scan stops: at the first index reached, or past the end. */
  lemma NormalisedOutcome(f: seq<real>, u: real, i: nat)
    requires Total(f) > 0.0 && i <= |f|
    requires FirstReach(f, u * Total(f), 0) == FirstReach(f, u * Total(f), i)
    requires i < |f| ==> PrefixSum(f, i + 1) >= u * Total(f)
    ensures NormalisedSpin(f, u) == Some(if i < |f| then i else |f| - 1)
  {
    FirstReachFacts(f, u * Total(f), i);
  }

  /** One subtraction: the normalised rest is non-positive exactly when the scaled draw is reached. */
  lemma NormalisedStep(f: seq<real>, u: real, i: nat)
    requires Total(f) > 0.0 && i < |f|
    ensures u - PrefixSum(f, i) / Total(f) - f[i] / Total(f) == u - PrefixSum(f, i + 1) / Total(f)
    ensures u - PrefixSum(f, i + 1) / Total(f) <= 0.0 <==> PrefixSum(f, i + 1) >= u * Total(f)
  {
    var total := Total(f);
    var p := PrefixSum(f, i + 1);
    assert p / total * total == p;
    if p >= u * total {
      assert p / total >= u * total / total;
    } else {
      assert p / total < u * total / total;
    }
  }

  // ---------------------------------------------------------------------
  // Without replacement.
  // ---------------------------------------------------------------------

  /** The outcome of one scan: an index, or running off the end of the wheel. */
  datatype Pick = Selected(index: nat) | Overrun

  /** One scan with the draw `r`. */
  function Scan(f: seq<real>, r: real): (p: Pick)
    ensures p.Selected? ==> p.index < |f|
  {
    FirstReachFacts(f, r, 0);
    match FirstReach(f, r, 0)
    case Some(j) => Selected(j)
    case None => Overrun
  }

  /** Indices of positive fitness. */
  function Positives(f: seq<real>): nat
  {
    if f == [] then 0 else Positives(f[..|f| - 1]) + (if f[|f| - 1] > 0.0 then 1 else 0)
  }

  /**
   * The rounds without replacement, as a function of the draws `u` in
   * [0, 1): each scan uses `u * total`, and the selected index is flagged,
   * its fitness zeroed and subtracted from the total.  `None` when a scan
   * runs off the end (the program then writes past the flag vector).
   */
  function Rounds(flags: seq<bool>, f: seq<real>, total: real, u: seq<real>): Option<(seq<bool>, seq<real>)>
    requires |flags| == |f|
    decreases |u|
  {
    if u == [] then Some((flags, f))
    else match Scan(f, u[0] * total)
      case Overrun => None
      case Selected(j) => Rounds(flags[j := true], f[j := 0.0], total - f[j], u[1..])
  }

  /**
   * One scan as the remover writes it: the loop index stops at the first
   * index reached, or runs to the wheel's length.
   */
  method ScanLoop(f: seq<real>, r: real) returns (j: nat)
    ensures j == match Scan(f, r) case Selected(i) => i case Overrun => |f|
  {
    var rest := r;
    j := 0;
    while j < |f|
      invariant j <= |f| && rest == r - PrefixSum(f, j)
      invariant FirstReach(f, r, 0) == FirstReach(f, r, j)
    {
      rest := rest - f[j];
      if rest <= 0.0 {
        return;
      }
      j := j + 1;
    }
  }

  /** `RouletteWheelSelection` of the proposed remover: one round per draw, without replacement. */
  method DrawWithoutReplacement(flags: seq<bool>, f: seq<real>, u: seq<real>)
    returns (ok: bool, flags': seq<bool>, f': seq<real>)
    requires |flags| == |f|
    ensures ok <==> Rounds(flags, f, Total(f), u).Some?
    ensures ok ==> Rounds(flags, f, Total(f), u) == Some((flags', f'))
  {
    var total := Total(f);
    flags', f' := flags, f;
    for k := 0 to |u|
      invariant |flags'| == |f'| == |f|
      invariant Rounds(flags, f, Total(f), u) == Rounds(flags', f', total, u[k..])
    {
      var w := u[k..];
      assert w[1..] == u[k + 1..];
      var j := ScanLoop(f', w[0] * total);
      RoundsUnfold(flags', f', total, w);
      if j == |f'| {
        return false, flags', f';
      }
      total := total - f'[j];
      f' := f'[j := 0.0];
      flags' := flags'[j := true];
    }
    ok := true;
  }

  /** One round of `Rounds`: an overrun ends them, a selection continues with the rest. */
  lemma RoundsUnfold(flags: seq<bool>, f: seq<real>, total: real, w: seq<real>)
    requires |flags| == |f| && w != []
    ensures Scan(f, w[0] * total) == Overrun ==> Rounds(flags, f, total, w) == None
    ensures Scan(f, w[0] * total).Selected? ==>
              var j := Scan(f, w[0] * total).index;
              Rounds(flags, f, total, w) == Rounds(flags[j := true], f[j := 0.0], total - f[j], w[1..])
  {
  }

  /** Zeroing one entry lowers the total by that entry. */
  lemma {:induction false} PrefixSumUpdate(f: seq<real>, j: nat, v: real, n: nat)
    requires j < |f| && n <= |f|
    ensures PrefixSum(f[j := v], n) == PrefixSum(f, n) + (if j < n then v - f[j] else 0.0)
  {
    if n > 0 {
      PrefixSumUpdate(f, j, v, n - 1);
      var g := f[j := v];
      assert PrefixSum(g, n) == PrefixSum(g, n - 1) + g[n - 1];
      if j == n - 1 {
        assert g[n - 1] == v;
      } else {
        assert g[n - 1] == f[n - 1];
      }
    }
  }

  /** Zeroing a positive entry removes one positive. */
  lemma {:induction false} PositivesZeroed(f: seq<real>, j: nat)
    requires j < |f| && f[j] > 0.0
    ensures Positives(f[j := 0.0]) == Positives(f) - 1
  {
    var g := f[j := 0.0];
    if j < |f| - 1 {
      assert g[..|g| - 1] == f[..|f| - 1][j := 0.0];
      PositivesZeroed(f[..|f| - 1], j);
    } else {
      assert g[..|g| - 1] == f[..|f| - 1];
    }
  }

  /** Setting an unset flag adds one. */
  lemma {:induction false} TruesSet(flags: seq<bool>, j: nat)
    requires j < |flags| && !flags[j]
    ensures Trues(flags[j := true]) == Trues(flags) + 1
  {
    var g := flags[j := true];
    if j < |flags| - 1 {
      assert g[..|g| - 1] == flags[..|flags| - 1][j := true];
      TruesSet(flags[..|flags| - 1], j);
    } else {
      assert g[..|g| - 1] == flags[..|flags| - 1];
    }
  }

  /** A wheel with a positive entry and no negative one has a positive total. */
  lemma {:induction false} PositiveTotal(f: seq<real>)
    requires NonNegative(f) && Positives(f) >= 1
    ensures Total(f) > 0.0
  {
    var g := f[..|f| - 1];
    assert NonNegative(g);
    assert PrefixSum(f, |f|) == PrefixSum(g, |g|) + f[|f| - 1] by {
      PrefixSumAgree(f, g, |g|);
    }
    if Positives(g) >= 1 {
      PositiveTotal(g);
    } else {
      PrefixMonotone(g, 0, |g|);
    }
  }

  /** A running total depends only on the entries it covers. */
  lemma {:induction false} PrefixSumAgree(f: seq<real>, g: seq<real>, n: nat)
    requires n <= |f| && n <= |g| && forall i :: 0 <= i < n ==> f[i] == g[i]
    ensures PrefixSum(f, n) == PrefixSum(g, n)
  {
    if n > 0 {
      PrefixSumAgree(f, g, n - 1);
    }
  }

  lemma PositiveProduct(a: real, b: real)
    requires a > 0.0 && b > 0.0
    ensures a * b > 0.0
  {
  }

  /**
   * One round on a wheel of non-negative fitnesses with a positive entry
   * and a draw in (0, 1): the scan selects an unflagged index of positive
   * fitness, and zeroing it lowers the total by its fitness.
   */
  lemma OneRound(flags: seq<bool>, f: seq<real>, u: real)
    requires |flags| == |f| && NonNegative(f) && Positives(f) >= 1
    requires forall i :: 0 <= i < |f| && flags[i] ==> f[i] == 0.0
    requires 0.0 < u < 1.0
    ensures Scan(f, u * Total(f)).Selected?
    ensures var j := Scan(f, u * Total(f)).index;
            && f[j] > 0.0 && !flags[j]
            && Total(f[j := 0.0]) == Total(f) - f[j]
            && Positives(f[j := 0.0]) == Positives(f) - 1
            && Trues(flags[j := true]) == Trues(flags) + 1
  {
    PositiveTotal(f);
    PositiveProduct(u, Total(f));
    PositiveProduct(1.0 - u, Total(f));
    assert (1.0 - u) * Total(f) == Total(f) - u * Total(f);
    SpinAvoidsZero(f, u * Total(f));
    ReachedWithinTotal(f, u * Total(f));
    var j := Spin(f, u * Total(f));
    assert Scan(f, u * Total(f)) == Selected(j);
    PrefixSumUpdate(f, j, 0.0, |f|);
    PositivesZeroed(f, j);
    TruesSet(flags, j);
  }

  /**
   * With exact arithmetic the remover never runs off the wheel: when no
   * more rounds are asked for than there are positive fitnesses, and every
   * draw is in (0, 1), each round flags a new index of positive fitness.
   */
  lemma {:induction false} RoundsFlagDistinctPositives(flags: seq<bool>, f: seq<real>, u: seq<real>)
    requires |flags| == |f| && NonNegative(f)
    requires forall i :: 0 <= i < |f| && flags[i] ==> f[i] == 0.0
    requires |u| <= Positives(f) && forall k :: 0 <= k < |u| ==> 0.0 < u[k] < 1.0
    ensures Rounds(flags, f, Total(f), u).Some?
    ensures var (flags', f') := Rounds(flags, f, Total(f), u).value;
            && |flags'| == |flags| && Trues(flags') == Trues(flags) + |u|
            && (forall i :: 0 <= i < |f| && flags'[i] && !flags[i] ==> f[i] > 0.0)
            && (forall i :: 0 <= i < |f| && flags[i] ==> flags'[i])
    decreases |u|
  {
    if u != [] {
      OneRound(flags, f, u[0]);
      var j := Scan(f, u[0] * Total(f)).index;
      var g, fl := f[j := 0.0], flags[j := true];
      RoundsUnfold(flags, f, Total(f), u);
      assert NonNegative(g);
      assert forall i :: 0 <= i < |g| && fl[i] ==> g[i] == 0.0;
      RoundsFlagDistinctPositives(fl, g, u[1..]);
    }
  }
}
