/**
 * The per-class `{TP, FP, FN}` tally that the validations of the proposed
 * program and of the edited-nearest-neighbours program keep while they
 * compare each testing row's label with the tree's prediction: a correct
 * prediction counts a true positive for its class, a wrong one a false
 * positive for the predicted class and a false negative for the true one.
 *
 * The predictions are an input: `preds[i]` is the label the trained tree
 * gives row `i` of the testing set.
 */
module ConfusionTally {
  import opened Samples

  datatype Tally = Tally(tp: nat, fp: nat, fn: nat)

  /** Column indices of the tally array. */
  const TP: nat := 0
  const FP: nat := 1
  const FN: nat := 2

  function Field(t: Tally, col: nat): nat
  {
    if col == TP then t.tp else if col == FP then t.fp else t.fn
  }

  /** Every predicted label lies in 1..n, as every leaf of a tree trained on labels 1..n does. */
  ghost predicate PredsIn(preds: seq<nat>, n: nat)
  {
    forall i :: 0 <= i < |preds| ==> 1 <= preds[i] <= n
  }

  /** Number of entries of `s` equal to `c`. */
  function Occurrences(s: seq<nat>, c: nat): nat
  {
    if s == [] then 0 else Occurrences(s[..|s| - 1], c) + (if s[|s| - 1] == c then 1 else 0)
  }

  /** One comparison of a true label `a` with a prediction `p`. */
  function Record(table: seq<Tally>, a: nat, p: nat): (r: seq<Tally>)
    requires a < |table| && p < |table|
    ensures |r| == |table|
  {
    if a == p then table[a := table[a].(tp := table[a].tp + 1)]
    else
      var t := table[p := table[p].(fp := table[p].fp + 1)];
      t[a := t[a].(fn := t[a].fn + 1)]
  }

  /** The tally table after every row of the testing set; row 0 is unused. */
  function Tallies(rows: seq<Sample>, preds: seq<nat>, n: nat): (table: seq<Tally>)
    requires |preds| == |rows| && LabelsIn(rows, n) && PredsIn(preds, n)
    ensures |table| == n + 1
  {
    if rows == [] then seq(n + 1, _ => Tally(0, 0, 0))
    else
      var k := |rows| - 1;
      Record(Tallies(rows[..k], preds[..k], n), rows[k].cls, preds[k])
  }

  /** The array holds the table. */
  ghost predicate Holds(cm: array2<nat>, table: seq<Tally>)
    reads cm
  {
    && cm.Length0 == |table| && cm.Length1 == 3
    && forall c, col :: 0 <= c < |table| && 0 <= col < 3 ==> cm[c, col] == Field(table[c], col)
  }

  /** The tally loop of `CalculateAccuracies` and of the edited-nearest-neighbours `Validation`. */
  method TallyPredictions(rows: seq<Sample>, preds: seq<nat>, n: nat) returns (cm: array2<nat>)
    requires |preds| == |rows| && LabelsIn(rows, n) && PredsIn(preds, n)
    ensures Holds(cm, Tallies(rows, preds, n))
  {
    cm := new nat[n + 1, 3]((_, _) => 0);
    for i := 0 to |rows|
      invariant Holds(cm, Tallies(rows[..i], preds[..i], n))
    {
      TalliesSnoc(rows, preds, n, i);
      Count(cm, rows[i].cls, preds[i], Tallies(rows[..i], preds[..i], n));
    }
    assert rows[..|rows|] == rows && preds[..|preds|] == preds;
  }

  /** What one comparison adds to cell `(c, col)`. */
  function Bump(a: nat, p: nat, c: nat, col: nat): nat
  {
    if a == p then (if c == a && col == TP then 1 else 0)
    else if (c == p && col == FP) || (c == a && col == FN) then 1
    else 0
  }

  lemma RecordBumps(table: seq<Tally>, a: nat, p: nat)
    requires a < |table| && p < |table|
    ensures forall c, col :: 0 <= c < |table| && 0 <= col < 3 ==>
              Field(Record(table, a, p)[c], col) == Field(table[c], col) + Bump(a, p, c, col)
  {
  }

  /** The body of the tally loop: one comparison. */
  method Count(cm: array2<nat>, a: nat, p: nat, ghost table: seq<Tally>)
    requires Holds(cm, table) && 1 <= a < |table| && 1 <= p < |table|
    modifies cm
    ensures Holds(cm, Record(table, a, p))
  {
    if p == a {
      cm[p, TP] := cm[p, TP] + 1;
    } else {
      cm[p, FP] := cm[p, FP] + 1;
      cm[a, FN] := cm[a, FN] + 1;
    }
    assert forall c, col :: 0 <= c < |table| && 0 <= col < 3 ==> cm[c, col] == old(cm[c, col]) + Bump(a, p, c, col);
    RecordBumps(table, a, p);
  }

  lemma TalliesSnoc(rows: seq<Sample>, preds: seq<nat>, n: nat, i: nat)
    requires |preds| == |rows| && LabelsIn(rows, n) && PredsIn(preds, n) && i < |rows|
    ensures Tallies(rows[..i + 1], preds[..i + 1], n)
            == Record(Tallies(rows[..i], preds[..i], n), rows[i].cls, preds[i])
  {
    assert rows[..i + 1][..i] == rows[..i] && preds[..i + 1][..i] == preds[..i];
  }

  // ---------------------------------------------------------------------
  // What the tally counts.
  // ---------------------------------------------------------------------

  /**
   * For each class, true positives plus false negatives are the rows of
   * that class, and true plus false positives the rows predicted as it.
   */
  lemma {:induction false} TallyOfClass(rows: seq<Sample>, preds: seq<nat>, n: nat, c: nat)
    requires |preds| == |rows| && LabelsIn(rows, n) && PredsIn(preds, n) && c <= n
    ensures Tallies(rows, preds, n)[c].tp + Tallies(rows, preds, n)[c].fn == CountLabel(rows, c)
    ensures Tallies(rows, preds, n)[c].tp + Tallies(rows, preds, n)[c].fp == Occurrences(preds, c)
  {
    if rows != [] {
      var k := |rows| - 1;
      TallyOfClass(rows[..k], preds[..k], n, c);
    }
  }

  /** Sum of column `col` over the first `hi` rows of the table. */
  function SumField(table: seq<Tally>, col: nat, hi: nat): nat
    requires hi <= |table|
  {
    if hi == 0 then 0 else SumField(table, col, hi - 1) + Field(table[hi - 1], col)
  }

  lemma {:induction false} SumFieldUpdate(table: seq<Tally>, c: nat, x: Tally, col: nat, hi: nat)
    requires c < |table| && hi <= |table|
    ensures SumField(table[c := x], col, hi) + (if c < hi then Field(table[c], col) else 0)
            == SumField(table, col, hi) + (if c < hi then Field(x, col) else 0)
  {
    if hi > 0 {
      SumFieldUpdate(table, c, x, col, hi - 1);
    }
  }

  /** A comparison adds one true or one false positive, and a false negative with the latter. */
  lemma RecordSums(table: seq<Tally>, a: nat, p: nat)
    requires a < |table| && p < |table|
    ensures var r := Record(table, a, p);
            && SumField(r, TP, |r|) == SumField(table, TP, |table|) + (if a == p then 1 else 0)
            && SumField(r, FP, |r|) == SumField(table, FP, |table|) + (if a == p then 0 else 1)
            && SumField(r, FN, |r|) == SumField(table, FN, |table|) + (if a == p then 0 else 1)
  {
    var hi := |table|;
    if a == p {
      var x := table[a].(tp := table[a].tp + 1);
      SumFieldUpdate(table, a, x, TP, hi);
      SumFieldUpdate(table, a, x, FP, hi);
      SumFieldUpdate(table, a, x, FN, hi);
    } else {
      var x := table[p].(fp := table[p].fp + 1);
      var t := table[p := x];
      var y := t[a].(fn := t[a].fn + 1);
      SumFieldUpdate(table, p, x, TP, hi);
      SumFieldUpdate(table, p, x, FP, hi);
      SumFieldUpdate(table, p, x, FN, hi);
      SumFieldUpdate(t, a, y, TP, hi);
      SumFieldUpdate(t, a, y, FP, hi);
      SumFieldUpdate(t, a, y, FN, hi);
    }
  }

  /**
   * Over all classes, every testing row is one true or one false positive,
   * and false positives and false negatives come in pairs.
   */
  lemma {:induction false} TalliesAddUp(rows: seq<Sample>, preds: seq<nat>, n: nat)
    requires |preds| == |rows| && LabelsIn(rows, n) && PredsIn(preds, n)
    ensures var t := Tallies(rows, preds, n);
            && SumField(t, TP, n + 1) + SumField(t, FP, n + 1) == |rows|
            && SumField(t, FP, n + 1) == SumField(t, FN, n + 1)
  {
    var zero := seq(n + 1, _ => Tally(0, 0, 0));
    if rows == [] {
      SumFieldZero(zero, TP, n + 1);
      SumFieldZero(zero, FP, n + 1);
      SumFieldZero(zero, FN, n + 1);
    } else {
      var k := |rows| - 1;
      TalliesAddUp(rows[..k], preds[..k], n);
      RecordSums(Tallies(rows[..k], preds[..k], n), rows[k].cls, preds[k]);
    }
  }

  lemma {:induction false} SumFieldZero(table: seq<Tally>, col: nat, hi: nat)
    requires hi <= |table| && forall c :: 0 <= c < |table| ==> table[c] == Tally(0, 0, 0)
    ensures SumField(table, col, hi) == 0
  {
    if hi > 0 {
      SumFieldZero(table, col, hi - 1);
    }
  }

  /** Row 0 of the table is never touched. */
  lemma {:induction false} UnusedRowZero(rows: seq<Sample>, preds: seq<nat>, n: nat)
    requires |preds| == |rows| && LabelsIn(rows, n) && PredsIn(preds, n)
    ensures Tallies(rows, preds, n)[0] == Tally(0, 0, 0)
  {
    if rows != [] {
      var k := |rows| - 1;
      UnusedRowZero(rows[..k], preds[..k], n);
    }
  }
}
