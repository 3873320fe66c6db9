/**
 * `CalcAccForDecisionTree` of the base program: a full confusion matrix
 * indexed `[predicted][actual]`, from which each class's true positives
 * (the diagonal entry), false positives (the rest of its row), false
 * negatives (the rest of its column) and "true negatives" (the other
 * classes' diagonal entries) are read; then per-class rates, false
 * discovery and false omission rates, and macro averages over the classes
 * with a true positive or a false negative.
 *
 * Two defects of the program are modelled apart (see `RatesAsWritten` and
 * `AveragesAsWritten`); the rest of the model uses the corrected reading.
 */
module MatrixValidation {
  import opened Samples
  import opened ConfusionTally
  import opened MacroMetrics

  /** Number of testing rows of class `a` that the tree labels `p`. */
  function Pairs(rows: seq<Sample>, preds: seq<nat>, p: nat, a: nat): nat
    requires |preds| == |rows|
  {
    if rows == [] then 0
    else
      var k := |rows| - 1;
      Pairs(rows[..k], preds[..k], p, a) + (if preds[k] == p && rows[k].cls == a then 1 else 0)
  }

  /** The array holds the confusion matrix of the rows. */
  ghost predicate HoldsPairs(cm: array2<nat>, rows: seq<Sample>, preds: seq<nat>, n: nat)
    requires |preds| == |rows|
    reads cm
  {
    && cm.Length0 == n + 1 && cm.Length1 == n + 1
    && forall p, a :: 0 <= p <= n && 0 <= a <= n ==> cm[p, a] == Pairs(rows, preds, p, a)
  }

  /** The matrix as a value. */
  function Matrix(rows: seq<Sample>, preds: seq<nat>, n: nat): (m: seq<seq<nat>>)
    requires |preds| == |rows|
    ensures |m| == n + 1 && forall p :: 0 <= p <= n ==> |m[p]| == n + 1
  {
    seq(n + 1, p requires 0 <= p <= n => seq(n + 1, a requires 0 <= a <= n => Pairs(rows, preds, p, a)))
  }

  lemma PairsSnoc(rows: seq<Sample>, preds: seq<nat>, i: nat)
    requires |preds| == |rows| && i < |rows|
    ensures forall p, a :: Pairs(rows[..i + 1], preds[..i + 1], p, a)
                           == Pairs(rows[..i], preds[..i], p, a) + (if preds[i] == p && rows[i].cls == a then 1 else 0)
  {
    assert rows[..i + 1][..i] == rows[..i] && preds[..i + 1][..i] == preds[..i];
  }

  /** The matrix-filling loop. */
  method FillMatrix(rows: seq<Sample>, preds: seq<nat>, n: nat) returns (cm: array2<nat>)
    requires |preds| == |rows| && LabelsIn(rows, n) && PredsIn(preds, n)
    ensures HoldsPairs(cm, rows, preds, n)
  {
    cm := new nat[n + 1, n + 1]((_, _) => 0);
    for i := 0 to |rows|
      invariant HoldsPairs(cm, rows[..i], preds[..i], n)
    {
      PairsSnoc(rows, preds, i);
      Note(cm, rows, preds, n, i);
    }
    assert rows[..|rows|] == rows && preds[..|preds|] == preds;
  }

  /** The body of the filling loop: one testing row. */
  method Note(cm: array2<nat>, rows: seq<Sample>, preds: seq<nat>, n: nat, i: nat)
    requires |preds| == |rows| && LabelsIn(rows, n) && PredsIn(preds, n) && i < |rows|
    requires HoldsPairs(cm, rows[..i], preds[..i], n)
    requires forall p, a :: Pairs(rows[..i + 1], preds[..i + 1], p, a)
                            == Pairs(rows[..i], preds[..i], p, a) + (if preds[i] == p && rows[i].cls == a then 1 else 0)
    modifies cm
    ensures HoldsPairs(cm, rows[..i + 1], preds[..i + 1], n)
  {
    var a := rows[i].cls;
    var p := preds[i];
    cm[p, a] := cm[p, a] + 1;
  }

  /** Sum of row `p` of the matrix over the columns 0..hi-1. */
  function RowTotal(rows: seq<Sample>, preds: seq<nat>, p: nat, hi: nat): nat
    requires |preds| == |rows|
  {
    if hi == 0 then 0 else RowTotal(rows, preds, p, hi - 1) + Pairs(rows, preds, p, hi - 1)
  }

  /** Sum of the matrix over the rows 0..hi-1 and the columns 0..n. */
  function MatrixTotal(rows: seq<Sample>, preds: seq<nat>, n: nat, hi: nat): nat
    requires |preds| == |rows|
  {
    if hi == 0 then 0 else MatrixTotal(rows, preds, n, hi - 1) + RowTotal(rows, preds, hi - 1, n + 1)
  }

  lemma {:induction false} RowTotalSnoc(rows: seq<Sample>, preds: seq<nat>, i: nat, p: nat, hi: nat)
    requires |preds| == |rows| && i < |rows|
    ensures RowTotal(rows[..i + 1], preds[..i + 1], p, hi)
            == RowTotal(rows[..i], preds[..i], p, hi) + (if preds[i] == p && rows[i].cls < hi then 1 else 0)
  {
    if hi > 0 {
      RowTotalSnoc(rows, preds, i, p, hi - 1);
      PairsSnoc(rows, preds, i);
    }
  }

  lemma {:induction false} MatrixTotalSnoc(rows: seq<Sample>, preds: seq<nat>, n: nat, i: nat, hi: nat)
    requires |preds| == |rows| && i < |rows| && rows[i].cls <= n
    ensures MatrixTotal(rows[..i + 1], preds[..i + 1], n, hi)
            == MatrixTotal(rows[..i], preds[..i], n, hi) + (if preds[i] < hi then 1 else 0)
  {
    if hi > 0 {
      MatrixTotalSnoc(rows, preds, n, i, hi - 1);
      RowTotalSnoc(rows, preds, i, hi - 1, n + 1);
    }
  }

  lemma {:induction false} EmptyMatrixTotal(n: nat, hi: nat)
    ensures MatrixTotal([], [], n, hi) == 0
  {
    if hi > 0 {
      EmptyMatrixTotal(n, hi - 1);
      EmptyRowTotal(hi - 1, n + 1);
    }
  }

  lemma {:induction false} EmptyRowTotal(p: nat, hi: nat)
    ensures RowTotal([], [], p, hi) == 0
  {
    if hi > 0 {
      EmptyRowTotal(p, hi - 1);
    }
  }

  /** Every testing row falls in exactly one cell, so the cells add up to the number of rows. */
  lemma {:induction false} MatrixTotalIsSize(rows: seq<Sample>, preds: seq<nat>, n: nat)
    requires |preds| == |rows| && LabelsIn(rows, n) && PredsIn(preds, n)
    ensures MatrixTotal(rows, preds, n, n + 1) == |rows|
  {
    if rows == [] {
      EmptyMatrixTotal(n, n + 1);
    } else {
      var k := |rows| - 1;
      MatrixTotalIsSize(rows[..k], preds[..k], n);
      MatrixTotalSnoc(rows, preds, n, k, n + 1);
      assert rows[..k + 1] == rows && preds[..k + 1] == preds;
    }
  }

  /** Sum of row `c` over columns 1..hi other than `c`. */
  function OffRow(rows: seq<Sample>, preds: seq<nat>, c: nat, hi: nat): nat
    requires |preds| == |rows|
  {
    if hi == 0 then 0 else OffRow(rows, preds, c, hi - 1) + (if hi != c then Pairs(rows, preds, c, hi) else 0)
  }

  /** Sum of column `c` over rows 1..hi other than `c`. */
  function OffColumn(rows: seq<Sample>, preds: seq<nat>, c: nat, hi: nat): nat
    requires |preds| == |rows|
  {
    if hi == 0 then 0 else OffColumn(rows, preds, c, hi - 1) + (if hi != c then Pairs(rows, preds, hi, c) else 0)
  }

  /** Sum of the diagonal over 1..hi, leaving out class `c`. */
  function OffDiagonal(rows: seq<Sample>, preds: seq<nat>, c: nat, hi: nat): nat
    requires |preds| == |rows|
  {
    if hi == 0 then 0 else OffDiagonal(rows, preds, c, hi - 1) + (if hi != c then Pairs(rows, preds, hi, hi) else 0)
  }

  /** The loops that read class `c`'s counts off the matrix. */
  method ReadCounts(cm: array2<nat>, n: nat, c: nat, ghost rows: seq<Sample>, ghost preds: seq<nat>)
    returns (tp: nat, fp: nat, fn: nat, tn: nat)
    requires |preds| == |rows| && HoldsPairs(cm, rows, preds, n) && 1 <= c <= n
    ensures tp == Pairs(rows, preds, c, c) && fp == OffRow(rows, preds, c, n)
    ensures fn == OffColumn(rows, preds, c, n) && tn == OffDiagonal(rows, preds, c, n)
  {
    tp, fp, fn, tn := cm[c, c], 0, 0, 0;
    for col := 1 to n + 1
      invariant fp == OffRow(rows, preds, c, col - 1) && tn == OffDiagonal(rows, preds, c, col - 1)
    {
      if col != c {
        fp := fp + cm[c, col];
        tn := tn + cm[col, col];
      }
    }
    for row := 1 to n + 1
      invariant fn == OffColumn(rows, preds, c, row - 1)
    {
      if row != c {
        fn := fn + cm[row, c];
      }
    }
  }

  // ---------------------------------------------------------------------
  // The matrix and the tally of the other programs agree.
  // ---------------------------------------------------------------------

  lemma {:induction false} OffRowStep(rows: seq<Sample>, preds: seq<nat>, c: nat, hi: nat)
    requires |preds| == |rows| && rows != []
    ensures var k := |rows| - 1;
            var a, p := rows[k].cls, preds[k];
            OffRow(rows, preds, c, hi)
            == OffRow(rows[..k], preds[..k], c, hi) + (if p == c && a != c && 1 <= a <= hi then 1 else 0)
  {
    if hi > 0 {
      OffRowStep(rows, preds, c, hi - 1);
    }
  }

  lemma {:induction false} OffColumnStep(rows: seq<Sample>, preds: seq<nat>, c: nat, hi: nat)
    requires |preds| == |rows| && rows != []
    ensures var k := |rows| - 1;
            var a, p := rows[k].cls, preds[k];
            OffColumn(rows, preds, c, hi)
            == OffColumn(rows[..k], preds[..k], c, hi) + (if a == c && p != c && 1 <= p <= hi then 1 else 0)
  {
    if hi > 0 {
      OffColumnStep(rows, preds, c, hi - 1);
    }
  }

  /**
   * The diagonal entry, the rest of the row and the rest of the column of
   * class `c` are exactly the true positives, false positives and false
   * negatives the `{TP, FP, FN}` tally counts.
   */
  lemma {:induction false} MatrixIsTally(rows: seq<Sample>, preds: seq<nat>, n: nat, c: nat)
    requires |preds| == |rows| && LabelsIn(rows, n) && PredsIn(preds, n) && 1 <= c <= n
    ensures var t := Tallies(rows, preds, n)[c];
            && Pairs(rows, preds, c, c) == t.tp
            && OffRow(rows, preds, c, n) == t.fp
            && OffColumn(rows, preds, c, n) == t.fn
  {
    if rows != [] {
      var k := |rows| - 1;
      var a, p := rows[k].cls, preds[k];
      assert 1 <= a <= n && 1 <= p <= n;
      MatrixIsTally(rows[..k], preds[..k], n, c);
      OffRowStep(rows, preds, c, n);
      OffColumnStep(rows, preds, c, n);
      var before := Tallies(rows[..k], preds[..k], n);
      var after := Tallies(rows, preds, n);
      assert after == Record(before, a, p);
      RecordBumps(before, a, p);
      assert after[c].tp == Field(after[c], TP) == before[c].tp + Bump(a, p, c, TP);
      assert after[c].fp == Field(after[c], FP) == before[c].fp + Bump(a, p, c, FP);
      assert after[c].fn == Field(after[c], FN) == before[c].fn + Bump(a, p, c, FN);
    } else {
      OffEmpty(rows, preds, c, n);
    }
  }

  lemma {:induction false} OffEmpty(rows: seq<Sample>, preds: seq<nat>, c: nat, hi: nat)
    requires |preds| == |rows| == 0
    ensures OffRow(rows, preds, c, hi) == 0 && OffColumn(rows, preds, c, hi) == 0
  {
    if hi > 0 {
      OffEmpty(rows, preds, c, hi - 1);
    }
  }

  /** The "true negatives" of a class and its true positives make up the whole diagonal. */
  lemma {:induction false} DiagonalSplit(rows: seq<Sample>, preds: seq<nat>, n: nat, c: nat, hi: nat)
    requires |preds| == |rows| && LabelsIn(rows, n) && PredsIn(preds, n) && 1 <= c <= n && hi <= n
    ensures OffDiagonal(rows, preds, c, hi) + (if c <= hi then Pairs(rows, preds, c, c) else 0)
            == SumField(Tallies(rows, preds, n), TP, hi + 1)
  {
    if hi == 0 {
      UnusedRowZero(rows, preds, n);
    } else {
      DiagonalSplit(rows, preds, n, c, hi - 1);
      MatrixIsTally(rows, preds, n, hi);
    }
  }

  // ---------------------------------------------------------------------
  // Per-class rates.
  // ---------------------------------------------------------------------

  datatype ClassRates = ClassRates(precision: real, recall: real, f1: real, fdr: real, fomr: real)

  /** False discovery rate: false positives over the rows predicted as the class. */
  function Discovery(t: Tally): (r: real)
    ensures 0.0 <= r <= 1.0
  {
    if t.fp + t.tp > 0 then
      Ratio(t.fp, t.fp + t.tp);
      (t.fp as real) / ((t.fp + t.tp) as real)
    else 0.0
  }

  /** False omission rate, over the program's "true negatives". */
  function Omission(t: Tally, tn: nat): (r: real)
    ensures 0.0 <= r <= 1.0
  {
    if t.fn + tn > 0 then
      Ratio(t.fn, t.fn + tn);
      (t.fn as real) / ((t.fn + tn) as real)
    else 0.0
  }

  /** The five rates of a class from its counts. */
  function RatesOf(t: Tally, tn: nat): ClassRates
  {
    var p := Precision(t);
    var r := Recall(t);
    ClassRates(p, r, F1(p, r), Discovery(t), Omission(t, tn))
  }

  /** Whenever a class is predicted at all, its false discovery rate and its "recall" add up to 1. */
  lemma DiscoveryComplementsRecall(t: Tally)
    requires t.tp + t.fp > 0
    ensures Discovery(t) + Recall(t) == 1.0
  {
    var d := (t.tp + t.fp) as real;
    assert Discovery(t) == (t.fp as real) / d;
    assert Recall(t) == (t.tp as real) / d;
    assert (t.fp as real) / d + (t.tp as real) / d == ((t.fp + t.tp) as real) / d;
  }

  /**
   * AS WRITTEN: the metric block reads `confusion_matrix[c][TP]` and the
   * like with the counts themselves as column indices (the index constants
   * are commented out), so it reads unrelated cells, or past the row
   * (`None`) when a count exceeds the number of classes.
   */
  function RatesAsWritten(m: seq<seq<nat>>, c: nat, tp: nat, fp: nat, fn: nat, tn: nat): Option<ClassRates>
    requires c < |m|
  {
    var row := m[c];
    if tp < |row| && fp < |row| && fn < |row| && tn < |row| then
      Some(RatesOf(Tally(row[tp], row[fp], row[fn]), row[tn]))
    else None
  }

  /**
   * Two rows of class 1, both predicted right, with two classes: the
   * program's cells give class 1 every rate 0, where the counts give it
   * "precision", "recall" and f1 of 1.
   */
  lemma MisreadCells()
    ensures var rows := [Sample([], 1), Sample([], 1)];
            var preds := [1, 1];
            && PredsIn(preds, 2) && LabelsIn(rows, 2)
            && Pairs(rows, preds, 1, 1) == 2 && OffRow(rows, preds, 1, 2) == 0
            && OffColumn(rows, preds, 1, 2) == 0 && OffDiagonal(rows, preds, 1, 2) == 0
            && RatesAsWritten(Matrix(rows, preds, 2), 1, 2, 0, 0, 0) == Some(ClassRates(0.0, 0.0, 0.0, 0.0, 0.0))
            && RatesOf(Tallies(rows, preds, 2)[1], 0) == ClassRates(1.0, 1.0, 1.0, 0.0, 0.0)
  {
    var rows := [Sample([], 1), Sample([], 1)];
    var preds := [1, 1];
    assert rows[..1] == [Sample([], 1)] && preds[..1] == [1];
    assert [Sample([], 1)][..0] == [] && [1][..0] == [];
    var m := Matrix(rows, preds, 2);
    assert m[1][2] == Pairs(rows, preds, 1, 2) == 0;
    assert m[1][0] == Pairs(rows, preds, 1, 0) == 0;
    MatrixIsTally(rows, preds, 2, 1);
    assert Tallies(rows, preds, 2)[1] == Tally(2, 0, 0);
    assert F1(1.0, 1.0) == 1.0;
  }

  // ---------------------------------------------------------------------
  // The class loop and the averages.
  // ---------------------------------------------------------------------

  /** The false discovery rates of the classes 1..c that take part, in class order. */
  function Discoveries(rows: seq<Sample>, preds: seq<nat>, n: nat, c: nat): seq<real>
    requires |preds| == |rows| && LabelsIn(rows, n) && PredsIn(preds, n) && c <= n
  {
    if c == 0 then []
    else
      var d := Discoveries(rows, preds, n, c - 1);
      if CountLabel(rows, c) == 0 then d else d + [Discovery(Tallies(rows, preds, n)[c])]
  }

  /** The false omission rates of the classes 1..c that take part, in class order. */
  function Omissions(rows: seq<Sample>, preds: seq<nat>, n: nat, c: nat): seq<real>
    requires |preds| == |rows| && LabelsIn(rows, n) && PredsIn(preds, n) && c <= n
  {
    if c == 0 then []
    else
      var o := Omissions(rows, preds, n, c - 1);
      if CountLabel(rows, c) == 0 then o
      else o + [Omission(Tallies(rows, preds, n)[c], OffDiagonal(rows, preds, c, n))]
  }

  /** One rate of each kind per class that takes part, each in [0, 1]. */
  lemma {:induction false} RateListsFacts(rows: seq<Sample>, preds: seq<nat>, n: nat, c: nat)
    requires |preds| == |rows| && LabelsIn(rows, n) && PredsIn(preds, n) && c <= n
    ensures |Discoveries(rows, preds, n, c)| == |Omissions(rows, preds, n, c)| == Present(ClassCounts(rows, n), c)
    ensures forall j :: 0 <= j < |Discoveries(rows, preds, n, c)| ==>
              0.0 <= Discoveries(rows, preds, n, c)[j] <= 1.0 && 0.0 <= Omissions(rows, preds, n, c)[j] <= 1.0
  {
    if c > 0 {
      RateListsFacts(rows, preds, n, c - 1);
    }
  }

  /**
   * AS WRITTEN: the averages divide by `n_testing_classes`, which starts
   * at 0 and is never incremented, so every division is by zero.
   */
  function AveragesAsWritten(s: Sums): Option<Accuracies>
  {
    Averages(s.(classes := 0))
  }

  /**
   * On any non-empty testing set the program's averages are divisions by
   * zero, while dividing by the classes that took part gives averages.
   */
  lemma NoTestingClasses(rows: seq<Sample>, preds: seq<nat>, n: nat)
    requires |preds| == |rows| && LabelsIn(rows, n) && PredsIn(preds, n) && rows != []
    ensures var s := Accumulated(Tallies(rows, preds, n), ClassCounts(rows, n), n);
            AveragesAsWritten(s).None? && Averages(s).Some?
  {
    AveragesInUnit(Tallies(rows, preds, n), ClassCounts(rows, n), n);
    PresentPositive(ClassCounts(rows, n), n);
    CountLabelBounds(rows, rows[0].cls);
  }

  /**
   * `CalcAccForDecisionTree`, with the corrected metric block and class
   * counter: the macro averages of the other programs, and the false
   * discovery and false omission rates of each class that takes part.
   */
  method CalcAccForDecisionTree(rows: seq<Sample>, preds: seq<nat>, n: nat)
    returns (acc: Option<Accuracies>, fdr: seq<real>, fomr: seq<real>)
    requires |preds| == |rows| && LabelsIn(rows, n) && PredsIn(preds, n)
    ensures acc == Averages(Accumulated(Tallies(rows, preds, n), ClassCounts(rows, n), n))
    ensures fdr == Discoveries(rows, preds, n, n) && fomr == Omissions(rows, preds, n, n)
  {
    var cm := FillMatrix(rows, preds, n);
    ghost var table := Tallies(rows, preds, n);
    ghost var counts := ClassCounts(rows, n);
    var s := Sums(0.0, 0.0, 0.0, 1.0, 0);
    fdr, fomr := [], [];
    for c := 1 to n + 1
      invariant s == Accumulated(table, counts, c - 1)
      invariant fdr == Discoveries(rows, preds, n, c - 1) && fomr == Omissions(rows, preds, n, c - 1)
      invariant HoldsPairs(cm, rows, preds, n)
    {
      s, fdr, fomr := ClassStep(cm, n, c, rows, preds, s, fdr, fomr);
    }
    if s.classes == 0 {
      return None, fdr, fomr;
    }
    var k := s.classes as real;
    acc := Some(Accuracies(s.precision / k, s.recall / k, s.f1 / k, s.gProduct));
  }

  /** One class of the metric loop. */
  method ClassStep(cm: array2<nat>, n: nat, c: nat, ghost rows: seq<Sample>, ghost preds: seq<nat>,
                   s: Sums, fdr: seq<real>, fomr: seq<real>)
    returns (s': Sums, fdr': seq<real>, fomr': seq<real>)
    requires |preds| == |rows| && LabelsIn(rows, n) && PredsIn(preds, n) && 1 <= c <= n
    requires HoldsPairs(cm, rows, preds, n)
    requires s == Accumulated(Tallies(rows, preds, n), ClassCounts(rows, n), c - 1)
    requires fdr == Discoveries(rows, preds, n, c - 1) && fomr == Omissions(rows, preds, n, c - 1)
    ensures s' == Accumulated(Tallies(rows, preds, n), ClassCounts(rows, n), c)
    ensures fdr' == Discoveries(rows, preds, n, c) && fomr' == Omissions(rows, preds, n, c)
  {
    var tp, fp, fn, tn := ReadTally(cm, n, c, rows, preds);
    ghost var table := Tallies(rows, preds, n);
    ghost var counts := ClassCounts(rows, n);
    ghost var t := table[c];
    assert counts[c] == CountLabel(rows, c);
    assert Accumulated(table, counts, c) == if counts[c] == 0 then s else Add(s, t);
    assert Discoveries(rows, preds, n, c) == if CountLabel(rows, c) == 0 then fdr else fdr + [Discovery(t)];
    assert Omissions(rows, preds, n, c) == if CountLabel(rows, c) == 0 then fomr else fomr + [Omission(t, tn)];
    assert tp + fn > 0 <==> CountLabel(rows, c) > 0;
    s', fdr', fomr' := s, fdr, fomr;
    if tp + fn > 0 {
      var counted := Tally(tp, fp, fn);
      s' := Add(s, counted);
      fdr', fomr' := fdr + [Discovery(counted)], fomr + [Omission(counted, tn)];
    }
  }

  /** Class `c`'s counts, which are its tally entry. */
  method ReadTally(cm: array2<nat>, n: nat, c: nat, ghost rows: seq<Sample>, ghost preds: seq<nat>)
    returns (tp: nat, fp: nat, fn: nat, tn: nat)
    requires |preds| == |rows| && LabelsIn(rows, n) && PredsIn(preds, n) && 1 <= c <= n
    requires HoldsPairs(cm, rows, preds, n)
    ensures Tally(tp, fp, fn) == Tallies(rows, preds, n)[c] && tn == OffDiagonal(rows, preds, c, n)
    ensures tp + fn > 0 <==> ClassCounts(rows, n)[c] > 0
  {
    tp, fp, fn, tn := ReadCounts(cm, n, c, rows, preds);
    MatrixIsTally(rows, preds, n, c);
    TallyOfClass(rows, preds, n, c);
  }

  /** What the base program's `Validation` hands back when it evaluates a tree. */
  datatype Evaluation = Evaluation(acc: Option<Accuracies>, fdr: seq<real>, fomr: seq<real>)

  /**
   * `Validation` of the base program: only the model type "decision_tree"
   * is evaluated; for any other type the program returns a record it never
   * filled in, `None` here.  `preds` are the tree's labels of the testing rows.
   */
  method Validation(isTree: bool, rows: seq<Sample>, preds: seq<nat>, n: nat) returns (result: Option<Evaluation>)
    requires |preds| == |rows| && LabelsIn(rows, n) && PredsIn(preds, n)
    ensures result.Some? <==> isTree
    ensures isTree ==> result.value == Evaluation(Averages(Accumulated(Tallies(rows, preds, n), ClassCounts(rows, n), n)),
                                                  Discoveries(rows, preds, n, n), Omissions(rows, preds, n, n))
  {
    result := None;
    if isTree {
      var acc, fdr, fomr := CalcAccForDecisionTree(rows, preds, n);
      result := Some(Evaluation(acc, fdr, fomr));
    }
  }
}
