/**
 * The per-class rates and the macro averages computed from a `{TP, FP,
 * FN}` tally.  The program's names are kept: its "precision" is true
 * positives over the rows of the class (`TP / (TP + FN)`) and its
 * "recall" true positives over the rows predicted as the class (`TP / (TP
 * + FP)`); each is 0 when its denominator is 0.  Only classes present in
 * the testing set take part, and the averages divide by their number.
 *
 * Floats are reals.  The geometric mean is kept as the product of the
 * recalls, whose k-th root the program takes for k present classes.
 */
module MacroMetrics {
  import opened Samples
  import opened ConfusionTally

  /** Multiplying by a positive factor keeps the order of two reals. */
  lemma ScaleOrder(x: real, y: real, k: real)
    requires k > 0.0
    ensures x <= y <==> x * k <= y * k
    ensures x == y <==> x * k == y * k
  {
    assert (y - x) * k == y * k - x * k;
    if x < y {
      PositiveProduct(y - x, k);
    }
    if y < x {
      PositiveProduct(x - y, k);
    }
  }

  /** `a / b` of two counts lies in [0, 1] when `a <= b`, and hits the ends exactly at `a == 0` and `a == b`. */
  lemma Ratio(a: nat, b: nat)
    requires a <= b && b > 0
    ensures 0.0 <= (a as real) / (b as real) <= 1.0
    ensures (a as real) / (b as real) == 0.0 <==> a == 0
    ensures (a as real) / (b as real) == 1.0 <==> a == b
  {
    var q, k := (a as real) / (b as real), b as real;
    assert q * k == a as real;
    ScaleOrder(0.0, q, k);
    assert 0.0 * k == 0.0;
    ScaleOrder(q, 1.0, k);
    assert 1.0 * k == k;
  }

  /** The program's "precision" of a class. */
  function Precision(t: Tally): (r: real)
    ensures 0.0 <= r <= 1.0
    ensures r == 0.0 <==> t.tp == 0
    ensures r == 1.0 <==> t.tp > 0 && t.fn == 0
  {
    if t.tp + t.fn > 0 then
      Ratio(t.tp, t.tp + t.fn);
      (t.tp as real) / ((t.tp + t.fn) as real)
    else 0.0
  }

  /** The program's "recall" of a class. */
  function Recall(t: Tally): (r: real)
    ensures 0.0 <= r <= 1.0
    ensures r == 0.0 <==> t.tp == 0
    ensures r == 1.0 <==> t.tp > 0 && t.fp == 0
  {
    if t.tp + t.fp > 0 then
      Ratio(t.tp, t.tp + t.fp);
      (t.tp as real) / ((t.tp + t.fp) as real)
    else 0.0
  }

  /** The harmonic mean of the two rates, 0 when both are 0. */
  function F1(p: real, r: real): real
  {
    if p + r > 0.0 then 2.0 * p * r / (p + r) else 0.0
  }

  function Min(a: real, b: real): real { if a <= b then a else b }
  function Max(a: real, b: real): real { if a <= b then b else a }

  /** The harmonic mean of two non-negative rates lies between them. */
  lemma F1Between(p: real, r: real)
    requires 0.0 <= p && 0.0 <= r
    ensures Min(p, r) <= F1(p, r) <= Max(p, r)
  {
    if p + r > 0.0 {
      if p <= r {
        Harmonic(p, r);
      } else {
        Harmonic(r, p);
        assert 2.0 * r * p == 2.0 * p * r && r + p == p + r;
      }
    }
  }

  lemma Harmonic(lo: real, hi: real)
    requires 0.0 <= lo <= hi && lo + hi > 0.0
    ensures lo <= 2.0 * lo * hi / (lo + hi) <= hi
  {
    var s := lo + hi;
    var f := 2.0 * lo * hi / s;
    assert f * s == 2.0 * lo * hi;
    assert f * s - lo * s == lo * (hi - lo);
    assert hi * s - f * s == hi * (hi - lo);
    NonNegativeProduct(lo, hi - lo);
    NonNegativeProduct(hi, hi - lo);
    ScaleOrder(lo, f, s);
    ScaleOrder(f, hi, s);
  }

  /** The running sums of the class loop, and the number of classes that took part. */
  datatype Sums = Sums(precision: real, recall: real, f1: real, gProduct: real, classes: nat)

  /** A present class's contribution. */
  function Add(s: Sums, t: Tally): Sums
  {
    var p := Precision(t);
    var r := Recall(t);
    Sums(s.precision + p, s.recall + r, s.f1 + F1(p, r), s.gProduct * r, s.classes + 1)
  }

  /** The sums over classes 1..c, skipping the classes absent from the testing set. */
  function Accumulated(table: seq<Tally>, counts: seq<nat>, c: nat): Sums
    requires c < |table| && c < |counts|
  {
    if c == 0 then Sums(0.0, 0.0, 0.0, 1.0, 0)
    else
      var s := Accumulated(table, counts, c - 1);
      if counts[c] == 0 then s else Add(s, table[c])
  }

  /** The macro averages; `gProduct` is the product whose root is the geometric mean. */
  datatype Accuracies = Accuracies(precision: real, recall: real, f1: real, gProduct: real)

  /** The final divisions; `None` when no class is present (the program then divides by zero). */
  function Averages(s: Sums): Option<Accuracies>
  {
    if s.classes == 0 then None
    else
      var k := s.classes as real;
      Some(Accuracies(s.precision / k, s.recall / k, s.f1 / k, s.gProduct))
  }

  /** Number of classes in 1..c present in the testing set. */
  function Present(counts: seq<nat>, c: nat): nat
    requires c < |counts|
  {
    if c == 0 then 0 else Present(counts, c - 1) + (if counts[c] > 0 then 1 else 0)
  }

  /** The class loop of the validation, over the tally array. */
  method MacroAverages(cm: array2<nat>, counts: seq<nat>, n: nat, ghost table: seq<Tally>)
    returns (acc: Option<Accuracies>)
    requires Holds(cm, table) && |table| == n + 1 && |counts| == n + 1
    ensures acc == Averages(Accumulated(table, counts, n))
  {
    var s := Sums(0.0, 0.0, 0.0, 1.0, 0);
    for c := 1 to n + 1
      invariant s == Accumulated(table, counts, c - 1)
    {
      if counts[c] == 0 {
        continue;
      }
      var precision, recall, f1 := ClassRates(cm, c, table);
      s := Sums(s.precision + precision, s.recall + recall, s.f1 + f1, s.gProduct * recall, s.classes + 1);
    }
    if s.classes == 0 {
      return None;
    }
    var k := s.classes as real;
    acc := Some(Accuracies(s.precision / k, s.recall / k, s.f1 / k, s.gProduct));
  }

  /** The rates of class `c`, read off the tally array. */
  method ClassRates(cm: array2<nat>, c: nat, ghost table: seq<Tally>) returns (precision: real, recall: real, f1: real)
    requires Holds(cm, table) && c < |table|
    ensures precision == Precision(table[c]) && recall == Recall(table[c]) && f1 == F1(precision, recall)
  {
    var tp, fp, fn := cm[c, TP], cm[c, FP], cm[c, FN];
    assert Tally(tp, fp, fn) == table[c];
    precision := 0.0;
    if tp + fn > 0 {
      precision := (tp as real) / ((tp + fn) as real);
    }
    recall := 0.0;
    if tp + fp > 0 {
      recall := (tp as real) / ((tp + fp) as real);
    }
    f1 := 0.0;
    if precision + recall > 0.0 {
      f1 := 2.0 * precision * recall / (precision + recall);
    }
  }

  // ---------------------------------------------------------------------
  // What the averages are.
  // ---------------------------------------------------------------------

  /**
   * Each running sum lies between 0 and the number of classes that took
   * part, the product of the recalls in [0, 1], and that number is the
   * number of classes present.
   */
  lemma {:induction false} AccumulatedBounds(table: seq<Tally>, counts: seq<nat>, c: nat)
    requires c < |table| && c < |counts|
    ensures var s := Accumulated(table, counts, c);
            && s.classes == Present(counts, c)
            && 0.0 <= s.precision <= s.classes as real
            && 0.0 <= s.recall <= s.classes as real
            && 0.0 <= s.f1 <= s.classes as real
            && 0.0 <= s.gProduct <= 1.0
  {
    if c > 0 {
      AccumulatedBounds(table, counts, c - 1);
      if counts[c] > 0 {
        AddBounds(Accumulated(table, counts, c - 1), table[c]);
      }
    }
  }

  lemma AddBounds(s: Sums, t: Tally)
    requires 0.0 <= s.precision <= s.classes as real && 0.0 <= s.recall <= s.classes as real
    requires 0.0 <= s.f1 <= s.classes as real && 0.0 <= s.gProduct <= 1.0
    ensures var s' := Add(s, t);
            && s'.classes == s.classes + 1
            && 0.0 <= s'.precision <= s'.classes as real
            && 0.0 <= s'.recall <= s'.classes as real
            && 0.0 <= s'.f1 <= s'.classes as real
            && 0.0 <= s'.gProduct <= 1.0
  {
    var p := Precision(t);
    var r := Recall(t);
    F1Between(p, r);
    UnitProduct(s.gProduct, r);
  }

  lemma UnitProduct(a: real, b: real)
    requires 0.0 <= a <= 1.0 && 0.0 <= b <= 1.0
    ensures 0.0 <= a * b <= 1.0
  {
    NonNegativeProduct(a, b);
    if b > 0.0 {
      ScaleOrder(a, 1.0, b);
    }
  }

  /**
   * The averages exist exactly when some class is present, and every
   * average, and the product of the recalls, then lies in [0, 1].
   */
  lemma AveragesInUnit(table: seq<Tally>, counts: seq<nat>, n: nat)
    requires n < |table| && n < |counts|
    ensures var acc := Averages(Accumulated(table, counts, n));
            && (acc.Some? <==> Present(counts, n) > 0)
            && (acc.Some? ==>
                  && 0.0 <= acc.value.precision <= 1.0 && 0.0 <= acc.value.recall <= 1.0
                  && 0.0 <= acc.value.f1 <= 1.0 && 0.0 <= acc.value.gProduct <= 1.0)
  {
    AccumulatedBounds(table, counts, n);
    var s := Accumulated(table, counts, n);
    if s.classes > 0 {
      var k := s.classes as real;
      MeanInUnit(s.precision, k);
      MeanInUnit(s.recall, k);
      MeanInUnit(s.f1, k);
    }
  }

  lemma MeanInUnit(x: real, k: real)
    requires k > 0.0 && 0.0 <= x <= k
    ensures 0.0 <= x / k <= 1.0
  {
    var q := x / k;
    assert q * k == x;
    ScaleOrder(0.0, q, k);
    ScaleOrder(q, 1.0, k);
  }

  /** A class is present in 1..c exactly when some count there is positive. */
  lemma {:induction false} PresentPositive(counts: seq<nat>, c: nat)
    requires c < |counts|
    ensures Present(counts, c) > 0 <==> exists d :: 1 <= d <= c && counts[d] > 0
  {
    if c > 0 {
      PresentPositive(counts, c - 1);
      if counts[c] == 0 && exists d :: 1 <= d <= c && counts[d] > 0 {
        var d :| 1 <= d <= c && counts[d] > 0;
        assert d < c;
      }
    }
  }
}
