/**
 * The logic of the file-operations units: whether a label was seen
 * already, the number of distinct class labels, and min-max normalisation
 * of the feature columns of the training and testing tables together.
 *
 * Reading the CSV files themselves is not part of this model.
 */
module FileOps {
  import opened Samples

  // ---------------------------------------------------------------------
  // Labels.
  // ---------------------------------------------------------------------

  /** `IsLabelExist` / `LabelExist`: a linear scan with early return. */
  method LabelExists(labels: seq<nat>, target: nat) returns (found: bool)
    ensures found <==> target in labels
  {
    for i := 0 to |labels|
      invariant target !in labels[..i]
    {
      if labels[i] == target {
        return true;
      }
      assert labels[..i + 1] == labels[..i] + [labels[i]];
    }
    assert labels[..|labels|] == labels;
    return false;
  }

  /** The labels that occur in a table. */
  ghost function LabelSet(rows: seq<Sample>): set<nat>
  {
    set i | 0 <= i < |rows| :: rows[i].cls
  }

  ghost predicate NoDuplicates(s: seq<nat>)
  {
    forall a, b :: 0 <= a < b < |s| ==> s[a] != s[b]
  }

  /** The values a list holds. */
  ghost function Values(s: seq<nat>): set<nat>
  {
    set x | x in s
  }

  /** A list without duplicates has as many entries as its set of values. */
  lemma {:induction false} DistinctCardinality(s: seq<nat>)
    requires NoDuplicates(s)
    ensures |Values(s)| == |s|
  {
    if s != [] {
      var k := |s| - 1;
      DistinctCardinality(s[..k]);
      assert s[k] !in Values(s[..k]);
      assert s == s[..k] + [s[k]];
      assert Values(s) == Values(s[..k]) + {s[k]};
    }
  }

  /**
   * `GetNumClasses`: collect each label the first time it is seen; the
   * number of classes is the number of distinct labels.
   */
  method GetNumClasses(rows: seq<Sample>) returns (n: nat)
    requires rows != []
    ensures n == |LabelSet(rows)|
  {
    var labels: seq<nat> := [];
    for i := 0 to |rows|
      invariant NoDuplicates(labels)
      invariant Values(labels) == LabelSet(rows[..i])
    {
      assert rows[..i + 1][..i] == rows[..i];
      assert LabelSet(rows[..i + 1]) == LabelSet(rows[..i]) + {rows[i].cls};
      var seen := LabelExists(labels, rows[i].cls);
      if !seen {
        labels := labels + [rows[i].cls];
      }
    }
    assert rows[..|rows|] == rows;
    DistinctCardinality(labels);
    n := |labels|;
  }

  // ---------------------------------------------------------------------
  // Min-max normalisation.
  // ---------------------------------------------------------------------

  /**
   * Where the running maximum and minimum of a column start: at 0 and
   * `FLT_MAX` (the two normalisers of the main program and the proposed
   * method) or at the first training row's value (the ENN program).
   */
  datatype Start = FromZeroAndFltMax | FromFirstRow

  /** Column `d` of a table. */
  ghost function Column(rows: seq<Sample>, d: nat): (col: seq<real>)
    requires Width(rows, d + 1) || forall i :: 0 <= i < |rows| ==> d < |rows[i].features|
    ensures |col| == |rows|
  {
    seq(|rows|, i requires 0 <= i < |rows| => rows[i].features[d])
  }

  /** A running maximum that moves only on a strictly larger value. */
  function RunMax(vals: seq<real>, init: real): real
  {
    if vals == [] then init
    else
      var m := RunMax(vals[..|vals| - 1], init);
      if vals[|vals| - 1] > m then vals[|vals| - 1] else m
  }

  /** A running minimum that moves only on a strictly smaller value. */
  function RunMin(vals: seq<real>, init: real): real
  {
    if vals == [] then init
    else
      var m := RunMin(vals[..|vals| - 1], init);
      if vals[|vals| - 1] < m then vals[|vals| - 1] else m
  }

  /** The running maximum bounds every value and the start, and is one of them. */
  lemma {:induction false} RunMaxBounds(vals: seq<real>, init: real)
    ensures RunMax(vals, init) >= init
    ensures forall i :: 0 <= i < |vals| ==> vals[i] <= RunMax(vals, init)
    ensures RunMax(vals, init) == init || RunMax(vals, init) in vals
  {
    if vals != [] {
      RunMaxBounds(vals[..|vals| - 1], init);
    }
  }

  lemma {:induction false} RunMinBounds(vals: seq<real>, init: real)
    ensures RunMin(vals, init) <= init
    ensures forall i :: 0 <= i < |vals| ==> RunMin(vals, init) <= vals[i]
    ensures RunMin(vals, init) == init || RunMin(vals, init) in vals
  {
    if vals != [] {
      RunMinBounds(vals[..|vals| - 1], init);
    }
  }

  /** Running over two tables one after the other. */
  lemma {:induction false} RunMaxAppend(a: seq<real>, b: seq<real>, init: real)
    ensures RunMax(a + b, init) == RunMax(b, RunMax(a, init))
    decreases |b|
  {
    if b == [] {
      assert a + b == a;
    } else {
      assert (a + b)[..|a + b| - 1] == a + b[..|b| - 1];
      RunMaxAppend(a, b[..|b| - 1], init);
    }
  }

  lemma {:induction false} RunMinAppend(a: seq<real>, b: seq<real>, init: real)
    ensures RunMin(a + b, init) == RunMin(b, RunMin(a, init))
    decreases |b|
  {
    if b == [] {
      assert a + b == a;
    } else {
      assert (a + b)[..|a + b| - 1] == a + b[..|b| - 1];
      RunMinAppend(a, b[..|b| - 1], init);
    }
  }

  /** Every row of both tables has `w` features. */
  ghost predicate Tables(train: seq<Sample>, test: seq<Sample>, w: nat)
  {
    train != [] && Width(train, w) && Width(test, w)
  }

  /** The value the running maximum of column `d` starts from. */
  ghost function StartMax(train: seq<Sample>, d: nat, start: Start): real
    requires train != [] && d < |train[0].features|
  {
    if start == FromZeroAndFltMax then 0.0 else train[0].features[d]
  }

  ghost function StartMin(train: seq<Sample>, d: nat, start: Start): real
    requires train != [] && d < |train[0].features|
  {
    if start == FromZeroAndFltMax then FLT_MAX else train[0].features[d]
  }

  /** The bounds of column `d`: training rows first, then testing rows. */
  ghost function Hi(train: seq<Sample>, test: seq<Sample>, w: nat, d: nat, start: Start): real
    requires Tables(train, test, w) && d < w
  {
    RunMax(Column(test, d), RunMax(Column(train, d), StartMax(train, d, start)))
  }

  ghost function Lo(train: seq<Sample>, test: seq<Sample>, w: nat, d: nat, start: Start): real
    requires Tables(train, test, w) && d < w
  {
    RunMin(Column(test, d), RunMin(Column(train, d), StartMin(train, d, start)))
  }

  /** A value rescaled to the column bounds; a degenerate column becomes 0. */
  function Scale(x: real, lo: real, hi: real): real
  {
    if hi == lo then 0.0 else (x - lo) / (hi - lo)
  }

  /** Rescaling a value between the bounds lands in [0, 1]. */
  lemma ScaleInUnit(x: real, lo: real, hi: real)
    requires lo <= x <= hi
    ensures 0.0 <= Scale(x, lo, hi) <= 1.0
  {
    if hi != lo {
      var span := hi - lo;
      assert span > 0.0;
      var q := (x - lo) / span;
      assert q * span == x - lo;
    }
  }

  /** The bounds enclose every value of the column in both tables. */
  lemma BoundsEnclose(train: seq<Sample>, test: seq<Sample>, w: nat, d: nat, start: Start)
    requires Tables(train, test, w) && d < w
    ensures forall i :: 0 <= i < |train| ==>
              Lo(train, test, w, d, start) <= train[i].features[d] <= Hi(train, test, w, d, start)
    ensures forall i :: 0 <= i < |test| ==>
              Lo(train, test, w, d, start) <= test[i].features[d] <= Hi(train, test, w, d, start)
  {
    var a, b := Column(train, d), Column(test, d);
    assert forall i :: 0 <= i < |train| ==> a[i] == train[i].features[d];
    assert forall i :: 0 <= i < |test| ==> b[i] == test[i].features[d];
    RunMaxBounds(a, StartMax(train, d, start));
    RunMaxBounds(b, RunMax(a, StartMax(train, d, start)));
    RunMinBounds(a, StartMin(train, d, start));
    RunMinBounds(b, RunMin(a, StartMin(train, d, start)));
  }

  /** The result of normalising table `rows` with the bounds of `train` and `test`. */
  ghost predicate Normalized(train: seq<Sample>, test: seq<Sample>, w: nat, start: Start,
                             rows: seq<Sample>, rows': seq<Sample>, upTo: nat)
    requires Tables(train, test, w) && Width(rows, w) && upTo <= w
  {
    && |rows'| == |rows|
    && forall i :: 0 <= i < |rows| ==>
         && rows'[i].cls == rows[i].cls
         && |rows'[i].features| == w
         && forall d :: 0 <= d < w ==>
              rows'[i].features[d] == if d < upTo then Scale(rows[i].features[d], Lo(train, test, w, d, start),
                                                                Hi(train, test, w, d, start))
                                      else rows[i].features[d]
  }

  /**
   * After normalisation every feature value of both tables lies in [0, 1],
   * a degenerate column is 0 throughout, and rows, their order and their
   * labels are unchanged.
   */
  lemma NormalizedInUnit(train: seq<Sample>, test: seq<Sample>, w: nat, start: Start,
                         rows: seq<Sample>, rows': seq<Sample>)
    requires Tables(train, test, w) && (rows == train || rows == test)
    requires Normalized(train, test, w, start, rows, rows', w)
    ensures forall i, d :: 0 <= i < |rows'| && 0 <= d < w ==> 0.0 <= rows'[i].features[d] <= 1.0
    ensures forall i, d :: 0 <= i < |rows'| && 0 <= d < w
              && Lo(train, test, w, d, start) == Hi(train, test, w, d, start)
              ==> rows'[i].features[d] == 0.0
  {
    forall i, d | 0 <= i < |rows'| && 0 <= d < w ensures 0.0 <= rows'[i].features[d] <= 1.0 {
      BoundsEnclose(train, test, w, d, start);
      ScaleInUnit(rows[i].features[d], Lo(train, test, w, d, start), Hi(train, test, w, d, start));
    }
  }

  /**
   * Starting from the first training row, the bounds are the true column
   * extremes: the smallest value maps to 0 and the largest to 1 whenever
   * the column is not constant.
   */
  lemma FirstRowStartReachesBounds(train: seq<Sample>, test: seq<Sample>, w: nat, d: nat)
    requires Tables(train, test, w) && d < w
    ensures exists i :: 0 <= i < |train + test| && (train + test)[i].features[d] == Hi(train, test, w, d, FromFirstRow)
    ensures exists i :: 0 <= i < |train + test| && (train + test)[i].features[d] == Lo(train, test, w, d, FromFirstRow)
  {
    var a, b := Column(train, d), Column(test, d);
    var s := train[0].features[d];
    RunMaxBounds(a, s);
    RunMaxBounds(b, RunMax(a, s));
    RunMinBounds(a, s);
    RunMinBounds(b, RunMin(a, s));
    var hi := Hi(train, test, w, d, FromFirstRow);
    var lo := Lo(train, test, w, d, FromFirstRow);
    assert (train + test)[0] == train[0];
    if hi in b {
      var k :| 0 <= k < |b| && b[k] == hi;
      assert (train + test)[|train| + k] == test[k];
    } else if hi in a {
      var k :| 0 <= k < |a| && a[k] == hi;
      assert (train + test)[k] == train[k];
    }
    if lo in b {
      var k :| 0 <= k < |b| && b[k] == lo;
      assert (train + test)[|train| + k] == test[k];
    } else if lo in a {
      var k :| 0 <= k < |a| && a[k] == lo;
      assert (train + test)[k] == train[k];
    }
  }

  /**
   * Starting the maximum at 0 is not the column maximum when every value
   * is negative: the column -2, -1 is scaled to 0, 0.5, so its largest
   * value does not reach 1.
   */
  lemma ZeroStartMissesNegativeMaximum()
    ensures var train := [Sample([-2.0], 1), Sample([-1.0], 1)];
            Hi(train, [], 1, 0, FromZeroAndFltMax) == 0.0
            && Lo(train, [], 1, 0, FromZeroAndFltMax) == -2.0
            && Scale(-1.0, Lo(train, [], 1, 0, FromZeroAndFltMax), Hi(train, [], 1, 0, FromZeroAndFltMax)) == 0.5
  {
    var train := [Sample([-2.0], 1), Sample([-1.0], 1)];
    var col := Column(train, 0);
    assert col == [-2.0, -1.0];
    assert col[..1] == [-2.0];
    assert col[..1][..0] == [];
    assert Column([], 0) == [];
  }

  /**
   * The running bounds of column `d`, as the loops over the training and
   * then the testing rows compute them.
   */
  method ColumnBounds(train: seq<Sample>, test: seq<Sample>, w: nat, d: nat, start: Start)
    returns (lo: real, hi: real)
    requires Tables(train, test, w) && d < w
    ensures lo == Lo(train, test, w, d, start) && hi == Hi(train, test, w, d, start)
  {
    if start == FromZeroAndFltMax {
      hi, lo := 0.0, FLT_MAX;
    } else {
      hi, lo := train[0].features[d], train[0].features[d];
    }
    ghost var hi0, lo0 := hi, lo;
    var a := Column(train, d);
    for i := 0 to |train|
      invariant hi == RunMax(a[..i], hi0) && lo == RunMin(a[..i], lo0)
    {
      assert a[..i + 1][..i] == a[..i];
      if train[i].features[d] > hi {
        hi := train[i].features[d];
      }
      if train[i].features[d] < lo {
        lo := train[i].features[d];
      }
    }
    assert a[..|train|] == a;
    ghost var hi1, lo1 := hi, lo;
    var b := Column(test, d);
    for i := 0 to |test|
      invariant hi == RunMax(b[..i], hi1) && lo == RunMin(b[..i], lo1)
    {
      assert b[..i + 1][..i] == b[..i];
      if test[i].features[d] > hi {
        hi := test[i].features[d];
      }
      if test[i].features[d] < lo {
        lo := test[i].features[d];
      }
    }
    assert b[..|test|] == b;
  }

  /** Column `d` of one table rewritten: 0 when the bounds coincide, else rescaled. */
  method RescaleColumn(rows: seq<Sample>, d: nat, lo: real, hi: real) returns (rows': seq<Sample>)
    requires forall i :: 0 <= i < |rows| ==> d < |rows[i].features|
    ensures |rows'| == |rows|
    ensures forall i :: 0 <= i < |rows| ==>
              rows'[i] == Sample(rows[i].features[d := Scale(rows[i].features[d], lo, hi)], rows[i].cls)
  {
    rows' := rows;
    if hi == lo {
      for i := 0 to |rows|
        invariant |rows'| == |rows|
        invariant forall j :: i <= j < |rows| ==> rows'[j] == rows[j]
        invariant forall j :: 0 <= j < i ==>
                    rows'[j] == Sample(rows[j].features[d := Scale(rows[j].features[d], lo, hi)], rows[j].cls)
      {
        rows' := rows'[i := Sample(rows'[i].features[d := 0.0], rows'[i].cls)];
      }
    } else {
      for i := 0 to |rows|
        invariant |rows'| == |rows|
        invariant forall j :: i <= j < |rows| ==> rows'[j] == rows[j]
        invariant forall j :: 0 <= j < i ==>
                    rows'[j] == Sample(rows[j].features[d := Scale(rows[j].features[d], lo, hi)], rows[j].cls)
      {
        rows' := rows'[i := Sample(rows'[i].features[d := (rows'[i].features[d] - lo) / (hi - lo)], rows'[i].cls)];
      }
    }
  }

  /**
   * `Normalize`: column by column, find the bounds over both tables, then
   * rewrite that column in both.  Rows, their order and their labels stay.
   */
  method NormalizeTables(train: seq<Sample>, test: seq<Sample>, w: nat, start: Start)
    returns (train': seq<Sample>, test': seq<Sample>)
    requires Tables(train, test, w)
    ensures Normalized(train, test, w, start, train, train', w)
    ensures Normalized(train, test, w, start, test, test', w)
  {
    train', test' := train, test;
    for d := 0 to w
      invariant Normalized(train, test, w, start, train, train', d)
      invariant Normalized(train, test, w, start, test, test', d)
    {
      var lo, hi := ColumnBoundsOf(train, test, w, d, start, train', test');
      train' := RescaleColumn(train', d, lo, hi);
      test' := RescaleColumn(test', d, lo, hi);
    }
  }

  /**
   * The bounds of column `d` read from the partly normalised tables: the
   * column itself is still untouched, so they are those of the input.
   */
  method ColumnBoundsOf(train: seq<Sample>, test: seq<Sample>, w: nat, d: nat, start: Start,
                        curTrain: seq<Sample>, curTest: seq<Sample>) returns (lo: real, hi: real)
    requires Tables(train, test, w) && d < w
    requires Normalized(train, test, w, start, train, curTrain, d)
    requires Normalized(train, test, w, start, test, curTest, d)
    ensures lo == Lo(train, test, w, d, start) && hi == Hi(train, test, w, d, start)
  {
    assert Tables(curTrain, curTest, w);
    assert Column(curTrain, d) == Column(train, d);
    assert Column(curTest, d) == Column(test, d);
    assert curTrain[0].features[d] == train[0].features[d];
    lo, hi := ColumnBounds(curTrain, curTest, w, d, start);
  }

  /**
   * `ReadTrainingAndTestingSet` of the main program and of the proposed
   * method, after the two files are parsed: the number of classes is
   * counted on the training table and every feature column normalised
   * with the running maximum starting at 0 and the minimum at `FLT_MAX`.
   */
  method ReadTrainingAndTestingSet(train: seq<Sample>, test: seq<Sample>, w: nat)
    returns (nClasses: nat, train': seq<Sample>, test': seq<Sample>)
    requires Tables(train, test, w)
    ensures nClasses == |LabelSet(train)|
    ensures Normalized(train, test, w, FromZeroAndFltMax, train, train', w)
    ensures Normalized(train, test, w, FromZeroAndFltMax, test, test', w)
  {
    nClasses := GetNumClasses(train);
    train', test' := NormalizeTables(train, test, w, FromZeroAndFltMax);
  }
}
