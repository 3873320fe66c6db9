/**
 * The `Dataset` record of the decision-tree programs (dimension, number of
 * classes, label column, class counts of the training and testing tables,
 * and the tables themselves) and the routines of the ENN program's file
 * operations that fill it in: `GetDatasetInfo` and `Normalize`.
 *
 * A row's label is the `cls` field of a `Sample`, so the "label column" is
 * the position just after its features.
 */
module DatasetInfo {
  import opened Samples
  import FileOps

  /** Every label is a valid index into a count vector of `n + 1` entries. */
  ghost predicate LabelsAtMost(rows: seq<Sample>, n: nat)
  {
    forall i :: 0 <= i < |rows| ==> rows[i].cls <= n
  }

  /** A count vector of `len` zeros, as `calloc` returns it. */
  function Zeros(len: nat): (z: seq<nat>)
    ensures |z| == len && forall c :: 0 <= c < len ==> z[c] == 0
  {
    seq(len, _ => 0)
  }

  /** A count vector after one increment per row: `base` plus the class counts. */
  function Tallied(base: seq<nat>, rows: seq<Sample>): (counts: seq<nat>)
    ensures |counts| == |base|
  {
    seq(|base|, c requires 0 <= c < |base| => base[c] + CountLabel(rows, c))
  }

  /** The counting loop: one increment of the entry of each row's label. */
  method TallyOnto(base: seq<nat>, rows: seq<Sample>) returns (counts: seq<nat>)
    requires base != [] && LabelsAtMost(rows, |base| - 1)
    ensures counts == Tallied(base, rows)
  {
    counts := base;
    for i := 0 to |rows|
      invariant counts == Tallied(base, rows[..i])
    {
      assert rows[..i + 1][..i] == rows[..i];
      var l := rows[i].cls;
      counts := counts[l := counts[l] + 1];
    }
    assert rows[..|rows|] == rows;
  }

  /** Counting onto zeros gives the class counts. */
  lemma TalliedZeros(rows: seq<Sample>, n: nat)
    ensures Tallied(Zeros(n + 1), rows) == ClassCounts(rows, n)
  {
  }

  // ---------------------------------------------------------------------
  // The count reset of the update path.
  // ---------------------------------------------------------------------

  /** 256 to the power `b`. */
  function Pow256(b: nat): (p: nat)
    ensures p >= 1
  {
    if b == 0 then 1 else 256 * Pow256(b - 1)
  }

  /**
   * A `memset` of the first `bytes` bytes of a vector of 8-byte
   * little-endian counts: entries wholly inside are zeroed, the entry the
   * boundary falls in loses its low bytes, later entries are untouched.
   */
  function ClearBytes(counts: seq<nat>, bytes: nat): (cleared: seq<nat>)
    ensures |cleared| == |counts|
  {
    seq(|counts|, e requires 0 <= e < |counts| =>
      if 8 * e + 8 <= bytes then 0
      else if bytes <= 8 * e then counts[e]
      else ClearLow(counts[e], Pow256(bytes - 8 * e)))
  }

  /** A value with its low digits in base `p` cleared. */
  function ClearLow(v: nat, p: nat): nat
    requires p >= 1
  {
    (v / p) * p
  }

  /**
   * The reset as written: the byte count is `num_classes + 1 * sizeof(size_t)`,
   * i.e. `num_classes + 8` bytes, not `(num_classes + 1) * 8`.
   */
  function ResetAsWritten(counts: seq<nat>, n: nat): seq<nat>
  {
    ClearBytes(counts, n + 8)
  }

  /** The reset as intended: every one of the `n + 1` entries is zeroed. */
  function ResetIntended(counts: seq<nat>, n: nat): seq<nat>
  {
    ClearBytes(counts, (n + 1) * 8)
  }

  /** The intended reset zeroes the whole vector, so recounting gives the class counts. */
  lemma ResetIntendedRecounts(counts: seq<nat>, rows: seq<Sample>, n: nat)
    requires |counts| == n + 1
    ensures ResetIntended(counts, n) == Zeros(n + 1)
    ensures Tallied(ResetIntended(counts, n), rows) == ClassCounts(rows, n)
  {
    assert ResetIntended(counts, n) == Zeros(n + 1);
  }

  /**
   * With two or more classes the reset as written leaves the count of the
   * last class untouched, so the recount adds onto a stale value.
   */
  lemma ResetAsWrittenKeepsLastCount(counts: seq<nat>, rows: seq<Sample>, n: nat)
    requires |counts| == n + 1 && n >= 2
    ensures ResetAsWritten(counts, n)[n] == counts[n]
    ensures Tallied(ResetAsWritten(counts, n), rows)[n] == counts[n] + CountLabel(rows, n)
  {
  }

  /**
   * A concrete case: two classes with old counts 5 and 7, and a new table
   * with one row of class 1 and three of class 2.  The recount as written
   * gives 1 and 10; the class counts are 1 and 3.
   */
  lemma ResetAsWrittenCounterexample()
    ensures var rows := [Sample([], 1), Sample([], 2), Sample([], 2), Sample([], 2)];
            && Tallied(ResetAsWritten([0, 5, 7], 2), rows) == [0, 1, 10]
            && ClassCounts(rows, 2) == [0, 1, 3]
  {
    var r1 := [Sample([], 1)];
    var r2 := r1 + [Sample([], 2)];
    var r3 := r2 + [Sample([], 2)];
    var rows := r3 + [Sample([], 2)];
    assert rows[..3] == r3 && r3[..2] == r2 && r2[..1] == r1 && r1[..0] == [];
    assert CountLabel(r1, 0) == 0 && CountLabel(r1, 1) == 1 && CountLabel(r1, 2) == 0;
    assert CountLabel(r2, 0) == 0 && CountLabel(r2, 1) == 1 && CountLabel(r2, 2) == 1;
    assert CountLabel(r3, 0) == 0 && CountLabel(r3, 1) == 1 && CountLabel(r3, 2) == 2;
    assert CountLabel(rows, 0) == 0 && CountLabel(rows, 1) == 1 && CountLabel(rows, 2) == 3;
    assert rows == [Sample([], 1), Sample([], 2), Sample([], 2), Sample([], 2)];
    var reset := ResetAsWritten([0, 5, 7], 2);
    assert reset[0] == 0 && reset[1] == 0 && reset[2] == 7;
    var t := Tallied(reset, rows);
    assert t[0] == 0 && t[1] == 1 && t[2] == 10;
    assert t == [0, 1, 10];
    var cc := ClassCounts(rows, 2);
    assert cc[0] == 0 && cc[1] == 1 && cc[2] == 3;
    assert cc == [0, 1, 3];
  }

  // ---------------------------------------------------------------------
  // The record.
  // ---------------------------------------------------------------------

  class Dataset {
    var dimension: nat
    var numClasses: nat
    var labelIndex: nat
    var trainingCounts: seq<nat>
    var testingCounts: seq<nat>
    var training: seq<Sample>
    var testing: seq<Sample>

    /** The tables as read from the files, nothing derived yet. */
    constructor (training: seq<Sample>, testing: seq<Sample>)
      ensures this.training == training && this.testing == testing
      ensures dimension == 0 && numClasses == 0 && labelIndex == 0
      ensures trainingCounts == [] && testingCounts == []
    {
      this.training := training;
      this.testing := testing;
      dimension, numClasses, labelIndex := 0, 0, 0;
      trainingCounts, testingCounts := [], [];
    }

    /** The number of classes `GetDatasetInfo` will find: the distinct training labels. */
    ghost function DistinctLabels(): nat
      reads this
    {
      |FileOps.LabelSet(training)|
    }

    /**
     * `GetDatasetInfo`.  The first rows of the two tables must have the
     * same width, otherwise the program stops (`ok` is false and nothing
     * changes).  Then the dimension and label column are set; without
     * `update` the number of classes is the number of distinct training
     * labels, with `update` it is kept and only the counts are redone.  The
     * training counts are reset in full (see `ResetAsWritten` for the reset
     * the source performs) and both count vectors are recomputed.
     */
    method GetDatasetInfo(update: bool) returns (ok: bool)
      requires training != [] && testing != []
      requires update ==> LabelsAtMost(training, numClasses) && LabelsAtMost(testing, numClasses)
      requires !update ==> LabelsAtMost(training, DistinctLabels()) && LabelsAtMost(testing, DistinctLabels())
      modifies this
      ensures training == old(training) && testing == old(testing)
      ensures ok <==> |training[0].features| == |testing[0].features|
      ensures !ok ==> unchanged(this)
      ensures ok ==> dimension == labelIndex == |training[0].features|
      ensures ok ==> numClasses == if update then old(numClasses) else old(DistinctLabels())
      ensures ok ==> trainingCounts == ClassCounts(training, numClasses)
      ensures ok ==> testingCounts == ClassCounts(testing, numClasses)
    {
      if |training[0].features| != |testing[0].features| {
        return false;
      }
      ok := true;
      dimension := |training[0].features|;
      labelIndex := |training[0].features|;
      if !update {
        numClasses := FileOps.GetNumClasses(training);
        trainingCounts := Zeros(numClasses + 1);
      } else {
        ResetIntendedRecounts(Zeros(numClasses + 1), training, numClasses);
        trainingCounts := ResetIntended(Zeros(numClasses + 1), numClasses);
      }
      trainingCounts := TallyOnto(trainingCounts, training);
      TalliedZeros(training, numClasses);
      testingCounts := TallyOnto(Zeros(numClasses + 1), testing);
      TalliedZeros(testing, numClasses);
    }

    /**
     * `Normalize`: min-max scaling of every feature column over both
     * tables, the running bounds starting from the first training row.
     */
    method Normalize()
      requires FileOps.Tables(training, testing, dimension)
      modifies this
      ensures dimension == old(dimension) && numClasses == old(numClasses) && labelIndex == old(labelIndex)
      ensures FileOps.Normalized(old(training), old(testing), dimension, FileOps.FromFirstRow,
                                 old(training), training, dimension)
      ensures FileOps.Normalized(old(training), old(testing), dimension, FileOps.FromFirstRow,
                                 old(testing), testing, dimension)
      ensures trainingCounts == old(trainingCounts) && testingCounts == old(testingCounts)
    {
      training, testing := FileOps.NormalizeTables(training, testing, dimension, FileOps.FromFirstRow);
    }
  }

  /**
   * A record the resamplers accept: at least one class, labels 1..n in
   * training and at most n in testing, training counts up to date, and
   * both tables of one width.
   */
  ghost predicate Consistent(ds: Dataset)
    reads ds
  {
    && ds.numClasses >= 1
    && FileOps.Tables(ds.training, ds.testing, ds.dimension) && ds.testing != []
    && LabelsIn(ds.training, ds.numClasses)
    && LabelsAtMost(ds.testing, ds.numClasses)
    && ds.trainingCounts == ClassCounts(ds.training, ds.numClasses)
  }

  /**
   * `ReadDataset` after the files are parsed: the counts are computed and
   * the features normalised.  `ok` is false when the two tables' widths
   * differ.
   */
  method LoadDataset(training: seq<Sample>, testing: seq<Sample>, w: nat) returns (ds: Dataset, ok: bool)
    requires FileOps.Tables(training, testing, w) && testing != []
    requires LabelsAtMost(training, |FileOps.LabelSet(training)|)
    requires LabelsAtMost(testing, |FileOps.LabelSet(training)|)
    ensures ok
    ensures ds.dimension == w && ds.numClasses == |FileOps.LabelSet(training)|
    ensures ds.trainingCounts == ClassCounts(training, ds.numClasses)
    ensures ds.testingCounts == ClassCounts(testing, ds.numClasses)
    ensures FileOps.Normalized(training, testing, w, FileOps.FromFirstRow, training, ds.training, w)
    ensures FileOps.Normalized(training, testing, w, FileOps.FromFirstRow, testing, ds.testing, w)
  {
    ds := new Dataset(training, testing);
    ok := ds.GetDatasetInfo(false);
    ds.Normalize();
  }
}
