/**
 * Rows of a data set, class counting, masks and the order-preserving
 * compaction that every resampler ends with.
 *
 * A row of the original program is a vector of floats whose last entry is
 * the class label.  Here a row keeps its features and its class label
 * (`cls`) apart; labels run from 1 to the number of classes.
 */
module Samples {

  datatype Option<T> = None | Some(value: T)

  datatype Sample = Sample(features: seq<real>, cls: nat)

  /** Every class label lies in 1..n. */
  ghost predicate LabelsIn(rows: seq<Sample>, n: nat)
  {
    forall i :: 0 <= i < |rows| ==> 1 <= rows[i].cls <= n
  }

  /** Every row has `d` features. */
  ghost predicate Width(rows: seq<Sample>, d: nat)
  {
    forall i :: 0 <= i < |rows| ==> |rows[i].features| == d
  }

  /** Number of rows labelled `c`. */
  function CountLabel(rows: seq<Sample>, c: nat): nat
  {
    if rows == [] then 0
    else CountLabel(rows[..|rows| - 1], c) + (if rows[|rows| - 1].cls == c then 1 else 0)
  }

  /** The class-count vector of a table: entry `c` is the number of rows labelled `c`. */
  function ClassCounts(rows: seq<Sample>, n: nat): (counts: seq<nat>)
    ensures |counts| == n + 1
    ensures forall c :: 0 <= c <= n ==> counts[c] == CountLabel(rows, c)
  {
    seq(n + 1, c requires 0 <= c => CountLabel(rows, c))
  }

  /** The product of two non-negative reals is non-negative. */
  lemma NonNegativeProduct(a: real, b: real)
    requires a >= 0.0 && b >= 0.0
    ensures a * b >= 0.0
  {
  }

  /** The product of two positive reals is positive. */
  lemma PositiveProduct(a: real, b: real)
    requires a > 0.0 && b > 0.0
    ensures a * b > 0.0
  {
  }

  /** Sum of `s[lo..hi]`. */
  function Sum(s: seq<nat>, lo: nat, hi: nat): nat
    requires lo <= hi <= |s|
    decreases hi - lo
  {
    if lo == hi then 0 else s[lo] + Sum(s, lo + 1, hi)
  }

  lemma {:induction false} CountLabelAppend(a: seq<Sample>, b: seq<Sample>, c: nat)
    ensures CountLabel(a + b, c) == CountLabel(a, c) + CountLabel(b, c)
    decreases |b|
  {
    if b == [] {
      assert a + b == a;
    } else {
      var b' := b[..|b| - 1];
      assert (a + b)[..|a + b| - 1] == a + b';
      CountLabelAppend(a, b', c);
    }
  }

  lemma CountLabelOne(x: Sample, c: nat)
    ensures CountLabel([x], c) == if x.cls == c then 1 else 0
  {
    assert [x][..0] == [];
  }

  lemma {:induction false} CountLabelBounds(rows: seq<Sample>, c: nat)
    ensures CountLabel(rows, c) <= |rows|
    ensures CountLabel(rows, c) == |rows| <==> forall i :: 0 <= i < |rows| ==> rows[i].cls == c
    ensures CountLabel(rows, c) == 0 <==> forall i :: 0 <= i < |rows| ==> rows[i].cls != c
  {
    if rows != [] {
      var k := |rows| - 1;
      CountLabelBounds(rows[..k], c);
      assert forall i :: 0 <= i < k ==> rows[..k][i] == rows[i];
    }
  }

  /** Taking the first row of `a` and a matching row of `b` out of two equal multisets leaves equal multisets. */
  lemma MultisetRemoveOne(a: seq<Sample>, b: seq<Sample>, k: nat)
    requires multiset(a) == multiset(b) && a != [] && k < |b| && b[k] == a[0]
    ensures multiset(a[1..]) == multiset(b[..k] + b[k + 1..])
  {
    var x := a[0];
    assert b == b[..k] + [x] + b[k + 1..];
    assert a == [x] + a[1..];
    assert multiset(a) == multiset{x} + multiset(a[1..]);
    assert multiset(b) == multiset(b[..k]) + multiset{x} + multiset(b[k + 1..]);
    assert multiset(b[..k] + b[k + 1..]) == multiset(b[..k]) + multiset(b[k + 1..]);
    assert multiset(a[1..]) == multiset(a) - multiset{x};
    assert multiset(b[..k] + b[k + 1..]) == multiset(b) - multiset{x};
  }

  /** Taking row `k` out lowers the count of its label by one. */
  lemma CountLabelRemoveOne(b: seq<Sample>, k: nat, c: nat)
    requires k < |b|
    ensures CountLabel(b, c) == CountLabel(b[..k] + b[k + 1..], c) + CountLabel([b[k]], c)
  {
    assert b == b[..k] + [b[k]] + b[k + 1..];
    CountLabelAppend(b[..k] + [b[k]], b[k + 1..], c);
    CountLabelAppend(b[..k], [b[k]], c);
    CountLabelAppend(b[..k], b[k + 1..], c);
  }

  /** Counting is unchanged by any reordering of the rows. */
  lemma {:induction false} CountLabelPermutation(a: seq<Sample>, b: seq<Sample>, c: nat)
    requires multiset(a) == multiset(b)
    ensures CountLabel(a, c) == CountLabel(b, c)
    decreases |a|
  {
    if a == [] {
      assert |b| == |multiset(b)| == 0;
    } else {
      var x := a[0];
      assert x in multiset(b);
      var k :| 0 <= k < |b| && b[k] == x;
      var b' := b[..k] + b[k + 1..];
      MultisetRemoveOne(a, b, k);
      CountLabelPermutation(a[1..], b', c);
      CountLabelRemoveOne(b, k, c);
      assert a == [x] + a[1..];
      CountLabelAppend([x], a[1..], c);
    }
  }

  lemma {:induction false} SumSplitLast(s: seq<nat>, lo: nat, hi: nat)
    requires lo < hi <= |s|
    ensures Sum(s, lo, hi) == Sum(s, lo, hi - 1) + s[hi - 1]
    decreases hi - lo
  {
    if lo + 1 < hi {
      SumSplitLast(s, lo + 1, hi);
    }
  }

  lemma {:induction false} SumZero(s: seq<nat>, lo: nat, hi: nat)
    requires lo <= hi <= |s|
    requires forall k :: lo <= k < hi ==> s[k] == 0
    ensures Sum(s, lo, hi) == 0
    decreases hi - lo
  {
    if lo < hi {
      SumZero(s, lo + 1, hi);
    }
  }

  /** Two count vectors that differ by one in entry `c`. */
  lemma {:induction false} SumShift(s: seq<nat>, t: seq<nat>, lo: nat, hi: nat, c: nat)
    requires lo <= hi <= |s| == |t|
    requires forall k :: 0 <= k < |s| && k != c ==> t[k] == s[k]
    requires c < |s| ==> t[c] == s[c] + 1
    ensures Sum(t, lo, hi) == Sum(s, lo, hi) + (if lo <= c < hi then 1 else 0)
    decreases hi - lo
  {
    if lo < hi {
      SumShift(s, t, lo + 1, hi, c);
    }
  }

  /**
   * When every label is in 1..n the class counts 1..n add up to the number
   * of rows.
   */
  lemma {:induction false} CountsAddUp(rows: seq<Sample>, n: nat)
    requires LabelsIn(rows, n)
    ensures Sum(ClassCounts(rows, n), 1, n + 1) == |rows|
  {
    if rows == [] {
      SumZero(ClassCounts(rows, n), 1, n + 1);
    } else {
      var r := rows[..|rows| - 1];
      CountsAddUp(r, n);
      SumShift(ClassCounts(r, n), ClassCounts(rows, n), 1, n + 1, rows[|rows| - 1].cls);
    }
  }

  /**
   * Counting loop shared by the several `CalculateClassCounts` of the
   * program: one pass over the rows, incrementing the entry of each label.
   */
  method TallyLabels(rows: seq<Sample>, n: nat) returns (counts: seq<nat>)
    requires forall i :: 0 <= i < |rows| ==> rows[i].cls <= n
    ensures counts == ClassCounts(rows, n)
  {
    var a := new nat[n + 1](_ => 0);
    var i := 0;
    while i < |rows|
      invariant 0 <= i <= |rows|
      invariant a.Length == n + 1
      invariant forall c :: 0 <= c <= n ==> a[c] == CountLabel(rows[..i], c)
    {
      var l := rows[i].cls;
      assert rows[..i + 1][..i] == rows[..i];
      a[l] := a[l] + 1;
      i := i + 1;
    }
    assert rows[..|rows|] == rows;
    counts := a[..];
  }

  // ---------------------------------------------------------------------
  // Masks: a boolean per row, and the rows (or row positions) they select.
  // ---------------------------------------------------------------------

  /** The rows whose mask entry is true, in their original order. */
  function Keep<T>(rows: seq<T>, mask: seq<bool>): seq<T>
    requires |mask| == |rows|
  {
    if rows == [] then []
    else Keep(rows[..|rows| - 1], mask[..|rows| - 1]) + (if mask[|rows| - 1] then [rows[|rows| - 1]] else [])
  }

  /** The positions whose mask entry is true, ascending. */
  function Members(mask: seq<bool>): seq<nat>
  {
    if mask == [] then []
    else Members(mask[..|mask| - 1]) + (if mask[|mask| - 1] then [|mask| - 1] else [])
  }

  /** Number of true entries. */
  function Trues(mask: seq<bool>): nat
  {
    if mask == [] then 0 else Trues(mask[..|mask| - 1]) + (if mask[|mask| - 1] then 1 else 0)
  }

  /** A mask with no true entry counts none. */
  lemma {:induction false} TruesNone(mask: seq<bool>)
    requires forall i :: 0 <= i < |mask| ==> !mask[i]
    ensures Trues(mask) == 0
  {
    if mask != [] {
      TruesNone(mask[..|mask| - 1]);
    }
  }

  ghost predicate StrictlyIncreasing(s: seq<nat>)
  {
    forall i, j :: 0 <= i < j < |s| ==> s[i] < s[j]
  }

  /**
   * `Keep` is the order-preserving selection: it lists exactly the rows at
   * the positions `Members(mask)`, which ascend and are exactly the marked
   * positions.
   */
  lemma KeepIsSelection<T>(rows: seq<T>, mask: seq<bool>)
    requires |mask| == |rows|
    ensures |Keep(rows, mask)| == |Members(mask)| == Trues(mask)
    ensures StrictlyIncreasing(Members(mask))
    ensures forall j :: 0 <= j < |Members(mask)| ==> Members(mask)[j] < |rows| && mask[Members(mask)[j]]
    ensures forall i :: 0 <= i < |rows| && mask[i] ==> i in Members(mask)
    ensures forall j :: 0 <= j < |Members(mask)| ==> Keep(rows, mask)[j] == rows[Members(mask)[j]]
  {
    MembersMarked(mask);
    MembersIncreasing(mask);
    KeepAtMembers(rows, mask);
  }

  /** `Members` lists exactly the marked positions, as many as there are trues. */
  lemma {:induction false} MembersMarked(mask: seq<bool>)
    ensures |Members(mask)| == Trues(mask)
    ensures forall j :: 0 <= j < |Members(mask)| ==> Members(mask)[j] < |mask| && mask[Members(mask)[j]]
    ensures forall i :: 0 <= i < |mask| && mask[i] ==> i in Members(mask)
  {
    if mask != [] {
      var k := |mask| - 1;
      var M, M' := Members(mask), Members(mask[..k]);
      MembersMarked(mask[..k]);
      assert M == M' + (if mask[k] then [k] else []);
      forall j | 0 <= j < |M| ensures M[j] < |mask| && mask[M[j]] {
        if j < |M'| {
          assert M[j] == M'[j] && mask[..k][M'[j]];
        }
      }
      forall i | 0 <= i < |mask| && mask[i] ensures i in M {
        if i < k {
          assert mask[..k][i];
          assert i in M';
        }
      }
    }
  }

  lemma {:induction false} MembersIncreasing(mask: seq<bool>)
    ensures StrictlyIncreasing(Members(mask))
  {
    if mask != [] {
      var k := |mask| - 1;
      var M, M' := Members(mask), Members(mask[..k]);
      MembersIncreasing(mask[..k]);
      MembersMarked(mask[..k]);
      assert M == M' + (if mask[k] then [k] else []);
      forall i, j | 0 <= i < j < |M| ensures M[i] < M[j] {
        if j < |M'| {
          assert M[i] == M'[i] && M[j] == M'[j];
        } else {
          assert M[i] == M'[i] < k;
        }
      }
    }
  }

  lemma {:induction false} KeepAtMembers<T>(rows: seq<T>, mask: seq<bool>)
    requires |mask| == |rows|
    ensures |Keep(rows, mask)| == |Members(mask)|
    ensures forall j :: 0 <= j < |Members(mask)| ==> Members(mask)[j] < |rows|
    ensures forall j :: 0 <= j < |Members(mask)| ==> Keep(rows, mask)[j] == rows[Members(mask)[j]]
  {
    MembersMarked(mask);
    if rows != [] {
      var k := |rows| - 1;
      var M, M' := Members(mask), Members(mask[..k]);
      var K, K' := Keep(rows, mask), Keep(rows[..k], mask[..k]);
      KeepAtMembers(rows[..k], mask[..k]);
      assert M == M' + (if mask[k] then [k] else []);
      assert K == K' + (if mask[k] then [rows[k]] else []);
      forall j | 0 <= j < |M| ensures K[j] == rows[M[j]] {
        if j < |M'| {
          assert K[j] == K'[j] == rows[..k][M'[j]];
        }
      }
    }
  }

  lemma {:induction false} KeepAppend<T>(a: seq<T>, b: seq<T>, ma: seq<bool>, mb: seq<bool>)
    requires |ma| == |a| && |mb| == |b|
    ensures Keep(a + b, ma + mb) == Keep(a, ma) + Keep(b, mb)
    decreases |b|
  {
    if b == [] {
      assert a + b == a && ma + mb == ma;
    } else {
      var k := |b| - 1;
      assert (a + b)[..|a + b| - 1] == a + b[..k];
      assert (ma + mb)[..|ma + mb| - 1] == ma + mb[..k];
      KeepAppend(a, b[..k], ma, mb[..k]);
    }
  }

  lemma KeepFront<T>(x: T, b: bool, rows: seq<T>, mask: seq<bool>)
    requires |mask| == |rows|
    ensures Keep([x] + rows, [b] + mask) == (if b then [x] else []) + Keep(rows, mask)
  {
    KeepAppend([x], rows, [b], mask);
    assert [x][..0] == [] && [b][..0] == [];
  }

  /** Keeping every row keeps the table. */
  lemma {:induction false} KeepAll<T>(rows: seq<T>, mask: seq<bool>)
    requires |mask| == |rows|
    requires forall i :: 0 <= i < |mask| ==> mask[i]
    ensures Keep(rows, mask) == rows
  {
    if rows != [] {
      var k := |rows| - 1;
      KeepAll(rows[..k], mask[..k]);
    }
  }

  /** Class counts of a compaction: marked rows of each label. */
  function CountMarked(rows: seq<Sample>, mask: seq<bool>, c: nat): nat
    requires |mask| == |rows|
  {
    if rows == [] then 0
    else CountMarked(rows[..|rows| - 1], mask[..|rows| - 1], c)
         + (if mask[|rows| - 1] && rows[|rows| - 1].cls == c then 1 else 0)
  }

  lemma {:induction false} CountKeep(rows: seq<Sample>, mask: seq<bool>, c: nat)
    requires |mask| == |rows|
    ensures CountLabel(Keep(rows, mask), c) == CountMarked(rows, mask, c)
  {
    if rows != [] {
      var k := |rows| - 1;
      CountKeep(rows[..k], mask[..k], c);
      var tail := if mask[k] then [rows[k]] else [];
      CountLabelAppend(Keep(rows[..k], mask[..k]), tail, c);
      if mask[k] {
        CountLabelOne(rows[k], c);
      }
    }
  }

  /** Setting one more mask entry adds one to the count of that row's label only. */
  lemma {:induction false} CountMarkedSet(rows: seq<Sample>, mask: seq<bool>, i: nat, c: nat)
    requires |mask| == |rows| && i < |rows| && !mask[i]
    ensures CountMarked(rows, mask[i := true], c)
            == CountMarked(rows, mask, c) + (if rows[i].cls == c then 1 else 0)
  {
    var k := |rows| - 1;
    if i == k {
      assert mask[i := true][..k] == mask[..k];
    } else {
      assert mask[i := true][..k] == mask[..k][i := true];
      CountMarkedSet(rows[..k], mask[..k], i, c);
    }
  }

  /** Counting over one more row of a prefix. */
  lemma CountMarkedSnoc(rows: seq<Sample>, mask: seq<bool>, i: nat, c: nat)
    requires |mask| == |rows| && i < |rows|
    ensures CountMarked(rows[..i + 1], mask[..i + 1], c)
            == CountMarked(rows[..i], mask[..i], c) + (if mask[i] && rows[i].cls == c then 1 else 0)
  {
    assert rows[..i + 1][..i] == rows[..i];
    assert mask[..i + 1][..i] == mask[..i];
  }

  lemma {:induction false} CountMarkedNone(rows: seq<Sample>, mask: seq<bool>, c: nat)
    requires |mask| == |rows|
    requires forall i :: 0 <= i < |mask| ==> !mask[i]
    ensures CountMarked(rows, mask, c) == 0
  {
    if rows != [] {
      CountMarkedNone(rows[..|rows| - 1], mask[..|rows| - 1], c);
    }
  }

  /** A mask that marks every row of class `c` keeps all of them. */
  lemma {:induction false} CountMarkedAll(rows: seq<Sample>, mask: seq<bool>, c: nat)
    requires |mask| == |rows|
    requires forall i :: 0 <= i < |rows| && rows[i].cls == c ==> mask[i]
    ensures CountMarked(rows, mask, c) == CountLabel(rows, c)
  {
    if rows != [] {
      CountMarkedAll(rows[..|rows| - 1], mask[..|rows| - 1], c);
    }
  }

  /** A mask that marks no row of class `c` keeps none of them. */
  lemma {:induction false} CountMarkedExcluded(rows: seq<Sample>, mask: seq<bool>, c: nat)
    requires |mask| == |rows|
    requires forall i :: 0 <= i < |rows| && rows[i].cls == c ==> !mask[i]
    ensures CountMarked(rows, mask, c) == 0
  {
    if rows != [] {
      CountMarkedExcluded(rows[..|rows| - 1], mask[..|rows| - 1], c);
    }
  }

  /**
   * Erasure of the unmarked rows, back to front, one `erase` at a time: the
   * loop every resampler ends with.  The survivors are the marked rows in
   * their original order.
   */
  method EraseUnmarked<T>(rows: seq<T>, keep: seq<bool>) returns (kept: seq<T>)
    requires |keep| == |rows|
    ensures kept == Keep(rows, keep)
  {
    kept := rows;
    var i := |rows|;
    KeepIsSelection(rows[|rows|..], keep[|rows|..]);
    while i > 0
      invariant 0 <= i <= |rows|
      invariant kept == rows[..i] + Keep(rows[i..], keep[i..])
    {
      i := i - 1;
      assert rows[i..] == [rows[i]] + rows[i + 1..];
      assert keep[i..] == [keep[i]] + keep[i + 1..];
      KeepFront(rows[i], keep[i], rows[i + 1..], keep[i + 1..]);
      assert kept[..i] == rows[..i];
      if !keep[i] {
        kept := kept[..i] + kept[i + 1..];
      } else {
        assert rows[..i + 1] == rows[..i] + [rows[i]];
      }
    }
  }

  // ---------------------------------------------------------------------
  // Distances between feature vectors.
  // ---------------------------------------------------------------------

  /**
   * What the model asks of a distance: non-negative, symmetric and zero
   * between a vector and itself.
   */
  ghost predicate IsDistance(dist: (seq<real>, seq<real>) -> real)
  {
    forall a, b :: dist(a, b) >= 0.0 && dist(a, b) == dist(b, a) && dist(a, a) == 0.0
  }

  /** Sum of squared coordinate differences over the common prefix. */
  function SquareDistance(a: seq<real>, b: seq<real>): real
    decreases |a|
  {
    if |a| == 0 || |b| == 0 then 0.0
    else (a[0] - b[0]) * (a[0] - b[0]) + SquareDistance(a[1..], b[1..])
  }

  lemma {:induction false} SquareDistanceProperties(a: seq<real>, b: seq<real>)
    ensures SquareDistance(a, b) >= 0.0
    ensures SquareDistance(a, b) == SquareDistance(b, a)
    ensures SquareDistance(a, a) == 0.0
    decreases |a|
  {
    if |a| > 0 && |b| > 0 {
      SquareDistanceProperties(a[1..], b[1..]);
    }
    if |a| > 0 {
      SquareDistanceProperties(a[1..], a[1..]);
    }
  }

  /**
   * The sum of squared differences the program computes (before its final
   * square root) is a distance in the sense above.
   */
  lemma SquareDistanceIsDistance()
    ensures IsDistance((a, b) => SquareDistance(a, b))
  {
    forall a, b
      ensures SquareDistance(a, b) >= 0.0 && SquareDistance(a, b) == SquareDistance(b, a)
              && SquareDistance(a, a) == 0.0
    {
      SquareDistanceProperties(a, b);
    }
  }

  /** `FLT_MAX`, the largest finite single-precision float. */
  const FLT_MAX: real := 340282346638528859811704183484516925440.0

  /** `UINT32_MAX`. */
  const UINT32_MAX: nat := 0xFFFF_FFFF
}
