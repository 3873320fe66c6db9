/**
 * Gini impurity of the two sides of a candidate split, as every decision
 * tree variant scores it.  A side is given by its class-count vector
 * (entry c = rows of class c, entry 0 unused) and its size.
 */
module Gini {
  import opened Samples

  /** Sum over classes 1..hi-1 of the squared class shares `(counts[c] / size)^2`. */
  function SquaredShares(counts: seq<nat>, size: nat, hi: nat): real
    requires size > 0 && hi <= |counts|
  {
    if hi <= 1 then 0.0
    else
      var p := counts[hi - 1] as real / size as real;
      SquaredShares(counts, size, hi - 1) + p * p
  }

  /**
   * Impurity of one side: 1 minus the squared class shares, or 1 for an
   * empty side (the value the program starts from and keeps when the side
   * is empty).
   */
  function Impurity(counts: seq<nat>, size: nat): real
  {
    if size == 0 then 1.0 else 1.0 - SquaredShares(counts, size, |counts|)
  }

  /** Impurity of the two sides weighted by their shares of the rows. */
  function WeightedGini(countsY: seq<nat>, sizeY: nat, countsN: seq<nat>, sizeN: nat): real
    requires sizeY + sizeN > 0
  {
    var total := (sizeY + sizeN) as real;
    sizeY as real / total * Impurity(countsY, sizeY) + sizeN as real / total * Impurity(countsN, sizeN)
  }

  lemma {:induction false} SquaredSharesNonNegative(counts: seq<nat>, size: nat, hi: nat)
    requires size > 0 && hi <= |counts|
    ensures SquaredShares(counts, size, hi) >= 0.0
  {
    if hi > 1 {
      SquaredSharesNonNegative(counts, size, hi - 1);
      var p := counts[hi - 1] as real / size as real;
      NonNegativeProduct(p, p);
    }
  }

  /** When the class counts add up to at most the size, so do the squared shares (as a share). */
  lemma {:induction false} SquaredSharesAtMostShare(counts: seq<nat>, size: nat, hi: nat)
    requires size > 0 && 1 <= hi <= |counts|
    requires Sum(counts, 1, hi) <= size
    ensures SquaredShares(counts, size, hi) <= Sum(counts, 1, hi) as real / size as real
  {
    if hi > 1 {
      SumSplitLast(counts, 1, hi);
      SquaredSharesAtMostShare(counts, size, hi - 1);
      ShareStep(SquaredShares(counts, size, hi - 1), Sum(counts, 1, hi - 1) as real,
                counts[hi - 1] as real, size as real);
    }
  }

  lemma ShareStep(acc: real, prefix: real, c: real, s: real)
    requires s > 0.0 && 0.0 <= c && prefix + c <= s && 0.0 <= prefix
    requires acc <= prefix / s
    ensures acc + (c / s) * (c / s) <= (prefix + c) / s
  {
    var p := c / s;
    ShareAtMostOne(c, s);
    ScaledAtMost(p, p);
    assert prefix / s + c / s == (prefix + c) / s;
  }

  lemma ShareAtMostOne(c: real, s: real)
    requires 0.0 <= c <= s && s > 0.0
    ensures 0.0 <= c / s <= 1.0
  {
    assert c / s * s == c;
  }

  /** Scaling by a factor of at most 1. */
  lemma ScaledAtMost(w: real, g: real)
    requires 0.0 <= w && g <= 1.0
    ensures w * g <= w
  {
    assert w - w * g == w * (1.0 - g);
    NonNegativeProduct(w, 1.0 - g);
  }

  lemma SharesAddUp(a: real, b: real)
    requires a >= 0.0 && b >= 0.0 && a + b > 0.0
    ensures a / (a + b) + b / (a + b) == 1.0
    ensures a / (a + b) >= 0.0 && b / (a + b) >= 0.0
  {
    var t := a + b;
    assert a / t * t == a;
    assert b / t * t == b;
    assert (a / t + b / t) * t == t;
  }

  /** A weighted average of values at most 1 is at most 1. */
  lemma AverageAtMostOne(wy: real, wn: real, gy: real, gn: real)
    requires wy >= 0.0 && wn >= 0.0 && wy + wn == 1.0
    requires gy <= 1.0 && gn <= 1.0
    ensures wy * gy + wn * gn <= 1.0
  {
    assert wy * (1.0 - gy) >= 0.0;
    assert wn * (1.0 - gn) >= 0.0;
  }

  /** A weighted average of non-negative values is non-negative. */
  lemma AverageNonNegative(wy: real, wn: real, gy: real, gn: real)
    requires wy >= 0.0 && wn >= 0.0 && gy >= 0.0 && gn >= 0.0
    ensures wy * gy + wn * gn >= 0.0
  {
    assert wy * gy >= 0.0;
    assert wn * gn >= 0.0;
  }

  /** An impurity never exceeds 1. */
  lemma ImpurityAtMostOne(counts: seq<nat>, size: nat)
    ensures Impurity(counts, size) <= 1.0
  {
    if size > 0 {
      SquaredSharesNonNegative(counts, size, |counts|);
    }
  }

  /** The impurity of a non-empty side whose class counts add up to its size is at least 0. */
  lemma ImpurityNonNegative(counts: seq<nat>, size: nat)
    requires |counts| >= 1
    requires size > 0 ==> Sum(counts, 1, |counts|) == size
    ensures Impurity(counts, size) >= 0.0
  {
    if size > 0 {
      SquaredSharesAtMostShare(counts, size, |counts|);
      assert Sum(counts, 1, |counts|) as real / size as real == 1.0;
    }
  }

  /**
   * A weighted Gini score never exceeds 1, and lies in [0, 1) when each
   * side's class counts add up to its size.
   */
  lemma WeightedGiniBounds(countsY: seq<nat>, sizeY: nat, countsN: seq<nat>, sizeN: nat)
    requires sizeY + sizeN > 0
    ensures WeightedGini(countsY, sizeY, countsN, sizeN) <= 1.0
    ensures |countsY| >= 1 && |countsN| >= 1
            && (sizeY > 0 ==> Sum(countsY, 1, |countsY|) == sizeY)
            && (sizeN > 0 ==> Sum(countsN, 1, |countsN|) == sizeN)
            ==> 0.0 <= WeightedGini(countsY, sizeY, countsN, sizeN) < 1.0
  {
    ImpurityAtMostOne(countsY, sizeY);
    ImpurityAtMostOne(countsN, sizeN);
    WeightedAverageBounds(countsY, sizeY, countsN, sizeN);
    if |countsY| >= 1 && |countsN| >= 1
       && (sizeY > 0 ==> Sum(countsY, 1, |countsY|) == sizeY)
       && (sizeN > 0 ==> Sum(countsN, 1, |countsN|) == sizeN)
    {
      ImpurityNonNegative(countsY, sizeY);
      ImpurityNonNegative(countsN, sizeN);
      WeightedGiniBelowOne(countsY, sizeY, countsN, sizeN);
    }
  }

  /** The strict upper bound of `WeightedGiniBounds`. */
  lemma WeightedGiniBelowOne(countsY: seq<nat>, sizeY: nat, countsN: seq<nat>, sizeN: nat)
    requires sizeY + sizeN > 0 && |countsY| >= 1 && |countsN| >= 1
    requires sizeY > 0 ==> Sum(countsY, 1, |countsY|) == sizeY
    requires sizeN > 0 ==> Sum(countsN, 1, |countsN|) == sizeN
    ensures WeightedGini(countsY, sizeY, countsN, sizeN) < 1.0
  {
    var gy, gn := Impurity(countsY, sizeY), Impurity(countsN, sizeN);
    ImpurityAtMostOne(countsY, sizeY);
    ImpurityAtMostOne(countsN, sizeN);
    if sizeY > 0 {
      ImpurityBelowOne(countsY, sizeY);
    }
    if sizeN > 0 {
      ImpurityBelowOne(countsN, sizeN);
    }
    WeightedBelowOne(sizeY, sizeN, gy, gn);
  }

  /** Weighting by the side sizes keeps the score below 1 when every non-empty side is below 1. */
  lemma WeightedBelowOne(sizeY: nat, sizeN: nat, gy: real, gn: real)
    requires sizeY + sizeN > 0 && gy <= 1.0 && gn <= 1.0
    requires sizeY > 0 ==> gy < 1.0
    requires sizeN > 0 ==> gn < 1.0
    ensures var t := (sizeY + sizeN) as real;
            sizeY as real / t * gy + sizeN as real / t * gn < 1.0
  {
    var t := (sizeY + sizeN) as real;
    SharesAddUp(sizeY as real, sizeN as real);
    var wy, wn := sizeY as real / t, sizeN as real / t;
    if sizeY > 0 {
      assert wy * t == sizeY as real;
    } else {
      assert wn * t == sizeN as real;
    }
    AverageBelowOne(wy, wn, gy, gn);
  }

  /** A weighted average of values at most 1 is below 1 when a value below 1 has positive weight. */
  lemma AverageBelowOne(wy: real, wn: real, gy: real, gn: real)
    requires wy >= 0.0 && wn >= 0.0 && wy + wn == 1.0
    requires gy <= 1.0 && gn <= 1.0
    requires (wy > 0.0 && gy < 1.0) || (wn > 0.0 && gn < 1.0)
    ensures wy * gy + wn * gn < 1.0
  {
    var hy, hn := 1.0 - gy, 1.0 - gn;
    Distribute(wy, gy, hy);
    Distribute(wn, gn, hn);
    NonNegativeProduct(wy, hy);
    NonNegativeProduct(wn, hn);
    if wy > 0.0 && gy < 1.0 {
      PositiveProduct(wy, hy);
    } else {
      PositiveProduct(wn, hn);
    }
    assert wy * hy + wn * hn > 0.0;
    assert wy * gy + wn * gn == wy + wn - (wy * hy + wn * hn);
  }

  /** `w * h == w - w * g` for `h == 1 - g`. */
  lemma Distribute(w: real, g: real, h: real)
    requires h == 1.0 - g
    ensures w * h == w - w * g
  {
  }

  /** Some class with a row gives a positive squared share. */
  lemma {:induction false} SquaredSharesPositive(counts: seq<nat>, size: nat, hi: nat)
    requires size > 0 && 1 <= hi <= |counts|
    requires Sum(counts, 1, hi) > 0
    ensures SquaredShares(counts, size, hi) > 0.0
  {
    SumSplitLast(counts, 1, hi);
    SquaredSharesNonNegative(counts, size, hi - 1);
    if counts[hi - 1] > 0 {
      var p := counts[hi - 1] as real / size as real;
      PositiveProduct(p, p);
    } else {
      SquaredSharesPositive(counts, size, hi - 1);
    }
  }

  /** A non-empty side whose class counts add up to its size has impurity below 1. */
  lemma ImpurityBelowOne(counts: seq<nat>, size: nat)
    requires |counts| >= 1 && size > 0
    requires Sum(counts, 1, |counts|) == size
    ensures Impurity(counts, size) < 1.0
  {
    SquaredSharesPositive(counts, size, |counts|);
  }

  /** The two side weights add up to 1, so the score is an average of the two impurities. */
  lemma WeightedAverageBounds(countsY: seq<nat>, sizeY: nat, countsN: seq<nat>, sizeN: nat)
    requires sizeY + sizeN > 0
    requires Impurity(countsY, sizeY) <= 1.0 && Impurity(countsN, sizeN) <= 1.0
    ensures WeightedGini(countsY, sizeY, countsN, sizeN) <= 1.0
    ensures Impurity(countsY, sizeY) >= 0.0 && Impurity(countsN, sizeN) >= 0.0
            ==> WeightedGini(countsY, sizeY, countsN, sizeN) >= 0.0
  {
    var t := (sizeY + sizeN) as real;
    SharesAddUp(sizeY as real, sizeN as real);
    var wy, wn := sizeY as real / t, sizeN as real / t;
    var gy, gn := Impurity(countsY, sizeY), Impurity(countsN, sizeN);
    AverageAtMostOne(wy, wn, gy, gn);
    if gy >= 0.0 && gn >= 0.0 {
      AverageNonNegative(wy, wn, gy, gn);
    }
  }

  /** A side holding a single class has impurity 0. */
  lemma {:induction false} PureSideHasZeroImpurity(counts: seq<nat>, size: nat, c: nat)
    requires 1 <= c < |counts| && size > 0
    requires counts[c] == size
    requires forall k :: 1 <= k < |counts| && k != c ==> counts[k] == 0
    ensures Impurity(counts, size) == 0.0
  {
    OnlyOneShare(counts, size, c, |counts|);
  }

  lemma {:induction false} OnlyOneShare(counts: seq<nat>, size: nat, c: nat, hi: nat)
    requires 1 <= c < |counts| && size > 0 && hi <= |counts|
    requires counts[c] == size
    requires forall k :: 1 <= k < |counts| && k != c ==> counts[k] == 0
    ensures SquaredShares(counts, size, hi) == if c < hi then 1.0 else 0.0
  {
    if hi > 1 {
      OnlyOneShare(counts, size, c, hi - 1);
      if hi - 1 == c {
        assert counts[hi - 1] as real / size as real == 1.0;
      } else {
        assert counts[hi - 1] as real / size as real == 0.0;
      }
    }
  }

  /**
   * A non-empty side whose class counts add up to its size has impurity 0
   * only when it holds a single class.
   */
  lemma ZeroImpurityIsPure(counts: seq<nat>, size: nat)
    requires |counts| >= 1 && size > 0
    requires Sum(counts, 1, |counts|) == size
    requires Impurity(counts, size) == 0.0
    ensures exists c :: 1 <= c < |counts| && counts[c] == size
                        && forall k :: 1 <= k < |counts| && k != c ==> counts[k] == 0
  {
    assert Sum(counts, 1, |counts|) as real / size as real == 1.0;
    SharesAllOrNothing(counts, size, |counts|);
    OneFullClass(counts, size, |counts|);
  }

  /**
   * The squared shares reach the summed shares only when every share is 0
   * or 1, since `p * p < p` for a share strictly between them.
   */
  lemma {:induction false} SharesAllOrNothing(counts: seq<nat>, size: nat, hi: nat)
    requires size > 0 && 1 <= hi <= |counts|
    requires Sum(counts, 1, hi) <= size
    requires SquaredShares(counts, size, hi) == Sum(counts, 1, hi) as real / size as real
    ensures forall k :: 1 <= k < hi ==> counts[k] == 0 || counts[k] == size
  {
    if hi > 1 {
      SumSplitLast(counts, 1, hi);
      SquaredSharesAtMostShare(counts, size, hi - 1);
      TightShareStep(SquaredShares(counts, size, hi - 1), Sum(counts, 1, hi - 1) as real,
                     counts[hi - 1] as real, size as real);
      SharesAllOrNothing(counts, size, hi - 1);
    }
  }

  /**
   * One step of `ShareStep` with equality: the accumulated squares equal the
   * accumulated shares, and the new count is 0 or the whole side.
   */
  lemma TightShareStep(acc: real, prefix: real, c: real, s: real)
    requires s > 0.0 && 0.0 <= c && prefix + c <= s && 0.0 <= prefix
    requires acc <= prefix / s
    requires acc + (c / s) * (c / s) == (prefix + c) / s
    ensures acc == prefix / s && (c == 0.0 || c == s)
  {
    var p := c / s;
    ShareAtMostOne(c, s);
    ScaledAtMost(p, p);
    assert prefix / s + p == (prefix + c) / s;
    assert p * p == p;
    FixedSquare(p);
    assert p * s == c;
  }

  /** The reals equal to their own square are 0 and 1. */
  lemma FixedSquare(p: real)
    requires p * p == p
    ensures p == 0.0 || p == 1.0
  {
    assert p * (p - 1.0) == 0.0;
  }

  /** Counts of 0 or `size` that add up to `size` hold exactly one class. */
  lemma {:induction false} OneFullClass(counts: seq<nat>, size: nat, hi: nat)
    requires size > 0 && 1 <= hi <= |counts|
    requires forall k :: 1 <= k < hi ==> counts[k] == 0 || counts[k] == size
    requires Sum(counts, 1, hi) == size
    ensures exists c :: 1 <= c < hi && counts[c] == size
                        && forall k :: 1 <= k < hi && k != c ==> counts[k] == 0
  {
    SumSplitLast(counts, 1, hi);
    if counts[hi - 1] == 0 {
      OneFullClass(counts, size, hi - 1);
      var c :| 1 <= c < hi - 1 && counts[c] == size
               && forall k :: 1 <= k < hi - 1 && k != c ==> counts[k] == 0;
      assert forall k :: 1 <= k < hi && k != c ==> counts[k] == 0;
    } else {
      SumNoneLeft(counts, hi - 1);
      assert forall k :: 1 <= k < hi && k != hi - 1 ==> counts[k] == 0;
    }
  }

  /** Counts that add up to 0 are all 0. */
  lemma {:induction false} SumNoneLeft(counts: seq<nat>, hi: nat)
    requires 1 <= hi <= |counts| && Sum(counts, 1, hi) == 0
    ensures forall k :: 1 <= k < hi ==> counts[k] == 0
  {
    if hi > 1 {
      SumSplitLast(counts, 1, hi);
      SumNoneLeft(counts, hi - 1);
    }
  }
}
