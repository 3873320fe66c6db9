/**
 * Loops and facts the tree variants share: the impurity accumulation
 * `gini -= ratio * ratio`, and the link between a row mask and the
 * partition (ascending row positions) it stands for.
 */
module TreeLoops {
  import opened Samples
  import opened Gini
  import opened TreeSpec

  /** `gini = 1; gini -= (counts[c] / size)^2` for every class c >= 1 of a non-empty side. */
  method SubtractSquaredShares(counts: seq<nat>, size: nat) returns (gini: real)
    requires size > 0 && |counts| >= 1
    ensures gini == Impurity(counts, size)
  {
    gini := 1.0;
    var c := 1;
    while c < |counts|
      invariant 1 <= c <= |counts|
      invariant gini == 1.0 - SquaredShares(counts, size, c)
    {
      var ratio := counts[c] as real / size as real;
      gini := gini - ratio * ratio;
      c := c + 1;
    }
  }

  /** The rows a mask selects are the rows at its member positions. */
  lemma GatherMembers(rows: seq<Sample>, mask: seq<bool>)
    requires |mask| == |rows|
    ensures InRows(rows, Members(mask))
    ensures Gather(rows, Members(mask)) == Keep(rows, mask)
    ensures |Members(mask)| == Trues(mask)
  {
    KeepIsSelection(rows, mask);
  }

  /** Class counts of the partition a mask stands for, as counts of marked rows. */
  lemma MaskedCounts(rows: seq<Sample>, mask: seq<bool>, n: nat)
    requires |mask| == |rows|
    ensures InRows(rows, Members(mask))
    ensures forall c :: 0 <= c <= n ==> PartCounts(rows, Members(mask), n)[c] == CountMarked(rows, mask, c)
  {
    GatherMembers(rows, mask);
    forall c | 0 <= c <= n ensures PartCounts(rows, Members(mask), n)[c] == CountMarked(rows, mask, c) {
      CountKeep(rows, mask, c);
    }
  }

  /** Marked rows whose feature `f` is at most `t` (side `yes`) or above it (side `!yes`). */
  function SideMask(rows: seq<Sample>, mask: seq<bool>, f: nat, t: real, yes: bool): (m: seq<bool>)
    requires |mask| == |rows| && HasFeature(rows, f)
    ensures |m| == |rows|
    ensures forall i :: 0 <= i < |rows| ==> m[i] == (mask[i] && (rows[i].features[f] <= t) == yes)
  {
    seq(|rows|, i requires 0 <= i < |rows| => mask[i] && (rows[i].features[f] <= t) == yes)
  }

  /** The two side masks of a split stand for the two sides of the partition. */
  lemma SideMaskMembers(rows: seq<Sample>, mask: seq<bool>, f: nat, t: real)
    requires |mask| == |rows| && HasFeature(rows, f)
    ensures InRows(rows, Members(mask))
    ensures Members(SideMask(rows, mask, f, t, true)) == Below(rows, Members(mask), f, t)
    ensures Members(SideMask(rows, mask, f, t, false)) == Above(rows, Members(mask), f, t)
  {
    SideMaskPrefix(rows, mask, f, t, |rows|);
    assert SideMask(rows, mask, f, t, true)[..|rows|] == SideMask(rows, mask, f, t, true);
    assert SideMask(rows, mask, f, t, false)[..|rows|] == SideMask(rows, mask, f, t, false);
    assert mask[..|rows|] == mask;
  }

  lemma {:induction false} SideMaskPrefix(rows: seq<Sample>, mask: seq<bool>, f: nat, t: real, k: nat)
    requires |mask| == |rows| && HasFeature(rows, f) && k <= |rows|
    ensures InRows(rows, Members(mask[..k]))
    ensures Members(SideMask(rows, mask, f, t, true)[..k]) == Below(rows, Members(mask[..k]), f, t)
    ensures Members(SideMask(rows, mask, f, t, false)[..k]) == Above(rows, Members(mask[..k]), f, t)
  {
    MembersMarked(mask[..k]);
    if k > 0 {
      SideMaskPrefix(rows, mask, f, t, k - 1);
      MembersSnoc(SideMask(rows, mask, f, t, true), k);
      MembersSnoc(SideMask(rows, mask, f, t, false), k);
      MembersSnoc(mask, k);
      var M := Members(mask[..k - 1]);
      if mask[k - 1] {
        BelowAboveSnoc(rows, M, k - 1, f, t);
        assert Members(mask[..k]) == M + [k - 1];
      } else {
        assert Members(mask[..k]) == M;
      }
    }
  }

  /** The members of a prefix one longer. */
  lemma MembersSnoc(m: seq<bool>, k: nat)
    requires 0 < k <= |m|
    ensures Members(m[..k]) == Members(m[..k - 1]) + (if m[k - 1] then [k - 1] else [])
  {
    assert m[..k][..k - 1] == m[..k - 1];
  }

  /** Extending a partition by one position extends exactly one of its sides. */
  lemma BelowAboveSnoc(rows: seq<Sample>, P: seq<nat>, x: nat, f: nat, t: real)
    requires InRows(rows, P) && x < |rows| && HasFeature(rows, f)
    ensures InRows(rows, P + [x])
    ensures Below(rows, P + [x], f, t) == Below(rows, P, f, t) + (if rows[x].features[f] <= t then [x] else [])
    ensures Above(rows, P + [x], f, t) == Above(rows, P, f, t) + (if rows[x].features[f] <= t then [] else [x])
  {
    assert (P + [x])[..|P|] == P;
  }

  /** Every row is in a mask of all trues. */
  lemma {:induction false} MembersOfAll(mask: seq<bool>)
    requires forall i :: 0 <= i < |mask| ==> mask[i]
    ensures Members(mask) == Indices(|mask|)
    decreases |mask|
  {
    if mask != [] {
      var k := |mask| - 1;
      MembersOfAll(mask[..k]);
      assert Indices(|mask|) == Indices(k) + [k];
    }
  }

  /** A mask stands for a non-empty partition exactly when some entry is true. */
  lemma MembersNonEmpty(mask: seq<bool>)
    ensures Members(mask) != [] <==> exists i :: 0 <= i < |mask| && mask[i]
  {
    var rows := seq(|mask|, i => 0);
    KeepIsSelection(rows, mask);
  }

  /** Marked rows have labels in 1..n when every row has. */
  lemma KeepLabelsIn(rows: seq<Sample>, mask: seq<bool>, n: nat)
    requires |mask| == |rows| && LabelsIn(rows, n)
    ensures LabelsIn(Keep(rows, mask), n)
  {
    KeepIsSelection(rows, mask);
  }

  /** One more position of a mask: its prefix gains that position when it is marked. */
  lemma MaskPrefixStep(rows: seq<Sample>, mask: seq<bool>, i: nat)
    requires |mask| == |rows| && i < |rows|
    ensures InRows(rows, Members(mask[..i])) && InRows(rows, Members(mask[..i + 1]))
    ensures |Members(mask[..i])| == Trues(mask[..i]) <= Trues(mask)
    ensures Trues(mask[..i + 1]) <= Trues(mask)
    ensures Members(mask[..i + 1]) == Members(mask[..i]) + (if mask[i] then [i] else [])
    ensures Trues(mask[..i + 1]) == Trues(mask[..i]) + (if mask[i] then 1 else 0)
  {
    assert mask[..i + 1][..i] == mask[..i];
    KeepIsSelection(rows[..i], mask[..i]);
    KeepIsSelection(rows[..i + 1], mask[..i + 1]);
    TruesPrefix(mask, i);
    TruesPrefix(mask, i + 1);
  }

  lemma {:induction false} TruesPrefix(mask: seq<bool>, i: nat)
    requires i <= |mask|
    ensures Trues(mask[..i]) <= Trues(mask)
    decreases |mask|
  {
    if i < |mask| {
      var k := |mask| - 1;
      assert mask[..k][..i] == mask[..i];
      TruesPrefix(mask[..k], i);
    } else {
      assert mask[..i] == mask;
    }
  }
}
