/**
 * Edited nearest neighbours of the ENN program: a training row is copied
 * to the new table when it belongs to the least minority class or when
 * all of its `k` nearest neighbours (read off a distance-sorted table of
 * every row) share its label.  The new table replaces the old one and the
 * counts are redone.
 *
 * The distance is a parameter; the source uses the Euclidean distance of
 * the feature columns.
 */
module UnanimousEditing {
  import opened Samples
  import opened ClassStats
  import opened Neighbours
  import FileOps
  import DatasetInfo
  import MajorityEditing

  /** The distance of every row to row `i`, in table order (row first, query second). */
  function DistancesTo(rows: seq<Sample>, i: nat, dist: (seq<real>, seq<real>) -> real): (d: seq<real>)
    requires i < |rows|
    ensures |d| == |rows|
  {
    seq(|rows|, j requires 0 <= j < |rows| => dist(rows[j].features, rows[i].features))
  }

  /** For a symmetric distance the argument order does not matter. */
  lemma DistancesToFrom(rows: seq<Sample>, i: nat, dist: (seq<real>, seq<real>) -> real)
    requires IsDistance(dist) && i < |rows|
    ensures DistancesTo(rows, i, dist) == DistancesFrom(rows, i, dist)
  {
    forall j | 0 <= j < |rows|
      ensures DistancesTo(rows, i, dist)[j] == DistancesFrom(rows, i, dist)[j]
    {
      assert dist(rows[j].features, rows[i].features) == dist(rows[i].features, rows[j].features);
    }
  }

  /**
   * What reading positions 1..k of the sorted table yields: `k` distinct
   * rows, leaving out a nearest row `z` (position 0), none farther than a
   * row left out.
   */
  ghost predicate SortedChoice(d: seq<real>, k: nat, nn: seq<nat>)
  {
    && |nn| == k && Distinct(nn) && Within(nn, |d|)
    && exists z :: 0 <= z < |d| && z !in nn
         && (forall y :: 0 <= y < |d| ==> d[z] <= d[y])
         && (forall a, y :: 0 <= a < k && 0 <= y < |d| && y != z && y !in nn ==> d[nn[a]] <= d[y])
  }

  /** `FindKNearestNeighbors`: sort all rows by distance to row `i`, read positions 1..k. */
  method FindKNearestNeighbors(rows: seq<Sample>, i: nat, k: nat, dist: (seq<real>, seq<real>) -> real)
    returns (nn: seq<nat>)
    requires i < |rows| && k < |rows|
    ensures SortedChoice(DistancesTo(rows, i, dist), k, nn)
  {
    nn := SortedNearest(DistancesTo(rows, i, dist), k);
  }

  /**
   * The row `i` itself is among its `k` neighbours only when another row
   * coincides with it: row 0 of the sorted table, which is left out, is
   * then a duplicate of row `i`.
   */
  lemma QueryIsNeighbourOnlyBesideDuplicate(rows: seq<Sample>, i: nat, k: nat,
                                            dist: (seq<real>, seq<real>) -> real, nn: seq<nat>)
    requires IsDistance(dist) && i < |rows|
    requires SortedChoice(DistancesTo(rows, i, dist), k, nn) && i in nn
    ensures exists z :: 0 <= z < |rows| && z != i && dist(rows[i].features, rows[z].features) == 0.0
  {
    DistancesToFrom(rows, i, dist);
    var d := DistancesFrom(rows, i, dist);
    var z :| 0 <= z < |d| && z !in nn && (forall y :: 0 <= y < |d| ==> d[z] <= d[y]);
    QueryOnlyBesideDuplicate(rows, i, dist, nn, z);
  }

  /**
   * The neighbours examined for row `i`: none for a row of the least
   * minority class (it is copied at once), otherwise the sorted choice.
   */
  ghost predicate Examined(rows: seq<Sample>, dist: (seq<real>, seq<real>) -> real, least: nat, k: nat,
                           i: nat, nb: seq<nat>)
    requires i < |rows|
  {
    if rows[i].cls == least then nb == []
    else SortedChoice(DistancesTo(rows, i, dist), k, nb)
  }

  /** The copy mask: least minority class, or every neighbour of the row's label. */
  ghost function AgreeMask(rows: seq<Sample>, least: nat, k: nat, nbrs: seq<seq<nat>>): (mask: seq<bool>)
    requires |nbrs| == |rows| && AllWithin(nbrs, |rows|)
    ensures |mask| == |rows|
  {
    seq(|rows|, i requires 0 <= i < |rows| =>
      rows[i].cls == least || CountSame(rows, nbrs[i], rows[i].cls) == k)
  }

  /** The copying loop after `i` rows. */
  ghost predicate Copied(rows: seq<Sample>, dist: (seq<real>, seq<real>) -> real, least: nat, k: nat,
                         i: nat, mask: seq<bool>, nbrs: seq<seq<nat>>, out: seq<Sample>)
  {
    && i <= |rows| && |mask| == |nbrs| == i && AllWithin(nbrs, |rows|)
    && (forall j :: 0 <= j < i ==> Examined(rows, dist, least, k, j, nbrs[j]))
    && (forall j :: 0 <= j < i ==> mask[j] == (rows[j].cls == least || CountSame(rows, nbrs[j], rows[j].cls) == k))
    && out == Keep(rows[..i], mask)
  }

  /**
   * `EditedNearestNeighbors` of the ENN program.  Every class must have a
   * row, and `k` must be below the table size whenever a row outside the
   * least minority class needs its neighbours.
   */
  method EditedNearestNeighbors(ds: DatasetInfo.Dataset, k: nat, dist: (seq<real>, seq<real>) -> real)
    returns (nbrs: seq<seq<nat>>)
    requires DatasetInfo.Consistent(ds)
    requires forall c :: 1 <= c <= ds.numClasses ==> CountLabel(ds.training, c) >= 1
    requires forall i :: 0 <= i < |ds.training| && ds.training[i].cls != LeastClass(ds.trainingCounts, ds.numClasses)
               ==> k < |ds.training|
    modifies ds
    ensures ds.numClasses == old(ds.numClasses) && ds.dimension == old(ds.dimension)
    ensures ds.testing == old(ds.testing)
    ensures |nbrs| == |old(ds.training)| && AllWithin(nbrs, |old(ds.training)|)
    ensures var rows := old(ds.training);
            var least := LeastClass(ClassCounts(rows, ds.numClasses), ds.numClasses);
            && (forall i :: 0 <= i < |rows| ==> Examined(rows, dist, least, k, i, nbrs[i]))
            && ds.training == Keep(rows, AgreeMask(rows, least, k, nbrs))
    ensures DatasetInfo.Consistent(ds)
    ensures ds.testingCounts == ClassCounts(ds.testing, ds.numClasses)
  {
    var rows := ds.training;
    var n := ds.numClasses;
    var least := FindLeastMinorityClass(ds.trainingCounts, n);
    LeastClassIsFirstMinimum(ds.trainingCounts, n);
    var out;
    out, nbrs := CopyAgreeing(rows, least, k, dist);
    SurvivorsFacts(rows, n, least, k, nbrs);
    RefillRecord(ds, out, rows);
  }

  /** The copying loop over the training rows. */
  method CopyAgreeing(rows: seq<Sample>, least: nat, k: nat, dist: (seq<real>, seq<real>) -> real)
    returns (out: seq<Sample>, nbrs: seq<seq<nat>>)
    requires forall i :: 0 <= i < |rows| && rows[i].cls != least ==> k < |rows|
    ensures |nbrs| == |rows| && AllWithin(nbrs, |rows|)
    ensures forall i :: 0 <= i < |rows| ==> Examined(rows, dist, least, k, i, nbrs[i])
    ensures out == Keep(rows, AgreeMask(rows, least, k, nbrs))
  {
    ghost var mask: seq<bool> := [];
    nbrs := [];
    out := [];
    for i := 0 to |rows|
      invariant Copied(rows, dist, least, k, i, mask, nbrs, out)
    {
      var keep := true;
      var nb: seq<nat> := [];
      if rows[i].cls != least {
        nb := FindKNearestNeighbors(rows, i, k, dist);
        var same := CountSameLabel(rows, nb, rows[i].cls);
        keep := same == k;
      }
      CopiedStep(rows, dist, least, k, i, mask, nbrs, out, keep, nb);
      mask := mask + [keep];
      nbrs := nbrs + [nb];
      out := out + if keep then [rows[i]] else [];
    }
    CopiedAll(rows, dist, least, k, mask, nbrs, out);
  }

  /** One row more: the loop invariant is kept. */
  lemma CopiedStep(rows: seq<Sample>, dist: (seq<real>, seq<real>) -> real, least: nat, k: nat,
                   i: nat, mask: seq<bool>, nbrs: seq<seq<nat>>, out: seq<Sample>, keep: bool, nb: seq<nat>)
    requires Copied(rows, dist, least, k, i, mask, nbrs, out) && i < |rows|
    requires Within(nb, |rows|) && Examined(rows, dist, least, k, i, nb)
    requires keep == (rows[i].cls == least || CountSame(rows, nb, rows[i].cls) == k)
    ensures Copied(rows, dist, least, k, i + 1, mask + [keep], nbrs + [nb],
                   out + if keep then [rows[i]] else [])
  {
    var nbrs' := nbrs + [nb];
    assert forall j :: 0 <= j < i ==> nbrs'[j] == nbrs[j];
    assert rows[..i + 1] == rows[..i] + [rows[i]];
    KeepAppend(rows[..i], [rows[i]], mask, [keep]);
    assert Keep([rows[i]], [keep]) == if keep then [rows[i]] else [];
  }

  /** After the last row the copies are the rows the mask keeps. */
  lemma CopiedAll(rows: seq<Sample>, dist: (seq<real>, seq<real>) -> real, least: nat, k: nat,
                  mask: seq<bool>, nbrs: seq<seq<nat>>, out: seq<Sample>)
    requires Copied(rows, dist, least, k, |rows|, mask, nbrs, out)
    ensures |nbrs| == |rows| && AllWithin(nbrs, |rows|)
    ensures mask == AgreeMask(rows, least, k, nbrs)
    ensures out == Keep(rows, AgreeMask(rows, least, k, nbrs))
  {
    assert rows[..|rows|] == rows;
  }

  /** The surviving rows come from the table, and the least minority class keeps all of its rows. */
  lemma SurvivorsFacts(rows: seq<Sample>, n: nat, least: nat, k: nat, nbrs: seq<seq<nat>>)
    requires |nbrs| == |rows| && AllWithin(nbrs, |rows|)
    ensures forall j :: 0 <= j < |Keep(rows, AgreeMask(rows, least, k, nbrs))| ==>
              Keep(rows, AgreeMask(rows, least, k, nbrs))[j] in rows
    ensures CountLabel(Keep(rows, AgreeMask(rows, least, k, nbrs)), least) == CountLabel(rows, least)
  {
    var mask := AgreeMask(rows, least, k, nbrs);
    KeepIsSelection(rows, mask);
    CountKeep(rows, mask, least);
    CountMarkedAll(rows, mask, least);
  }

  /** Installing the new table and recounting (`GetDatasetInfo` with `update`). */
  method RefillRecord(ds: DatasetInfo.Dataset, out: seq<Sample>, rows: seq<Sample>)
    requires DatasetInfo.Consistent(ds) && ds.training == rows
    requires forall j :: 0 <= j < |out| ==> out[j] in rows
    requires out != []
    modifies ds
    ensures ds.training == out && ds.testing == old(ds.testing)
    ensures ds.numClasses == old(ds.numClasses) && ds.dimension == old(ds.dimension)
    ensures DatasetInfo.Consistent(ds)
    ensures ds.testingCounts == ClassCounts(ds.testing, ds.numClasses)
  {
    assert out[0] in rows;
    ds.training := out;
    var ok := ds.GetDatasetInfo(true);
    assert ok;
  }

  /**
   * A row outside the least minority class survives exactly when all of
   * its `k` neighbours carry its label.
   */
  lemma SurvivorIffUnanimous(rows: seq<Sample>, least: nat, k: nat, nbrs: seq<seq<nat>>, i: nat)
    requires |nbrs| == |rows| && AllWithin(nbrs, |rows|)
    requires i < |rows| && rows[i].cls != least && |nbrs[i]| == k
    ensures AgreeMask(rows, least, k, nbrs)[i]
        <==> forall a :: 0 <= a < k ==> rows[nbrs[i][a]].cls == rows[i].cls
  {
    CountSameAll(rows, nbrs[i], rows[i].cls);
  }

  /**
   * Unanimity is stricter than the majority vote of the comparison
   * baseline: with the same `k >= 1` neighbours, every row kept here is
   * kept there too.
   */
  lemma UnanimousKeepsFewer(rows: seq<Sample>, least: nat, k: nat, nbrs: seq<seq<nat>>, i: nat)
    requires |nbrs| == |rows| && AllWithin(nbrs, |rows|)
    requires i < |rows| && k >= 1
    ensures AgreeMask(rows, least, k, nbrs)[i] ==> MajorityEditing.EditMask(rows, least, k, nbrs)[i]
  {
    if rows[i].cls != least && CountSame(rows, nbrs[i], rows[i].cls) == k {
      UnanimousIsMajority(CountSame(rows, nbrs[i], rows[i].cls), k);
    }
  }

  /**
   * With `k == 0` the count of agreeing neighbours is trivially `k`, so
   * nothing is removed (the voting baseline instead keeps only the least
   * minority class).
   */
  lemma NoNeighboursKeepsAll(rows: seq<Sample>, least: nat, nbrs: seq<seq<nat>>)
    requires |nbrs| == |rows| && AllWithin(nbrs, |rows|)
    requires forall i :: 0 <= i < |rows| ==> nbrs[i] == []
    ensures Keep(rows, AgreeMask(rows, least, 0, nbrs)) == rows
  {
    KeepAll(rows, AgreeMask(rows, least, 0, nbrs));
  }
}
