/**
 * Edited nearest neighbours of the comparison baseline: a training row
 * survives when it belongs to the least minority class or when more than
 * half of its `k` nearest other rows (found with a bounded max-heap) share
 * its label.  The others are erased, back to front.
 *
 * The distance is a parameter; the source uses the Euclidean distance of
 * the feature columns.
 */
module MajorityEditing {
  import opened Samples
  import opened ClassStats
  import opened Neighbours

  /**
   * `FindLeastMinorityClass` of this program: it counts the labels itself,
   * then scans classes 1..n keeping the first class of smallest count.
   */
  method FindLeastMinorityClassOf(rows: seq<Sample>, n: nat) returns (least: nat)
    requires rows != [] && forall i :: 0 <= i < |rows| ==> rows[i].cls <= n
    ensures least == LeastClass(ClassCounts(rows, n), n)
    ensures 1 <= n ==> 1 <= least <= n
  {
    var counts := TallyLabels(rows, n);
    least := 1;
    for c := 1 to n + 1
      invariant least == LeastClass(counts, c - 1)
    {
      if counts[least] > counts[c] {
        least := c;
      }
    }
  }

  /**
   * `SameAsMajorityInKNN`: the `k` nearest rows other than row `i` (the
   * heap pushes every other row and pops its farthest when it holds more
   * than `k`), and whether more than half of them carry row `i`'s label.
   */
  method SameAsMajorityInKNN(rows: seq<Sample>, i: nat, k: nat, dist: (seq<real>, seq<real>) -> real)
    returns (vote: bool, nb: seq<nat>)
    requires i < |rows|
    ensures NearestAmong(DistancesFrom(rows, i, dist), i, k, |rows|, nb)
    ensures Within(nb, |rows|) && i !in nb
    ensures vote <==> k > 0 && 2 * CountSame(rows, nb, rows[i].cls) > k
  {
    nb := HeapNearest(DistancesFrom(rows, i, dist), i, k);
    var same := CountSameLabel(rows, nb, rows[i].cls);
    vote := MajorityVote(same, k);
    MajorityVoteIsStrictMajority(same, k);
  }

  /**
   * The neighbours examined for row `i`: none for a row of the least
   * minority class (the vote is short-circuited), otherwise a choice of its
   * `k` nearest other rows.
   */
  ghost predicate Examined(rows: seq<Sample>, dist: (seq<real>, seq<real>) -> real, least: nat, k: nat,
                           i: nat, nb: seq<nat>)
    requires i < |rows|
  {
    if rows[i].cls == least then nb == []
    else NearestAmong(DistancesFrom(rows, i, dist), i, k, |rows|, nb)
  }

  /** The reservation mask: least minority class, or a same-label majority among the neighbours. */
  ghost function EditMask(rows: seq<Sample>, least: nat, k: nat, nbrs: seq<seq<nat>>): (mask: seq<bool>)
    requires |nbrs| == |rows| && AllWithin(nbrs, |rows|)
    ensures |mask| == |rows|
  {
    seq(|rows|, i requires 0 <= i < |rows| =>
      rows[i].cls == least || MajorityVote(CountSame(rows, nbrs[i], rows[i].cls), k))
  }

  /**
   * `EditedNearestNeighbors` of the comparison baseline.  The survivors are
   * the reserved rows in their original order.
   */
  method EditedNearestNeighbors(rows: seq<Sample>, n: nat, k: nat, dist: (seq<real>, seq<real>) -> real)
    returns (out: seq<Sample>, least: nat, nbrs: seq<seq<nat>>)
    requires rows != [] && forall i :: 0 <= i < |rows| ==> rows[i].cls <= n
    ensures least == LeastClass(ClassCounts(rows, n), n)
    ensures |nbrs| == |rows| && AllWithin(nbrs, |rows|)
    ensures forall i :: 0 <= i < |rows| ==> Examined(rows, dist, least, k, i, nbrs[i])
    ensures out == Keep(rows, EditMask(rows, least, k, nbrs))
  {
    least := FindLeastMinorityClassOf(rows, n);
    var mask: seq<bool> := [];
    nbrs := [];
    for i := 0 to |rows|
      invariant Reviewed(rows, dist, least, k, i, mask, nbrs)
    {
      var keep, nb := ExamineRow(rows, least, k, dist, i);
      ReviewedStep(rows, dist, least, k, i, mask, nbrs, keep, nb);
      mask := mask + [keep];
      nbrs := nbrs + [nb];
    }
    ReviewedAll(rows, dist, least, k, mask, nbrs);
    out := EraseUnmarked(rows, mask);
  }

  /** The reservation loop after `i` rows: their neighbours and their marks. */
  ghost predicate Reviewed(rows: seq<Sample>, dist: (seq<real>, seq<real>) -> real, least: nat, k: nat,
                           i: nat, mask: seq<bool>, nbrs: seq<seq<nat>>)
  {
    && i <= |rows| && |mask| == |nbrs| == i && AllWithin(nbrs, |rows|)
    && (forall j :: 0 <= j < i ==> Examined(rows, dist, least, k, j, nbrs[j]))
    && (forall j :: 0 <= j < i ==>
          mask[j] == (rows[j].cls == least || MajorityVote(CountSame(rows, nbrs[j], rows[j].cls), k)))
  }

  /** One row more: the loop invariant is kept. */
  lemma ReviewedStep(rows: seq<Sample>, dist: (seq<real>, seq<real>) -> real, least: nat, k: nat,
                     i: nat, mask: seq<bool>, nbrs: seq<seq<nat>>, keep: bool, nb: seq<nat>)
    requires Reviewed(rows, dist, least, k, i, mask, nbrs) && i < |rows|
    requires Within(nb, |rows|) && Examined(rows, dist, least, k, i, nb)
    requires keep == (rows[i].cls == least || MajorityVote(CountSame(rows, nb, rows[i].cls), k))
    ensures Reviewed(rows, dist, least, k, i + 1, mask + [keep], nbrs + [nb])
  {
    var nbrs' := nbrs + [nb];
    assert forall j :: 0 <= j < i ==> nbrs'[j] == nbrs[j];
  }

  /** After the last row the marks are the reservation mask. */
  lemma ReviewedAll(rows: seq<Sample>, dist: (seq<real>, seq<real>) -> real, least: nat, k: nat,
                    mask: seq<bool>, nbrs: seq<seq<nat>>)
    requires Reviewed(rows, dist, least, k, |rows|, mask, nbrs)
    ensures |nbrs| == |rows| && AllWithin(nbrs, |rows|)
    ensures mask == EditMask(rows, least, k, nbrs)
  {
  }

  /** One row of the reservation loop. */
  method ExamineRow(rows: seq<Sample>, least: nat, k: nat, dist: (seq<real>, seq<real>) -> real, i: nat)
    returns (keep: bool, nb: seq<nat>)
    requires i < |rows|
    ensures Within(nb, |rows|) && Examined(rows, dist, least, k, i, nb)
    ensures keep == (rows[i].cls == least || MajorityVote(CountSame(rows, nb, rows[i].cls), k))
  {
    var vote := false;
    nb := [];
    if rows[i].cls != least {
      vote, nb := SameAsMajorityInKNN(rows, i, k, dist);
      MajorityVoteIsStrictMajority(CountSame(rows, nb, rows[i].cls), k);
    }
    keep := rows[i].cls == least || vote;
  }

  /** The least minority class loses no row. */
  lemma LeastClassKept(rows: seq<Sample>, least: nat, k: nat, nbrs: seq<seq<nat>>)
    requires |nbrs| == |rows| && AllWithin(nbrs, |rows|)
    ensures CountLabel(Keep(rows, EditMask(rows, least, k, nbrs)), least) == CountLabel(rows, least)
  {
    var mask := EditMask(rows, least, k, nbrs);
    CountKeep(rows, mask, least);
    CountMarkedAll(rows, mask, least);
  }

  /**
   * A row is erased exactly when it is outside the least minority class
   * and at most half of its examined neighbours share its label.
   */
  lemma ErasedLostTheVote(rows: seq<Sample>, least: nat, k: nat, nbrs: seq<seq<nat>>, i: nat)
    requires |nbrs| == |rows| && AllWithin(nbrs, |rows|)
    requires i < |rows|
    ensures (!EditMask(rows, least, k, nbrs)[i])
        <==> (rows[i].cls != least && (k == 0 || 2 * CountSame(rows, nbrs[i], rows[i].cls) <= k))
  {
    MajorityVoteIsStrictMajority(CountSame(rows, nbrs[i], rows[i].cls), k);
  }

  /** A row whose examined neighbours all share its label survives when `k >= 1`. */
  lemma UnanimousRowSurvives(rows: seq<Sample>, least: nat, k: nat, nbrs: seq<seq<nat>>, i: nat)
    requires |nbrs| == |rows| && AllWithin(nbrs, |rows|)
    requires i < |rows| && k >= 1 && |nbrs[i]| == k
    requires forall a :: 0 <= a < k ==> rows[nbrs[i][a]].cls == rows[i].cls
    ensures EditMask(rows, least, k, nbrs)[i]
  {
    CountSameAll(rows, nbrs[i], rows[i].cls);
    UnanimousIsMajority(CountSame(rows, nbrs[i], rows[i].cls), k);
  }

  /**
   * With `k == 0` every vote is 0/0, which fails, so only the least
   * minority class survives, all of it.
   */
  lemma NoNeighboursKeepsLeastOnly(rows: seq<Sample>, least: nat, nbrs: seq<seq<nat>>, c: nat)
    requires |nbrs| == |rows| && AllWithin(nbrs, |rows|)
    ensures CountLabel(Keep(rows, EditMask(rows, least, 0, nbrs)), c)
              == if c == least then CountLabel(rows, c) else 0
  {
    var mask := EditMask(rows, least, 0, nbrs);
    CountKeep(rows, mask, c);
    if c == least {
      CountMarkedAll(rows, mask, c);
    } else {
      CountMarkedExcluded(rows, mask, c);
    }
  }
}
