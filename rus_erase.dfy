/**
 * Random under-sampling by erasure (the comparison baseline): every class
 * keeps the first `m` rows of a shuffle of its bucket, `m` the smallest
 * class count, and every other row is erased, back to front.
 *
 * The shuffle is an input: one permutation of bucket positions per class.
 */
module EraseUnderSampling {
  import opened Samples
  import opened ClassStats

  /** `perm` lists each of 0..len-1 exactly once. */
  ghost predicate IsPermutation(perm: seq<nat>, len: nat)
  {
    && |perm| == len
    && (forall k :: 0 <= k < len ==> perm[k] < len)
    && (forall a, b :: 0 <= a < b < len ==> perm[a] != perm[b])
  }

  /** One shuffle per class bucket. */
  ghost predicate Shuffles(rows: seq<Sample>, n: nat, perms: seq<seq<nat>>)
  {
    |perms| == n + 1 && forall c :: 1 <= c <= n ==> IsPermutation(perms[c], CountLabel(rows, c))
  }

  /** The first `m` entries of `s`, or all of it when it is shorter. */
  function Take(s: seq<nat>, m: nat): seq<nat>
  {
    if m <= |s| then s[..m] else s
  }

  /**
   * The reservation mask: a row is kept iff its class is one of 1..n and
   * its bucket position is among the first `m` of its class's shuffle.
   */
  ghost function Reserved(rows: seq<Sample>, n: nat, perms: seq<seq<nat>>, m: nat): (mask: seq<bool>)
    requires |perms| == n + 1
    ensures |mask| == |rows|
  {
    seq(|rows|, i requires 0 <= i < |rows| =>
      1 <= rows[i].cls <= n && Rank(rows, i) in Take(perms[rows[i].cls], m))
  }

  /** The sampling size: the count of the least minority class, or `UINT32_MAX` without classes. */
  ghost function SamplingSize(rows: seq<Sample>, n: nat): nat
  {
    if n == 0 then UINT32_MAX else CountLabel(rows, LeastClass(ClassCounts(rows, n), n))
  }

  /** A sum of equal entries. */
  lemma {:induction false} SumConstant(s: seq<nat>, lo: nat, hi: nat, m: nat)
    requires lo <= hi <= |s|
    requires forall c :: lo <= c < hi ==> s[c] == m
    ensures Sum(s, lo, hi) == (hi - lo) * m
    decreases hi - lo
  {
    if lo < hi {
      SumConstant(s, lo + 1, hi, m);
    }
  }

  /**
   * `RandomUnderSampling` of the comparison baseline.  The survivors are
   * the reserved rows in their original order; every class 1..n ends with
   * exactly `m` rows, so the table has `n * m` rows.
   */
  method RandomUnderSampling(rows: seq<Sample>, n: nat, perms: seq<seq<nat>>) returns (out: seq<Sample>)
    requires rows != [] && |rows| <= UINT32_MAX
    requires forall i :: 0 <= i < |rows| ==> rows[i].cls <= n
    requires Shuffles(rows, n, perms)
    ensures out == Keep(rows, Reserved(rows, n, perms, SamplingSize(rows, n)))
    ensures forall c :: 1 <= c <= n ==> CountLabel(out, c) == SamplingSize(rows, n)
    ensures LabelsIn(out, n)
    ensures |out| == n * SamplingSize(rows, n)
  {
    var buckets := BuildBuckets(rows, n);
    var counts := BucketSizes(rows, n, buckets);
    var m := CalculateSamplingSize(counts);
    SizeIsSmallest(rows, n, counts, m);

    var mask := seq(|rows|, _ => false);
    forall c: nat ensures CountMarked(rows, mask, c) == 0 {
      CountMarkedNone(rows, mask, c);
    }
    for c := 1 to n + 1
      invariant |mask| == |rows|
      invariant forall i :: 0 <= i < |rows| ==>
                  mask[i] == (1 <= rows[i].cls < c && Rank(rows, i) in Take(perms[rows[i].cls], m))
      invariant forall c' :: 1 <= c' < c ==> CountMarked(rows, mask, c') == m
      invariant forall c': nat :: c' >= c ==> CountMarked(rows, mask, c') == 0
    {
      mask := ReserveClass(rows, n, perms, m, c, buckets[c], mask);
    }
    assert mask == Reserved(rows, n, perms, m);
    out := EraseUnmarked(rows, mask);
    ReservedTotals(rows, n, mask, m, out);
  }

  /** The class counts read off the buckets, with entry 0 left at zero. */
  method BucketSizes(rows: seq<Sample>, n: nat, buckets: seq<seq<nat>>) returns (counts: seq<nat>)
    requires |buckets| == n + 1 && forall c :: 0 <= c <= n ==> buckets[c] == Bucket(rows, c)
    ensures |counts| == n + 1 && counts[0] == 0
    ensures forall c :: 1 <= c <= n ==> counts[c] == CountLabel(rows, c)
  {
    counts := seq(n + 1, _ => 0);
    for c := 1 to n + 1
      invariant |counts| == n + 1 && counts[0] == 0
      invariant forall c' :: 1 <= c' < c ==> counts[c'] == CountLabel(rows, c')
    {
      BucketFacts(rows, c);
      counts := counts[c := |buckets[c]|];
    }
  }

  /** Reserve the first `m` rows of class `c`'s shuffled bucket. */
  method ReserveClass(rows: seq<Sample>, n: nat, perms: seq<seq<nat>>, m: nat, c: nat,
                      bucket: seq<nat>, mask: seq<bool>) returns (mask': seq<bool>)
    requires Shuffles(rows, n, perms) && 1 <= c <= n && m <= CountLabel(rows, c)
    requires bucket == Bucket(rows, c)
    requires |mask| == |rows|
    requires forall i :: 0 <= i < |rows| ==>
               mask[i] == (1 <= rows[i].cls < c && Rank(rows, i) in Take(perms[rows[i].cls], m))
    requires forall c': nat :: c' >= c ==> CountMarked(rows, mask, c') == 0
    ensures |mask'| == |rows|
    ensures forall i :: 0 <= i < |rows| ==>
              mask'[i] == (1 <= rows[i].cls < c + 1 && Rank(rows, i) in Take(perms[rows[i].cls], m))
    ensures forall c': nat :: c' != c ==> CountMarked(rows, mask', c') == CountMarked(rows, mask, c')
    ensures CountMarked(rows, mask', c) == m
  {
    BucketFacts(rows, c);
    mask' := mask;
    for j := 0 to m
      invariant |mask'| == |rows|
      invariant forall i :: 0 <= i < |rows| ==>
                  mask'[i] == ((1 <= rows[i].cls < c && Rank(rows, i) in Take(perms[rows[i].cls], m))
                               || (rows[i].cls == c && Rank(rows, i) in perms[c][..j]))
      invariant forall c': nat :: c' != c ==> CountMarked(rows, mask', c') == CountMarked(rows, mask, c')
      invariant CountMarked(rows, mask', c) == j
    {
      var idx := bucket[perms[c][j]];
      mask' := Reserve(rows, n, perms, m, c, j, mask', idx);
    }
    assert Take(perms[c], m) == perms[c][..m];
  }

  /** The sampling size the loop computes is the specified one, and no class is smaller. */
  lemma SizeIsSmallest(rows: seq<Sample>, n: nat, counts: seq<nat>, m: nat)
    requires |rows| <= UINT32_MAX && |counts| == n + 1
    requires forall c :: 1 <= c <= n ==> counts[c] == CountLabel(rows, c)
    requires forall c :: 1 <= c < |counts| ==> m <= counts[c]
    requires m == UINT32_MAX || exists c :: 1 <= c < |counts| && m == counts[c]
    ensures m == SamplingSize(rows, n)
  {
    if n > 0 {
      var cc := ClassCounts(rows, n);
      forall c | 1 <= c <= n ensures cc[c] <= UINT32_MAX {
        CountLabelBounds(rows, c);
      }
      SamplingSizeIsLeastCount(cc, n, m);
    }
  }

  /** One reservation: mark the row at shuffled position `j` of class `c`'s bucket. */
  method Reserve(rows: seq<Sample>, n: nat, perms: seq<seq<nat>>, m: nat, c: nat, j: nat,
                 mask: seq<bool>, idx: nat) returns (mask': seq<bool>)
    requires Shuffles(rows, n, perms) && 1 <= c <= n && j < m <= CountLabel(rows, c)
    requires |Bucket(rows, c)| == CountLabel(rows, c) && idx == Bucket(rows, c)[perms[c][j]]
    requires |mask| == |rows|
    requires forall i :: 0 <= i < |rows| ==>
               mask[i] == ((1 <= rows[i].cls < c && Rank(rows, i) in Take(perms[rows[i].cls], m))
                           || (rows[i].cls == c && Rank(rows, i) in perms[c][..j]))
    ensures |mask'| == |rows|
    ensures forall i :: 0 <= i < |rows| ==>
              mask'[i] == ((1 <= rows[i].cls < c && Rank(rows, i) in Take(perms[rows[i].cls], m))
                           || (rows[i].cls == c && Rank(rows, i) in perms[c][..j + 1]))
    ensures forall c': nat :: CountMarked(rows, mask', c')
              == CountMarked(rows, mask, c') + (if c' == c then 1 else 0)
  {
    BucketFacts(rows, c);
    var p := perms[c][j];
    assert Rank(rows, idx) == p && rows[idx].cls == c;
    assert p !in perms[c][..j];
    mask' := mask[idx := true];
    forall c': nat ensures CountMarked(rows, mask', c') == CountMarked(rows, mask, c') + (if c' == c then 1 else 0) {
      CountMarkedSet(rows, mask, idx, c');
    }
    assert perms[c][..j + 1] == perms[c][..j] + [p];
  }

  /** The reserved rows carry labels 1..n, `m` per class, `n * m` in all. */
  lemma ReservedTotals(rows: seq<Sample>, n: nat, mask: seq<bool>, m: nat, out: seq<Sample>)
    requires |mask| == |rows| && out == Keep(rows, mask)
    requires forall i :: 0 <= i < |rows| && mask[i] ==> 1 <= rows[i].cls <= n
    requires forall c :: 1 <= c <= n ==> CountMarked(rows, mask, c) == m
    ensures forall c :: 1 <= c <= n ==> CountLabel(out, c) == m
    ensures LabelsIn(out, n)
    ensures |out| == n * m
  {
    KeepIsSelection(rows, mask);
    forall c | 1 <= c <= n ensures CountLabel(out, c) == m {
      CountKeep(rows, mask, c);
    }
    CountsAddUp(out, n);
    SumConstant(ClassCounts(out, n), 1, n + 1, m);
  }
}
