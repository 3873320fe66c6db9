/**
 * Per-class bookkeeping shared by the resamplers: the bucket of row
 * positions of each class, the least-populous ("least minority") class
 * and the smallest class count.
 */
module ClassStats {
  import opened Samples

  /** Positions of the rows labelled `c`, ascending. */
  function Bucket(rows: seq<Sample>, c: nat): seq<nat>
  {
    if rows == [] then []
    else Bucket(rows[..|rows| - 1], c) + (if rows[|rows| - 1].cls == c then [|rows| - 1] else [])
  }

  /** Where row `i` sits in the bucket of its class: the rows before it with its label. */
  function Rank(rows: seq<Sample>, i: nat): nat
    requires i < |rows|
  {
    CountLabel(rows[..i], rows[i].cls)
  }

  /**
   * A bucket holds exactly the rows of its class: as many as the class
   * count, each labelled `c`, and the row at bucket position `k` has rank `k`.
   */
  lemma BucketFacts(rows: seq<Sample>, c: nat)
    ensures |Bucket(rows, c)| == CountLabel(rows, c)
    ensures forall k :: 0 <= k < |Bucket(rows, c)| ==>
              Bucket(rows, c)[k] < |rows| && rows[Bucket(rows, c)[k]].cls == c
              && Rank(rows, Bucket(rows, c)[k]) == k
    ensures forall i :: 0 <= i < |rows| && rows[i].cls == c ==>
              Rank(rows, i) < |Bucket(rows, c)| && Bucket(rows, c)[Rank(rows, i)] == i
  {
    BucketEntries(rows, c);
    BucketCovers(rows, c);
  }

  lemma {:induction false} BucketEntries(rows: seq<Sample>, c: nat)
    ensures |Bucket(rows, c)| == CountLabel(rows, c)
    ensures forall k :: 0 <= k < |Bucket(rows, c)| ==>
              Bucket(rows, c)[k] < |rows| && rows[Bucket(rows, c)[k]].cls == c
              && Rank(rows, Bucket(rows, c)[k]) == k
  {
    if rows != [] {
      var last := |rows| - 1;
      var front := rows[..last];
      BucketEntries(front, c);
      var B, B' := Bucket(rows, c), Bucket(front, c);
      assert B == B' + (if rows[last].cls == c then [last] else []);
      forall k | 0 <= k < |B|
        ensures B[k] < |rows| && rows[B[k]].cls == c && Rank(rows, B[k]) == k
      {
        if k < |B'| {
          assert B[k] == B'[k];
          assert front[..B'[k]] == rows[..B'[k]];
        }
      }
    }
  }

  lemma {:induction false} BucketCovers(rows: seq<Sample>, c: nat)
    ensures forall i :: 0 <= i < |rows| && rows[i].cls == c ==>
              Rank(rows, i) < |Bucket(rows, c)| && Bucket(rows, c)[Rank(rows, i)] == i
  {
    if rows != [] {
      var last := |rows| - 1;
      var front := rows[..last];
      BucketCovers(front, c);
      BucketEntries(front, c);
      var B, B' := Bucket(rows, c), Bucket(front, c);
      assert B == B' + (if rows[last].cls == c then [last] else []);
      forall i | 0 <= i < |rows| && rows[i].cls == c
        ensures Rank(rows, i) < |B| && B[Rank(rows, i)] == i
      {
        if i < last {
          assert front[..i] == rows[..i];
          assert Rank(front, i) == Rank(rows, i);
        } else {
          assert rows[..i] == front;
        }
      }
    }
  }

  /**
   * Filling the buckets: one pass over the rows, appending each position
   * to the bucket of its label.
   */
  method BuildBuckets(rows: seq<Sample>, n: nat) returns (buckets: seq<seq<nat>>)
    requires forall i :: 0 <= i < |rows| ==> rows[i].cls <= n
    ensures |buckets| == n + 1
    ensures forall c :: 0 <= c <= n ==> buckets[c] == Bucket(rows, c)
  {
    buckets := seq(n + 1, _ => []);
    for i := 0 to |rows|
      invariant |buckets| == n + 1
      invariant forall c :: 0 <= c <= n ==> buckets[c] == Bucket(rows[..i], c)
    {
      assert rows[..i + 1][..i] == rows[..i];
      var l := rows[i].cls;
      buckets := buckets[l := buckets[l] + [i]];
    }
    assert rows[..|rows|] == rows;
  }

  // ---------------------------------------------------------------------
  // The least minority class.
  // ---------------------------------------------------------------------

  /**
   * The scan over classes 1..n that replaces the current candidate only
   * by a class with a strictly smaller count.
   */
  function LeastClass(counts: seq<nat>, n: nat): (least: nat)
    requires n < |counts|
    ensures 1 <= least && (1 <= n ==> least <= n)
  {
    if n <= 1 then 1
    else
      var best := LeastClass(counts, n - 1);
      if counts[best] > counts[n] then n else best
  }

  /** The scan picks the lowest class among those with the smallest count. */
  lemma {:induction false} LeastClassIsFirstMinimum(counts: seq<nat>, n: nat)
    requires 1 <= n < |counts|
    ensures 1 <= LeastClass(counts, n) <= n
    ensures forall c :: 1 <= c <= n ==> counts[LeastClass(counts, n)] <= counts[c]
    ensures forall c :: 1 <= c < LeastClass(counts, n) ==> counts[c] > counts[LeastClass(counts, n)]
  {
    if n > 1 {
      LeastClassIsFirstMinimum(counts, n - 1);
    }
  }

  /**
   * `FindLeastMinorityClass`: the candidate starts at class 1 and moves to
   * a later class only on a strictly smaller count.
   */
  method FindLeastMinorityClass(counts: seq<nat>, n: nat) returns (least: nat)
    requires n < |counts|
    ensures least == LeastClass(counts, n)
  {
    least := 1;
    var i := 2;
    while i <= n
      invariant 2 <= i <= n + 1 || (n <= 1 && i == 2)
      invariant least == if n == 0 then 1 else LeastClass(counts, i - 1)
    {
      if counts[least] > counts[i] {
        least := i;
      }
      i := i + 1;
    }
  }

  /**
   * `CalculateSamplingSize`: the smallest of `counts[1..]`, starting from
   * `UINT32_MAX`, which is also the answer when there is no class.
   */
  method CalculateSamplingSize(counts: seq<nat>) returns (m: nat)
    ensures m <= UINT32_MAX
    ensures forall c :: 1 <= c < |counts| ==> m <= counts[c]
    ensures m == UINT32_MAX || exists c :: 1 <= c < |counts| && m == counts[c]
  {
    m := UINT32_MAX;
    var i := 1;
    while i < |counts|
      invariant 1 <= i <= |counts| || (|counts| == 0 && i == 1)
      invariant m <= UINT32_MAX
      invariant forall c :: 1 <= c < i && c < |counts| ==> m <= counts[c]
      invariant m == UINT32_MAX || exists c :: 1 <= c < i && c < |counts| && m == counts[c]
    {
      if m > counts[i] {
        m := counts[i];
      }
      i := i + 1;
    }
  }

  /**
   * With at least one class and 32-bit counts, the sampling size is the
   * count of the least minority class.
   */
  lemma SamplingSizeIsLeastCount(counts: seq<nat>, n: nat, m: nat)
    requires 1 <= n && |counts| == n + 1
    requires forall c :: 1 <= c <= n ==> counts[c] <= UINT32_MAX
    requires forall c :: 1 <= c <= n ==> m <= counts[c]
    requires m == UINT32_MAX || exists c :: 1 <= c <= n && m == counts[c]
    ensures m == counts[LeastClass(counts, n)]
  {
    LeastClassIsFirstMinimum(counts, n);
  }

  /** The rows of class `c`, in their original order. */
  function RowsOf(rows: seq<Sample>, c: nat): seq<Sample>
  {
    if rows == [] then []
    else RowsOf(rows[..|rows| - 1], c) + (if rows[|rows| - 1].cls == c then [rows[|rows| - 1]] else [])
  }

  /** Reading the rows at the positions of a class's bucket gives its rows in order. */
  lemma {:induction false} RowsOfBucket(rows: seq<Sample>, c: nat)
    ensures |RowsOf(rows, c)| == |Bucket(rows, c)|
    ensures forall k :: 0 <= k < |Bucket(rows, c)| ==>
              Bucket(rows, c)[k] < |rows| && RowsOf(rows, c)[k] == rows[Bucket(rows, c)[k]]
  {
    if rows != [] {
      var last := |rows| - 1;
      RowsOfBucket(rows[..last], c);
      BucketEntries(rows[..last], c);
    }
  }

  /** Every row of `RowsOf(rows, c)` is labelled `c`, and there are as many as the class count. */
  lemma {:induction false} RowsOfClass(rows: seq<Sample>, c: nat)
    ensures |RowsOf(rows, c)| == CountLabel(rows, c)
    ensures forall k :: 0 <= k < |RowsOf(rows, c)| ==> RowsOf(rows, c)[k].cls == c
  {
    if rows != [] {
      RowsOfClass(rows[..|rows| - 1], c);
    }
  }
}
