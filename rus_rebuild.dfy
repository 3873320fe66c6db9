/**
 * Random under-sampling of the RUS program: the least minority class is
 * found from the stored class counts, its size `m` becomes the sampling
 * size, and the training table is rebuilt class by class from the first
 * `m` rows of each class's shuffled bucket (the least minority class is
 * not shuffled).  The counts are then recomputed.
 *
 * The shuffles are an input: one permutation of bucket positions per class.
 */
module RebuildUnderSampling {
  import opened Samples
  import opened ClassStats
  import EraseUnderSampling
  import FileOps
  import DatasetInfo

  /** The identity order of `len` bucket positions. */
  function Identity(len: nat): (order: seq<nat>)
    ensures EraseUnderSampling.IsPermutation(order, len)
  {
    seq(len, k => k)
  }

  /** The order class `c`'s bucket is read in: unshuffled for the least minority class. */
  function OrderOf(rows: seq<Sample>, perms: seq<seq<nat>>, least: nat, c: nat): seq<nat>
    requires c < |perms|
  {
    if c == least then Identity(CountLabel(rows, c)) else perms[c]
  }

  /** The shuffled bucket positions are valid, whichever order a class is read in. */
  lemma OrderIsPermutation(rows: seq<Sample>, n: nat, perms: seq<seq<nat>>, least: nat, c: nat)
    requires EraseUnderSampling.Shuffles(rows, n, perms) && 1 <= c <= n
    ensures EraseUnderSampling.IsPermutation(OrderOf(rows, perms, least, c), CountLabel(rows, c))
  {
  }

  /** The row positions at the first `m` positions of `order` in the bucket of class `c`. */
  function PickedPositions(rows: seq<Sample>, c: nat, order: seq<nat>, m: nat): (pos: seq<nat>)
    requires EraseUnderSampling.IsPermutation(order, CountLabel(rows, c)) && m <= CountLabel(rows, c)
    ensures |pos| == m && forall j :: 0 <= j < m ==> pos[j] < |rows|
  {
    BucketFacts(rows, c);
    seq(m, j requires 0 <= j < m => Bucket(rows, c)[order[j]])
  }

  /** The rows at those positions. */
  function Picks(rows: seq<Sample>, c: nat, order: seq<nat>, m: nat): (block: seq<Sample>)
    requires EraseUnderSampling.IsPermutation(order, CountLabel(rows, c)) && m <= CountLabel(rows, c)
    ensures |block| == m
  {
    var pos := PickedPositions(rows, c, order, m);
    seq(m, j requires 0 <= j < m => rows[pos[j]])
  }

  /** Blocks of rows laid one after the other. */
  function Concat(blocks: seq<seq<Sample>>): seq<Sample>
  {
    if blocks == [] then [] else Concat(blocks[..|blocks| - 1]) + blocks[|blocks| - 1]
  }

  /** The block of each class 1..n, at index `c - 1`. */
  function Blocks(rows: seq<Sample>, n: nat, perms: seq<seq<nat>>, least: nat, m: nat): (blocks: seq<seq<Sample>>)
    requires EraseUnderSampling.Shuffles(rows, n, perms)
    requires forall c :: 1 <= c <= n ==> m <= CountLabel(rows, c)
    ensures |blocks| == n
  {
    seq(n, i requires 0 <= i < n =>
      OrderIsPermutation(rows, n, perms, least, i + 1);
      Picks(rows, i + 1, OrderOf(rows, perms, least, i + 1), m))
  }

  /** Block `c - 1` is the picks of class `c`. */
  lemma BlockAt(rows: seq<Sample>, n: nat, perms: seq<seq<nat>>, least: nat, m: nat, c: nat)
    requires EraseUnderSampling.Shuffles(rows, n, perms)
    requires forall c :: 1 <= c <= n ==> m <= CountLabel(rows, c)
    requires 1 <= c <= n
    requires EraseUnderSampling.IsPermutation(OrderOf(rows, perms, least, c), CountLabel(rows, c))
    ensures Blocks(rows, n, perms, least, m)[c - 1] == Picks(rows, c, OrderOf(rows, perms, least, c), m)
  {
  }

  /** Growing the prefix of blocks by one. */
  lemma ConcatSnoc(blocks: seq<seq<Sample>>, c: nat)
    requires 1 <= c <= |blocks|
    ensures Concat(blocks[..c]) == Concat(blocks[..c - 1]) + blocks[c - 1]
  {
    assert blocks[..c][..c - 1] == blocks[..c - 1];
  }

  /** The rebuilt table: the blocks of classes 1..n, one after the other. */
  function Resampled(rows: seq<Sample>, n: nat, perms: seq<seq<nat>>, least: nat, m: nat): seq<Sample>
    requires EraseUnderSampling.Shuffles(rows, n, perms)
    requires forall c :: 1 <= c <= n ==> m <= CountLabel(rows, c)
  {
    Concat(Blocks(rows, n, perms, least, m))
  }

  /** Every pick of class `c` is a row of the table labelled `c`. */
  lemma PicksFacts(rows: seq<Sample>, c: nat, order: seq<nat>, m: nat)
    requires EraseUnderSampling.IsPermutation(order, CountLabel(rows, c)) && m <= CountLabel(rows, c)
    ensures forall j :: 0 <= j < m ==> Picks(rows, c, order, m)[j].cls == c
    ensures forall j :: 0 <= j < m ==> Picks(rows, c, order, m)[j] in rows
  {
    PicksWithoutReplacement(rows, c, order, m);
  }

  /** The picks of one class come from `m` distinct rows of the table, all of class `c`. */
  lemma PicksWithoutReplacement(rows: seq<Sample>, c: nat, order: seq<nat>, m: nat)
    requires EraseUnderSampling.IsPermutation(order, CountLabel(rows, c)) && m <= CountLabel(rows, c)
    ensures forall j :: 0 <= j < m ==> rows[PickedPositions(rows, c, order, m)[j]].cls == c
    ensures forall j1, j2 :: 0 <= j1 < j2 < m ==>
              PickedPositions(rows, c, order, m)[j1] != PickedPositions(rows, c, order, m)[j2]
  {
    BucketFacts(rows, c);
    var pos := PickedPositions(rows, c, order, m);
    forall j1, j2 | 0 <= j1 < j2 < m ensures pos[j1] != pos[j2] {
      assert Rank(rows, pos[j1]) == order[j1];
      assert Rank(rows, pos[j2]) == order[j2];
    }
  }

  /** The class counts of a block of picks: `m` of class `c`, none of any other. */
  lemma CountPicks(rows: seq<Sample>, c: nat, order: seq<nat>, m: nat, c': nat)
    requires EraseUnderSampling.IsPermutation(order, CountLabel(rows, c)) && m <= CountLabel(rows, c)
    ensures CountLabel(Picks(rows, c, order, m), c') == if c' == c then m else 0
  {
    var block := Picks(rows, c, order, m);
    PicksFacts(rows, c, order, m);
    CountLabelBounds(block, c');
  }

  /** Blocks where block `i` holds `m` rows of class `i + 1` give `m` rows of each class 1..|blocks|. */
  lemma {:induction false} CountConcat(blocks: seq<seq<Sample>>, m: nat, c: nat)
    requires forall i :: 0 <= i < |blocks| ==> CountLabel(blocks[i], c) == if c == i + 1 then m else 0
    ensures CountLabel(Concat(blocks), c) == if 1 <= c <= |blocks| then m else 0
  {
    if blocks != [] {
      var k := |blocks| - 1;
      CountConcat(blocks[..k], m, c);
      CountLabelAppend(Concat(blocks[..k]), blocks[k], c);
    }
  }

  /** Blocks of `m` rows each make `|blocks| * m` rows. */
  lemma {:induction false} ConcatLength(blocks: seq<seq<Sample>>, m: nat)
    requires forall i :: 0 <= i < |blocks| ==> |blocks[i]| == m
    ensures |Concat(blocks)| == |blocks| * m
  {
    if blocks != [] {
      var k := |blocks| - 1;
      ConcatLength(blocks[..k], m);
      assert |blocks| * m == k * m + m;
    }
  }

  /** Every row of the concatenation is a row of some block. */
  lemma {:induction false} ConcatRows(blocks: seq<seq<Sample>>, P: Sample -> bool)
    requires forall i, j :: 0 <= i < |blocks| && 0 <= j < |blocks[i]| ==> P(blocks[i][j])
    ensures forall k :: 0 <= k < |Concat(blocks)| ==> P(Concat(blocks)[k])
  {
    if blocks != [] {
      var k := |blocks| - 1;
      ConcatRows(blocks[..k], P);
      var front := Concat(blocks[..k]);
      forall x | 0 <= x < |Concat(blocks)| ensures P(Concat(blocks)[x]) {
        if x >= |front| {
          assert Concat(blocks)[x] == blocks[k][x - |front|];
        } else {
          assert Concat(blocks)[x] == front[x];
        }
      }
    }
  }

  /**
   * The rebuilt table holds `m` rows of each class 1..n and nothing else,
   * `n * m` rows in all, every one a row of the input.
   */
  lemma ResampledFacts(rows: seq<Sample>, n: nat, perms: seq<seq<nat>>, least: nat, m: nat)
    requires EraseUnderSampling.Shuffles(rows, n, perms)
    requires forall c :: 1 <= c <= n ==> m <= CountLabel(rows, c)
    ensures forall c: nat :: CountLabel(Resampled(rows, n, perms, least, m), c) == if 1 <= c <= n then m else 0
    ensures |Resampled(rows, n, perms, least, m)| == n * m
    ensures forall k :: 0 <= k < |Resampled(rows, n, perms, least, m)| ==>
              Resampled(rows, n, perms, least, m)[k] in rows
              && 1 <= Resampled(rows, n, perms, least, m)[k].cls <= n
  {
    var blocks := Blocks(rows, n, perms, least, m);
    forall i | 0 <= i < n
      ensures |blocks[i]| == m
      ensures forall j :: 0 <= j < m ==> blocks[i][j] in rows && 1 <= blocks[i][j].cls <= n
      ensures forall c: nat :: CountLabel(blocks[i], c) == if c == i + 1 then m else 0
    {
      OrderIsPermutation(rows, n, perms, least, i + 1);
      var order := OrderOf(rows, perms, least, i + 1);
      BlockAt(rows, n, perms, least, m, i + 1);
      PicksFacts(rows, i + 1, order, m);
      forall c: nat ensures CountLabel(blocks[i], c) == if c == i + 1 then m else 0 {
        CountPicks(rows, i + 1, order, m, c);
      }
    }
    forall c: nat ensures CountLabel(Resampled(rows, n, perms, least, m), c) == if 1 <= c <= n then m else 0 {
      CountConcat(blocks, m, c);
    }
    ConcatLength(blocks, m);
    ConcatRows(blocks, (x: Sample) => x in rows && 1 <= x.cls <= n);
  }

  /**
   * The least minority class is not shuffled and `m` is its size, so its
   * block is all of its rows in their original order.
   */
  lemma LeastBlockIsItsRows(rows: seq<Sample>, least: nat, perms: seq<seq<nat>>)
    requires least < |perms|
    ensures Picks(rows, least, OrderOf(rows, perms, least, least), CountLabel(rows, least)) == RowsOf(rows, least)
  {
    RowsOfBucket(rows, least);
    RowsOfClass(rows, least);
    BucketFacts(rows, least);
  }

  /** One block: the rows at the first `m` shuffled positions of a bucket. */
  method PickRows(rows: seq<Sample>, c: nat, bucket: seq<nat>, order: seq<nat>, m: nat)
    returns (block: seq<Sample>)
    requires EraseUnderSampling.IsPermutation(order, CountLabel(rows, c)) && m <= CountLabel(rows, c)
    requires bucket == Bucket(rows, c)
    ensures block == Picks(rows, c, order, m)
  {
    BucketFacts(rows, c);
    block := [];
    for j := 0 to m
      invariant block == Picks(rows, c, order, m)[..j]
    {
      block := block + [rows[bucket[order[j]]]];
    }
  }

  /** The sampling size: the count of the least minority class. */
  ghost function SamplingSize(rows: seq<Sample>, n: nat): nat
    requires n >= 1
  {
    CountLabel(rows, LeastClass(ClassCounts(rows, n), n))
  }

  /**
   * `RandomUnderSampling` of the RUS program.  The new training table is
   * the blocks of classes 1..n in order, each holding `m` rows picked
   * without replacement from its class, `m` the size of the least
   * minority class; the counts are recomputed to `m` per class.
   */
  method RandomUnderSampling(ds: DatasetInfo.Dataset, perms: seq<seq<nat>>)
    requires DatasetInfo.Consistent(ds)
    requires forall c :: 1 <= c <= ds.numClasses ==> CountLabel(ds.training, c) >= 1
    requires EraseUnderSampling.Shuffles(ds.training, ds.numClasses, perms)
    modifies ds
    ensures ds.numClasses == old(ds.numClasses) && ds.testing == old(ds.testing)
    ensures var n := ds.numClasses;
            var m := SamplingSize(old(ds.training), n);
            && (forall c :: 1 <= c <= n ==> m <= CountLabel(old(ds.training), c))
            && ds.training == Resampled(old(ds.training), n, perms, LeastClass(ClassCounts(old(ds.training), n), n), m)
    ensures forall c :: 1 <= c <= ds.numClasses ==>
              CountLabel(ds.training, c) == SamplingSize(old(ds.training), ds.numClasses)
    ensures |ds.training| == ds.numClasses * SamplingSize(old(ds.training), ds.numClasses)
    ensures ds.trainingCounts == ClassCounts(ds.training, ds.numClasses)
    ensures ds.testingCounts == ClassCounts(ds.testing, ds.numClasses)
  {
    var rows := ds.training;
    var n := ds.numClasses;
    var least := FindLeastMinorityClass(ds.trainingCounts, n);
    var m := ds.trainingCounts[least];
    LeastClassIsFirstMinimum(ds.trainingCounts, n);
    var buckets := BuildBuckets(rows, n);

    var out := BuildResampled(rows, n, perms, least, m, buckets);
    ResampledFacts(rows, n, perms, least, m);
    RefillRecord(ds, out, rows, m);
  }

  /** The class-by-class loop that appends each class's block of picks. */
  method BuildResampled(rows: seq<Sample>, n: nat, perms: seq<seq<nat>>, least: nat, m: nat,
                        buckets: seq<seq<nat>>) returns (out: seq<Sample>)
    requires EraseUnderSampling.Shuffles(rows, n, perms)
    requires forall c :: 1 <= c <= n ==> m <= CountLabel(rows, c)
    requires |buckets| == n + 1 && forall c :: 0 <= c <= n ==> buckets[c] == Bucket(rows, c)
    ensures out == Resampled(rows, n, perms, least, m)
  {
    ghost var blocks := Blocks(rows, n, perms, least, m);
    out := [];
    for c := 1 to n + 1
      invariant out == Concat(blocks[..c - 1])
    {
      var order := if c != least then perms[c] else Identity(|buckets[c]|);
      BucketFacts(rows, c);
      assert order == OrderOf(rows, perms, least, c);
      OrderIsPermutation(rows, n, perms, least, c);
      var block := PickRows(rows, c, buckets[c], order, m);
      BlockAt(rows, n, perms, least, m, c);
      ConcatSnoc(blocks, c);
      out := out + block;
    }
    assert blocks[..n] == blocks;
  }

  /** Installing the rebuilt table and recounting (`GetDatasetInfo` with `update`). */
  method RefillRecord(ds: DatasetInfo.Dataset, out: seq<Sample>, rows: seq<Sample>, m: nat)
    requires DatasetInfo.Consistent(ds) && ds.training == rows && m >= 1
    requires |out| == ds.numClasses * m
    requires forall k :: 0 <= k < |out| ==> out[k] in rows && 1 <= out[k].cls <= ds.numClasses
    modifies ds
    ensures ds.training == out && ds.testing == old(ds.testing) && ds.numClasses == old(ds.numClasses)
    ensures ds.trainingCounts == ClassCounts(out, ds.numClasses)
    ensures ds.testingCounts == ClassCounts(ds.testing, ds.numClasses)
  {
    assert out[0] in rows;
    ds.training := out;
    var ok := ds.GetDatasetInfo(true);
    assert ok;
  }
}
