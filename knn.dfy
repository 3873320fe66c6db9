/**
 * Nearest-neighbour selection, in the two forms the resamplers use: a
 * bounded max-heap fed every candidate row (push, then pop the farthest
 * once it holds more than `k`), and a full sort of the distance table
 * followed by reading positions 1..k.
 *
 * Both work on `d`, the distances from one query row to every row.  Which
 * of several equally distant rows survives depends on heap and sort
 * internals the program does not fix; the contracts here hold for any
 * such choice.
 */
module Neighbours {
  import opened Samples
  import Sorting

  /** The distances from row `i` to every row. */
  function DistancesFrom(rows: seq<Sample>, i: nat, dist: (seq<real>, seq<real>) -> real): (d: seq<real>)
    requires i < |rows|
    ensures |d| == |rows|
  {
    seq(|rows|, j requires 0 <= j < |rows| => dist(rows[i].features, rows[j].features))
  }

  /** Rows below `j` that are candidates, i.e. all but `skip`. */
  function CandidatesBelow(j: nat, skip: int): nat
  {
    if 0 <= skip < j then j - 1 else j
  }

  function Min(a: nat, b: nat): nat
  {
    if a <= b then a else b
  }

  ghost predicate Distinct(s: seq<nat>)
  {
    forall a, b :: 0 <= a < b < |s| ==> s[a] != s[b]
  }

  /**
   * `kept` is a choice of the `k` nearest candidates among rows 0..j-1
   * (all of them when there are fewer): distinct candidates, as many as
   * possible up to `k`, none farther than a candidate left out.
   */
  ghost predicate NearestAmong(d: seq<real>, skip: int, k: nat, j: nat, kept: seq<nat>)
    requires j <= |d|
  {
    && (forall a :: 0 <= a < |kept| ==> kept[a] < j && kept[a] != skip)
    && Distinct(kept)
    && |kept| == Min(k, CandidatesBelow(j, skip))
    && (forall a, y :: 0 <= a < |kept| && 0 <= y < j && y != skip && y !in kept ==> d[kept[a]] <= d[y])
  }

  /** The heap's invariant: as above, and a candidate is left out only once the heap is full. */
  ghost predicate HeapState(d: seq<real>, skip: int, k: nat, j: nat, kept: seq<nat>)
    requires j <= |d|
  {
    && NearestAmong(d, skip, k, j, kept)
    && (forall y :: 0 <= y < j && y != skip && y !in kept ==> |kept| == k)
  }

  /** The position in `kept` of the first farthest row. */
  method Farthest(d: seq<real>, kept: seq<nat>) returns (r: nat)
    requires kept != [] && forall a :: 0 <= a < |kept| ==> kept[a] < |d|
    ensures r < |kept| && forall a :: 0 <= a < |kept| ==> d[kept[a]] <= d[kept[r]]
  {
    r := 0;
    for a := 1 to |kept|
      invariant r < |kept| && forall b :: 0 <= b < a ==> d[kept[b]] <= d[kept[r]]
    {
      if d[kept[a]] > d[kept[r]] {
        r := a;
      }
    }
  }

  /** Removing position `r` of a list without duplicates removes exactly that value. */
  lemma RemoveAt(s: seq<nat>, r: nat)
    requires Distinct(s) && r < |s|
    ensures |s[..r] + s[r + 1..]| == |s| - 1
    ensures Distinct(s[..r] + s[r + 1..])
    ensures forall x :: x in s[..r] + s[r + 1..] <==> x in s && x != s[r]
  {
    var t := s[..r] + s[r + 1..];
    assert forall a :: 0 <= a < |t| ==> t[a] == if a < r then s[a] else s[a + 1];
    forall x | x in s && x != s[r] ensures x in t {
      var a :| 0 <= a < |s| && s[a] == x;
      if a < r {
        assert t[a] == x;
      } else {
        assert t[a - 1] == x;
      }
    }
  }

  /** One push of candidate `j`, then a pop of the farthest if the heap holds more than `k`. */
  method Push(d: seq<real>, skip: int, k: nat, j: nat, kept: seq<nat>) returns (kept': seq<nat>)
    requires j < |d| && j != skip
    requires HeapState(d, skip, k, j, kept)
    ensures HeapState(d, skip, k, j + 1, kept')
  {
    kept' := kept + [j];
    if |kept'| > k {
      var r := Farthest(d, kept');
      PopKeepsState(d, skip, k, j, kept, r);
      kept' := kept'[..r] + kept'[r + 1..];
    } else {
      PushKeepsState(d, skip, k, j, kept);
    }
  }

  /** Pushing onto a heap that is not full: nothing has been left out yet. */
  lemma PushKeepsState(d: seq<real>, skip: int, k: nat, j: nat, kept: seq<nat>)
    requires j < |d| && j != skip
    requires HeapState(d, skip, k, j, kept) && |kept| < k
    ensures HeapState(d, skip, k, j + 1, kept + [j])
  {
    var K := kept + [j];
    assert forall a :: 0 <= a < |kept| ==> K[a] == kept[a];
    assert forall y :: 0 <= y < j && y != skip ==> y in kept;
  }

  /** Pushing onto a full heap and popping its farthest row keeps `k` nearest. */
  lemma PopKeepsState(d: seq<real>, skip: int, k: nat, j: nat, kept: seq<nat>, r: nat)
    requires j < |d| && j != skip
    requires HeapState(d, skip, k, j, kept) && |kept + [j]| > k
    requires r < |kept + [j]| && forall a :: 0 <= a < |kept + [j]| ==> d[(kept + [j])[a]] <= d[(kept + [j])[r]]
    ensures HeapState(d, skip, k, j + 1, (kept + [j])[..r] + (kept + [j])[r + 1..])
  {
    var K := kept + [j];
    var x := K[r];
    assert forall a :: 0 <= a < |kept| ==> K[a] == kept[a];
    assert Distinct(K);
    RemoveAt(K, r);
    var K' := K[..r] + K[r + 1..];
    assert |kept| == k;
    assert K[|kept|] == j;
    assert d[j] <= d[x];
    forall a, y | 0 <= a < |K'| && 0 <= y < j + 1 && y != skip && y !in K'
      ensures d[K'[a]] <= d[y]
    {
      var e := K'[a];
      assert e in K' && e in K;
      if y != x {
        assert y !in K;
        assert y < j && y !in kept;
        if e == j {
          assert x in kept;
        } else {
          assert e in kept;
        }
      }
    }
  }

  /**
   * `SameAsMajorityInKNN`'s heap: the `k` nearest rows to the query among
   * all rows but `skip`, or every candidate when there are fewer.
   */
  method HeapNearest(d: seq<real>, skip: int, k: nat) returns (kept: seq<nat>)
    ensures NearestAmong(d, skip, k, |d|, kept)
  {
    kept := [];
    for j := 0 to |d|
      invariant HeapState(d, skip, k, j, kept)
    {
      if j != skip {
        kept := Push(d, skip, k, j, kept);
      }
    }
  }

  // ---------------------------------------------------------------------
  // The sorted distance table.
  // ---------------------------------------------------------------------

  /** The positions 0..n-1. */
  function Indices(n: nat): (s: seq<nat>)
    ensures |s| == n && forall a :: 0 <= a < n ==> s[a] == a
  {
    seq(n, a => a)
  }

  /** A list holding each value at most once per multiset occurrence has no duplicates. */
  lemma DistinctOfMultiset(s: seq<nat>, n: nat)
    requires multiset(s) == multiset(Indices(n))
    ensures Distinct(s) && forall a :: 0 <= a < |s| ==> s[a] < n
    ensures forall y :: 0 <= y < n ==> y in s
  {
    forall a | 0 <= a < |s| ensures s[a] < n {
      assert s[a] in multiset(Indices(n));
    }
    forall y | 0 <= y < n ensures y in s {
      assert Indices(n)[y] == y;
      assert y in multiset(Indices(n));
    }
    forall a, b | 0 <= a < b < |s| ensures s[a] != s[b] {
      if s[a] == s[b] {
        var x := s[a];
        assert s == s[..b] + s[b..];
        assert x in s[..b] && x in s[b..];
        assert multiset(s)[x] == multiset(s[..b])[x] + multiset(s[b..])[x];
        assert multiset(s)[x] >= 2;
        MultiplicityOne(n, x);
      }
    }
  }

  lemma MultiplicityOne(n: nat, x: nat)
    ensures multiset(Indices(n))[x] <= 1
  {
    if n > 0 {
      assert Indices(n) == Indices(n - 1) + [n - 1];
      MultiplicityOne(n - 1, x);
    }
  }

  /** The distance of a position, as the sort key. */
  function KeyOf(d: seq<real>): nat -> real
  {
    (j: nat) => if j < |d| then d[j] else 0.0
  }

  /**
   * `FindKNearestNeighbors`: sort every row by distance and read table
   * positions 1..k.  Position 0 holds a nearest row `z` (normally the query
   * itself), which is left out; the `k` rows read are the nearest of the
   * rest.
   */
  method SortedNearest(d: seq<real>, k: nat) returns (nn: seq<nat>)
    requires k < |d|
    ensures |nn| == k && Distinct(nn) && forall a :: 0 <= a < k ==> nn[a] < |d|
    ensures exists z :: 0 <= z < |d| && z !in nn
              && (forall y :: 0 <= y < |d| ==> d[z] <= d[y])
              && (forall a, y :: 0 <= a < k && 0 <= y < |d| && y != z && y !in nn ==> d[nn[a]] <= d[y])
  {
    var table := Sorting.SortBy(Indices(|d|), KeyOf(d));
    nn := ReadPositions(table, k);
    SortedTableFacts(d, table, k);
    ghost var z := table[0];
    assert z < |d| && z !in nn;
    assert forall y :: 0 <= y < |d| ==> d[z] <= d[y];
    assert forall a, y :: 0 <= a < k && 0 <= y < |d| && y != z && y !in nn ==> d[nn[a]] <= d[y];
  }

  /** Table positions 1..k. */
  method ReadPositions(table: seq<nat>, k: nat) returns (nn: seq<nat>)
    requires k < |table|
    ensures nn == table[1..k + 1]
  {
    nn := [];
    for i := 0 to k
      invariant nn == table[1..i + 1]
    {
      nn := nn + [table[i + 1]];
    }
  }

  /** What a sorted permutation of the positions gives when read at 1..k. */
  lemma SortedTableFacts(d: seq<real>, table: seq<nat>, k: nat)
    requires k < |d| == |table| && multiset(table) == multiset(Indices(|d|)) && Sorting.SortedBy(table, KeyOf(d))
    ensures var nn := table[1..k + 1];
            && |nn| == k && Distinct(nn) && (forall a :: 0 <= a < k ==> nn[a] < |d|)
            && table[0] < |d| && table[0] !in nn
            && (forall y :: 0 <= y < |d| ==> d[table[0]] <= d[y])
            && (forall a, y :: 0 <= a < k && 0 <= y < |d| && y != table[0] && y !in nn ==> d[nn[a]] <= d[y])
  {
    DistinctOfMultiset(table, |d|);
    var nn := table[1..k + 1];
    var z := table[0];
    assert forall a :: 0 <= a < k ==> nn[a] == table[a + 1];
    forall y | 0 <= y < |d| ensures d[z] <= d[y] {
      assert y in table;
      var p :| 0 <= p < |table| && table[p] == y;
      if p > 0 {
        assert KeyOf(d)(table[0]) <= KeyOf(d)(table[p]);
      }
    }
    forall a, y | 0 <= a < k && 0 <= y < |d| && y != z && y !in nn ensures d[nn[a]] <= d[y] {
      assert y in table;
      var p :| 0 <= p < |table| && table[p] == y;
      assert KeyOf(d)(table[a + 1]) <= KeyOf(d)(table[p]);
    }
  }

  /**
   * With a distance the query row is at distance 0 from itself, so the
   * row at position 0 is at distance 0 too: the query is among the `k`
   * read only if another row coincides with it.
   */
  lemma QueryOnlyBesideDuplicate(rows: seq<Sample>, i: nat, dist: (seq<real>, seq<real>) -> real,
                                 nn: seq<nat>, z: nat)
    requires IsDistance(dist) && i < |rows| && z < |rows|
    requires z !in nn
    requires forall y :: 0 <= y < |rows| ==> DistancesFrom(rows, i, dist)[z] <= DistancesFrom(rows, i, dist)[y]
    requires i in nn
    ensures z != i && dist(rows[i].features, rows[z].features) == 0.0
  {
    var d := DistancesFrom(rows, i, dist);
    assert d[i] == dist(rows[i].features, rows[i].features) == 0.0;
    assert d[z] == dist(rows[i].features, rows[z].features) >= 0.0;
  }

  // ---------------------------------------------------------------------
  // Voting.
  // ---------------------------------------------------------------------

  /** Every entry of `nb` is a row position. */
  ghost predicate Within(nb: seq<nat>, len: nat)
  {
    forall a :: 0 <= a < |nb| ==> nb[a] < len
  }

  /** Every neighbour list holds row positions only. */
  ghost predicate AllWithin(nbrs: seq<seq<nat>>, len: nat)
  {
    forall i, a :: 0 <= i < |nbrs| && 0 <= a < |nbrs[i]| ==> nbrs[i][a] < len
  }

  /** How many of the neighbours `nbrs` carry label `c`. */
  function CountSame(rows: seq<Sample>, nbrs: seq<nat>, c: nat): (same: nat)
    requires forall a :: 0 <= a < |nbrs| ==> nbrs[a] < |rows|
    ensures same <= |nbrs|
  {
    if nbrs == [] then 0
    else CountSame(rows, nbrs[..|nbrs| - 1], c) + (if rows[nbrs[|nbrs| - 1]].cls == c then 1 else 0)
  }

  /** All neighbours share label `c` exactly when the count reaches their number. */
  lemma {:induction false} CountSameAll(rows: seq<Sample>, nbrs: seq<nat>, c: nat)
    requires forall a :: 0 <= a < |nbrs| ==> nbrs[a] < |rows|
    ensures CountSame(rows, nbrs, c) == |nbrs| <==> forall a :: 0 <= a < |nbrs| ==> rows[nbrs[a]].cls == c
  {
    if nbrs != [] {
      CountSameAll(rows, nbrs[..|nbrs| - 1], c);
    }
  }

  /** The counting loop over the neighbours. */
  method CountSameLabel(rows: seq<Sample>, nbrs: seq<nat>, c: nat) returns (same: nat)
    requires forall a :: 0 <= a < |nbrs| ==> nbrs[a] < |rows|
    ensures same == CountSame(rows, nbrs, c)
  {
    same := 0;
    for a := 0 to |nbrs|
      invariant same == CountSame(rows, nbrs[..a], c)
    {
      assert nbrs[..a + 1][..a] == nbrs[..a];
      if rows[nbrs[a]].cls == c {
        same := same + 1;
      }
    }
    assert nbrs[..|nbrs|] == nbrs;
  }

  /**
   * The vote of `SameAsMajorityInKNN`: the share of same-label neighbours
   * out of `k` exceeds one half; with `k == 0` the share is 0/0, which is
   * not a number and compares false.
   */
  function MajorityVote(same: nat, k: nat): bool
  {
    k > 0 && (same as real) / (k as real) > 0.5
  }

  /** The vote is a strict majority: twice the count exceeds `k`. */
  lemma MajorityVoteIsStrictMajority(same: nat, k: nat)
    ensures MajorityVote(same, k) <==> k > 0 && 2 * same > k
  {
    if k > 0 {
      var q := (same as real) / (k as real);
      assert q * (k as real) == same as real;
      if 2 * same > k {
        assert (2 * same) as real > k as real;
        assert q > 0.5 by {
          if q <= 0.5 {
            assert false;
          }
        }
      } else {
        assert (2 * same) as real <= k as real;
        assert q <= 0.5 by {
          if q > 0.5 {
            assert false;
          }
        }
      }
    }
  }

  /** A unanimous vote of at least one neighbour is a majority vote. */
  lemma UnanimousIsMajority(same: nat, k: nat)
    requires k >= 1 && same == k
    ensures MajorityVote(same, k)
  {
    MajorityVoteIsStrictMajority(same, k);
  }
}
