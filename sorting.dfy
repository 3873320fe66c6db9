/**
 * Sorting by a real-valued key.  The program calls `std::sort` on feature
 * values and on (index, value, label) entries; a stable insertion sort
 * stands for it.  For plain values the sorted order is unique, so the choice
 * of algorithm does not matter; for entries whose keys tie, `std::sort`
 * leaves the order open, and the decision-tree model only ever relies on
 * "sorted and a permutation" for them.
 */
module Sorting {

  ghost predicate SortedBy<T>(s: seq<T>, key: T -> real)
  {
    forall i, j :: 0 <= i < j < |s| ==> key(s[i]) <= key(s[j])
  }

  ghost predicate Sorted(s: seq<real>)
  {
    forall i, j :: 0 <= i < j < |s| ==> s[i] <= s[j]
  }

  /** Insert `x` before the first element with a larger key. */
  function InsertBy<T>(x: T, s: seq<T>, key: T -> real): seq<T>
  {
    if s == [] then [x]
    else if key(x) < key(s[0]) then [x] + s
    else [s[0]] + InsertBy(x, s[1..], key)
  }

  lemma InsertByProperties<T>(x: T, s: seq<T>, key: T -> real)
    ensures multiset(InsertBy(x, s, key)) == multiset(s) + multiset{x}
    ensures SortedBy(s, key) ==> SortedBy(InsertBy(x, s, key), key)
  {
    InsertByMultiset(x, s, key);
    if SortedBy(s, key) {
      InsertBySorted(x, s, key);
    }
  }

  lemma {:induction false} InsertByMultiset<T>(x: T, s: seq<T>, key: T -> real)
    ensures multiset(InsertBy(x, s, key)) == multiset(s) + multiset{x}
  {
    if s != [] && key(x) >= key(s[0]) {
      InsertByMultiset(x, s[1..], key);
      assert s == [s[0]] + s[1..];
    }
  }

  lemma {:induction false} InsertBySorted<T>(x: T, s: seq<T>, key: T -> real)
    requires SortedBy(s, key)
    ensures SortedBy(InsertBy(x, s, key), key)
  {
    if s != [] && key(x) >= key(s[0]) {
      InsertBySorted(x, s[1..], key);
      InsertByMultiset(x, s[1..], key);
      var rest := InsertBy(x, s[1..], key);
      KeyLowerBound(key(s[0]), rest, s[1..], x, key);
      assert InsertBy(x, s, key) == [s[0]] + rest;
    }
  }

  /** A lower bound on the keys of `pool` and of `x` bounds any permutation of them. */
  lemma KeyLowerBound<T>(lo: real, rest: seq<T>, pool: seq<T>, x: T, key: T -> real)
    requires multiset(rest) == multiset(pool) + multiset{x}
    requires lo <= key(x) && forall k :: 0 <= k < |pool| ==> lo <= key(pool[k])
    ensures forall k :: 0 <= k < |rest| ==> lo <= key(rest[k])
  {
    forall k | 0 <= k < |rest| ensures lo <= key(rest[k]) {
      assert rest[k] in multiset(rest);
      assert rest[k] in multiset(pool) || rest[k] == x;
    }
  }

  /** A stable insertion sort by `key`. */
  function SortBy<T>(s: seq<T>, key: T -> real): (r: seq<T>)
    ensures multiset(r) == multiset(s) && |r| == |s|
    ensures SortedBy(r, key)
  {
    if s == [] then []
    else
      assert s == s[..|s| - 1] + [s[|s| - 1]];
      InsertByProperties(s[|s| - 1], SortBy(s[..|s| - 1], key), key);
      InsertBy(s[|s| - 1], SortBy(s[..|s| - 1], key), key)
  }

  /** The values of `s` in ascending order. */
  function Sort(s: seq<real>): (r: seq<real>)
    ensures multiset(r) == multiset(s) && |r| == |s|
    ensures Sorted(r)
  {
    var r := SortBy(s, x => x);
    assert forall i, j :: 0 <= i < j < |r| ==> (x => x)(r[i]) <= (x => x)(r[j]);
    r
  }

  /** Two ascending sequences with the same elements are equal. */
  lemma {:induction false} SortedUnique(a: seq<real>, b: seq<real>)
    requires Sorted(a) && Sorted(b) && multiset(a) == multiset(b)
    ensures a == b
    decreases |a|
  {
    if a == [] {
      assert |b| == |multiset(b)| == 0;
    } else {
      SortedSameHead(a, b);
      DropHead(a, b);
      SortedUnique(a[1..], b[1..]);
      assert a == [a[0]] + a[1..] && b == [b[0]] + b[1..];
    }
  }

  /** Two ascending permutations of each other start with the same (smallest) value. */
  lemma SortedSameHead(a: seq<real>, b: seq<real>)
    requires Sorted(a) && Sorted(b) && multiset(a) == multiset(b) && a != []
    ensures |b| == |a| && b[0] == a[0]
  {
    assert |b| == |multiset(b)| == |multiset(a)| == |a|;
    assert a[0] in multiset(b) && b[0] in multiset(a);
    var i :| 0 <= i < |b| && b[i] == a[0];
    var j :| 0 <= j < |a| && a[j] == b[0];
    assert a[0] <= a[j] && b[0] <= b[i];
  }

  /** Dropping the same first value from two ascending permutations leaves ascending permutations. */
  lemma DropHead(a: seq<real>, b: seq<real>)
    requires Sorted(a) && Sorted(b) && multiset(a) == multiset(b)
    requires a != [] && b != [] && a[0] == b[0]
    ensures Sorted(a[1..]) && Sorted(b[1..]) && multiset(a[1..]) == multiset(b[1..])
  {
    assert a == [a[0]] + a[1..] && b == [b[0]] + b[1..];
    assert multiset(a[1..]) == multiset(a) - multiset{a[0]};
    assert multiset(b[1..]) == multiset(b) - multiset{b[0]};
  }

  /** Every element of a sequence appears in its sorted form and vice versa. */
  lemma SortMembers(s: seq<real>, x: real)
    ensures x in Sort(s) <==> x in s
  {
    var r := Sort(s);
    assert x in r <==> x in multiset(r);
    assert x in s <==> x in multiset(s);
  }
}
