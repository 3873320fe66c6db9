/**
 * The per-feature tables of the tree in `src/`: for every feature, one
 * (row index, value, label) entry per training row, sorted by value.  A
 * partition is a mask over row indices, and walking a table while skipping
 * the rows outside the mask visits the partition in ascending value order.
 *
 * The lemmas here connect such a visit to the index-list partitions of
 * `TreeSpec`: the visit is a permutation of the partition, its values are
 * the partition's sorted values, and splitting it at a position between two
 * distinct values gives the two sides of `Below`/`Above` at their midpoint.
 */
module EntryTable {
  import opened Samples
  import opened Gini
  import opened Sorting
  import opened TreeSpec
  import opened TreeLoops

  /** One entry of a feature's table: the row's index, its value of that feature, and its label. */
  datatype Entry = Entry(idx: nat, attr: real, cls: nat)

  function AttrOf(e: Entry): real { e.attr }

  function IdxOf(e: Entry): nat { e.idx }

  /** `g` applied to every element. */
  function Image<T, U>(s: seq<T>, g: T -> U): (r: seq<U>)
    ensures |r| == |s| && forall j :: 0 <= j < |s| ==> r[j] == g(s[j])
  {
    seq(|s|, j requires 0 <= j < |s| => g(s[j]))
  }

  /** The entries of feature `f` in row order, as the table is filled before sorting. */
  function Tagged(rows: seq<Sample>, f: nat): (es: seq<Entry>)
    requires HasFeature(rows, f)
    ensures |es| == |rows|
    ensures forall i :: 0 <= i < |rows| ==> es[i] == Entry(i, rows[i].features[f], rows[i].cls)
  {
    seq(|rows|, i requires 0 <= i < |rows| => Entry(i, rows[i].features[f], rows[i].cls))
  }

  /** The table of feature `f`: the rows' entries in some order of ascending value. */
  ghost predicate SortedColumn(rows: seq<Sample>, f: nat, T: seq<Entry>)
  {
    HasFeature(rows, f) && multiset(T) == multiset(Tagged(rows, f)) && SortedBy(T, AttrOf)
  }

  /** One sorted table per feature. */
  ghost predicate TableOf(rows: seq<Sample>, table: seq<seq<Entry>>, d: nat)
  {
    Width(rows, d) && |table| == d && forall f :: 0 <= f < d ==> SortedColumn(rows, f, table[f])
  }

  /** Position `p` is a row of the partition. */
  function ExistingMask(T: seq<Entry>, mask: seq<bool>): (em: seq<bool>)
    ensures |em| == |T|
    ensures forall p :: 0 <= p < |T| ==> em[p] == (T[p].idx < |mask| && mask[T[p].idx])
  {
    seq(|T|, p requires 0 <= p < |T| => T[p].idx < |mask| && mask[T[p].idx])
  }

  /** Row indices of the partition in the order the table lists them. */
  ghost function Visit(T: seq<Entry>, mask: seq<bool>): seq<nat>
  {
    Image<Entry, nat>(Keep(T, ExistingMask(T, mask)), IdxOf)
  }

  /** Each entry of a table is the entry of the row it names. */
  lemma ColumnEntries(rows: seq<Sample>, f: nat, T: seq<Entry>)
    requires SortedColumn(rows, f, T)
    ensures |T| == |rows|
    ensures forall p :: 0 <= p < |T| ==>
      T[p].idx < |rows| && T[p].attr == rows[T[p].idx].features[f] && T[p].cls == rows[T[p].idx].cls
  {
    assert |T| == |multiset(T)| == |multiset(Tagged(rows, f))| == |rows|;
    forall p | 0 <= p < |T|
      ensures T[p].idx < |rows| && T[p].attr == rows[T[p].idx].features[f] && T[p].cls == rows[T[p].idx].cls
    {
      assert T[p] in multiset(Tagged(rows, f));
      var i :| 0 <= i < |rows| && Tagged(rows, f)[i] == T[p];
    }
  }

  lemma ImageAppend<T, U>(a: seq<T>, b: seq<T>, g: T -> U)
    ensures Image(a + b, g) == Image(a, g) + Image(b, g)
  {
  }

  /** Removing the same element from two permutations of each other leaves permutations. */
  lemma RemoveFromBoth<T>(a1: seq<T>, x: T, b1: seq<T>, b2: seq<T>)
    requires multiset(a1 + [x]) == multiset(b1 + [x] + b2)
    ensures multiset(a1) == multiset(b1 + b2)
  {
    assert multiset(a1) + multiset{x} == multiset(b1 + b2) + multiset{x};
    forall y ensures multiset(a1)[y] == multiset(b1 + b2)[y] {
      assert (multiset(a1) + multiset{x})[y] == (multiset(b1 + b2) + multiset{x})[y];
    }
  }

  /** The image of a sequence with one element inserted. */
  lemma ImageSplice<T, U>(b1: seq<T>, x: T, b2: seq<T>, g: T -> U)
    ensures multiset(Image(b1 + [x] + b2, g)) == multiset(Image(b1 + b2, g)) + multiset{g(x)}
  {
    ImageAppend(b1 + [x], b2, g);
    ImageAppend(b1, [x], g);
    ImageAppend(b1, b2, g);
    assert Image([x], g) == [g(x)];
  }

  /** Permuting a sequence permutes its image. */
  lemma {:induction false} ImagePermutation<T, U>(a: seq<T>, b: seq<T>, g: T -> U)
    requires multiset(a) == multiset(b)
    ensures multiset(Image(a, g)) == multiset(Image(b, g))
    decreases |a|
  {
    if a == [] {
      assert |b| == |multiset(b)| == 0;
    } else {
      var k := |a| - 1;
      var x := a[k];
      var a1 := a[..k];
      assert a == a1 + [x];
      assert x in multiset(b);
      var i :| 0 <= i < |b| && b[i] == x;
      var b1, b2 := b[..i], b[i + 1..];
      assert b == b1 + [x] + b2;
      RemoveFromBoth(a1, x, b1, b2);
      ImagePermutation(a1, b1 + b2, g);
      ImageAppend(a1, [x], g);
      assert Image([x], g) == [g(x)];
      ImageSplice(b1, x, b2, g);
    }
  }

  lemma {:induction false} MembersMultiplicity(mask: seq<bool>, x: nat)
    ensures multiset(Members(mask))[x] == if x < |mask| && mask[x] then 1 else 0
  {
    if mask != [] {
      var k := |mask| - 1;
      MembersMultiplicity(mask[..k], x);
      assert Members(mask) == Members(mask[..k]) + (if mask[k] then [k] else []);
    }
  }

  lemma IndicesMultiplicity(m: nat, x: nat)
    ensures multiset(Indices(m))[x] == if x < m then 1 else 0
  {
    var all := seq(m, _ => true);
    MembersOfAll(all);
    MembersMultiplicity(all, x);
  }

  /** Visiting one more position of the table. */
  lemma VisitSnoc(T: seq<Entry>, mask: seq<bool>)
    requires T != []
    ensures var k := |T| - 1;
            Visit(T, mask) == Visit(T[..k], mask) + (if ExistingMask(T, mask)[k] then [T[k].idx] else [])
            && Image<Entry, nat>(T, IdxOf) == Image<Entry, nat>(T[..k], IdxOf) + [T[k].idx]
  {
    var k := |T| - 1;
    var em := ExistingMask(T, mask);
    assert ExistingMask(T[..k], mask) == em[..k];
    var tail := if em[k] then [T[k]] else [];
    assert Keep(T, em) == Keep(T[..k], em[..k]) + tail;
    ImageAppend<Entry, nat>(Keep(T[..k], em[..k]), tail, IdxOf);
  }

  lemma {:induction false} VisitMultiplicity(T: seq<Entry>, mask: seq<bool>, x: nat)
    ensures multiset(Visit(T, mask))[x] == if x < |mask| && mask[x] then multiset(Image<Entry, nat>(T, IdxOf))[x] else 0
    decreases |T|
  {
    if T != [] {
      var k := |T| - 1;
      VisitMultiplicity(T[..k], mask, x);
      VisitSnoc(T, mask);
      var em := ExistingMask(T, mask);
      var y := T[k].idx;
      assert Image<Entry, nat>(T, IdxOf) == Image<Entry, nat>(T[..k], IdxOf) + [y];
      assert multiset(Image<Entry, nat>(T, IdxOf)) == multiset(Image<Entry, nat>(T[..k], IdxOf)) + multiset{y};
      assert em[k] == (y < |mask| && mask[y]);
      var tail := if em[k] then [y] else [];
      assert Visit(T, mask) == Visit(T[..k], mask) + tail;
      assert multiset(Visit(T, mask)) == multiset(Visit(T[..k], mask)) + multiset(tail);
      assert multiset(Visit(T, mask))[x] == multiset(Visit(T[..k], mask))[x] + (if em[k] && y == x then 1 else 0);
    }
  }

  function RowAt(rows: seq<Sample>): nat -> Sample
  {
    (x: nat) => if x < |rows| then rows[x] else Sample([], 0)
  }

  function FeatureAt(rows: seq<Sample>, f: nat): nat -> real
  {
    (x: nat) => if x < |rows| && f < |rows[x].features| then rows[x].features[f] else 0.0
  }

  /** Two orders of the same partition hold the same class counts. */
  lemma PartCountsPermutation(rows: seq<Sample>, P: seq<nat>, Q: seq<nat>, n: nat)
    requires InRows(rows, P) && InRows(rows, Q) && multiset(P) == multiset(Q)
    ensures PartCounts(rows, P, n) == PartCounts(rows, Q, n)
  {
    assert Gather(rows, P) == Image(P, RowAt(rows));
    assert Gather(rows, Q) == Image(Q, RowAt(rows));
    ImagePermutation(P, Q, RowAt(rows));
    forall c | 0 <= c <= n ensures PartCounts(rows, P, n)[c] == PartCounts(rows, Q, n)[c] {
      CountLabelPermutation(Gather(rows, P), Gather(rows, Q), c);
    }
  }

  /** Two orders of the same partition hold the same values. */
  lemma ValuesPermutation(rows: seq<Sample>, P: seq<nat>, Q: seq<nat>, f: nat)
    requires InRows(rows, P) && InRows(rows, Q) && HasFeature(rows, f) && multiset(P) == multiset(Q)
    ensures multiset(Values(rows, P, f)) == multiset(Values(rows, Q, f))
  {
    assert Values(rows, P, f) == Image(P, FeatureAt(rows, f));
    assert Values(rows, Q, f) == Image(Q, FeatureAt(rows, f));
    ImagePermutation(P, Q, FeatureAt(rows, f));
  }

  lemma TaggedIndices(rows: seq<Sample>, f: nat)
    requires HasFeature(rows, f)
    ensures Image<Entry, nat>(Tagged(rows, f), IdxOf) == Indices(|rows|)
  {
  }

  lemma VisitMultiset(rows: seq<Sample>, f: nat, T: seq<Entry>, mask: seq<bool>)
    requires SortedColumn(rows, f, T) && |mask| == |rows|
    ensures multiset(Visit(T, mask)) == multiset(Members(mask))
  {
    var Q: seq<nat> := Visit(T, mask);
    ImagePermutation<Entry, nat>(T, Tagged(rows, f), IdxOf);
    TaggedIndices(rows, f);
    forall x: nat ensures multiset(Q)[x] == multiset(Members(mask))[x] {
      VisitMultiplicity(T, mask, x);
      IndicesMultiplicity(|rows|, x);
      MembersMultiplicity(mask, x);
    }
    assert multiset(Q) == multiset(Members(mask));
  }

  /** The visit lists the rows of the partition, each once. */
  lemma VisitPermutation(rows: seq<Sample>, f: nat, T: seq<Entry>, mask: seq<bool>)
    requires SortedColumn(rows, f, T) && |mask| == |rows|
    ensures InRows(rows, Members(mask)) && InRows(rows, Visit(T, mask))
    ensures multiset(Visit(T, mask)) == multiset(Members(mask))
    ensures |Visit(T, mask)| == Trues(ExistingMask(T, mask)) == |Members(mask)|
  {
    VisitMultiset(rows, f, T, mask);
    KeepIsSelection(T, ExistingMask(T, mask));
    KeepIsSelection(rows, mask);
    var Q: seq<nat> := Visit(T, mask);
    assert |Q| == |multiset(Q)| == |multiset(Members(mask))| == |Members(mask)|;
    forall j | 0 <= j < |Q| ensures Q[j] < |rows| {
      assert Q[j] in multiset(Members(mask));
    }
  }

  /** The visit lists the partition's values in ascending order. */
  lemma VisitSorted(rows: seq<Sample>, f: nat, T: seq<Entry>, mask: seq<bool>)
    requires SortedColumn(rows, f, T) && |mask| == |rows| && InRows(rows, Visit(T, mask))
    ensures Values(rows, Visit(T, mask), f) == Image(Keep(T, ExistingMask(T, mask)), AttrOf)
    ensures Sorted(Values(rows, Visit(T, mask), f))
  {
    ColumnEntries(rows, f, T);
    var em := ExistingMask(T, mask);
    var X := Keep(T, em);
    KeepIsSelection(T, em);
    var sv := Values(rows, Visit(T, mask), f);
    assert sv == Image(X, AttrOf);
    forall i, j | 0 <= i < j < |sv| ensures sv[i] <= sv[j] {
      assert Members(em)[i] < Members(em)[j];
      assert AttrOf(T[Members(em)[i]]) <= AttrOf(T[Members(em)[j]]);
    }
  }

  /**
   * The visit of a table is the partition in ascending value order: a
   * permutation of the partition whose values are its sorted values.
   */
  lemma VisitFacts(rows: seq<Sample>, f: nat, T: seq<Entry>, mask: seq<bool>)
    requires SortedColumn(rows, f, T) && |mask| == |rows|
    ensures InRows(rows, Members(mask)) && InRows(rows, Visit(T, mask))
    ensures multiset(Visit(T, mask)) == multiset(Members(mask))
    ensures |Visit(T, mask)| == Trues(ExistingMask(T, mask)) == |Members(mask)|
    ensures Values(rows, Visit(T, mask), f) == Image(Keep(T, ExistingMask(T, mask)), AttrOf)
    ensures Values(rows, Visit(T, mask), f) == Sort(Values(rows, Members(mask), f))
  {
    VisitPermutation(rows, f, T, mask);
    VisitSorted(rows, f, T, mask);
    ValuesPermutation(rows, Visit(T, mask), Members(mask), f);
    SortedUnique(Values(rows, Visit(T, mask), f), Sort(Values(rows, Members(mask), f)));
  }

  /** The table's first value is the smallest value of the feature over all rows. */
  lemma ColumnMinimum(rows: seq<Sample>, f: nat, T: seq<Entry>)
    requires SortedColumn(rows, f, T) && |rows| > 0
    ensures |T| == |rows| && T[0].attr == Sort(Values(rows, Indices(|rows|), f))[0]
  {
    ColumnEntries(rows, f, T);
    ImagePermutation(T, Tagged(rows, f), AttrOf);
    assert Image(Tagged(rows, f), AttrOf) == Values(rows, Indices(|rows|), f);
    var sv := Image(T, AttrOf);
    assert Sorted(sv);
    SortedUnique(sv, Sort(Values(rows, Indices(|rows|), f)));
  }

  /** The `k`-th row of the visit sits at position `p` when `p` is the `k`-th existing position. */
  lemma VisitAt(rows: seq<Sample>, f: nat, T: seq<Entry>, mask: seq<bool>, p: nat)
    requires SortedColumn(rows, f, T) && |mask| == |rows| && p < |T|
    ensures InRows(rows, Visit(T, mask))
    ensures var em := ExistingMask(T, mask);
            Trues(em[..p + 1]) == Trues(em[..p]) + (if em[p] then 1 else 0)
            && Trues(em[..p + 1]) <= |Visit(T, mask)|
            && (em[p] ==> Visit(T, mask)[Trues(em[..p])] == T[p].idx
                          && Values(rows, Visit(T, mask), f)[Trues(em[..p])] == T[p].attr)
  {
    var em := ExistingMask(T, mask);
    VisitFacts(rows, f, T, mask);
    assert T == T[..p + 1] + T[p + 1..] && em == em[..p + 1] + em[p + 1..];
    KeepAppend(T[..p + 1], T[p + 1..], em[..p + 1], em[p + 1..]);
    assert T[..p + 1][..p] == T[..p] && em[..p + 1][..p] == em[..p];
    assert Keep(T[..p + 1], em[..p + 1]) == Keep(T[..p], em[..p]) + (if em[p] then [T[p]] else []);
    KeepIsSelection(T[..p], em[..p]);
    KeepIsSelection(T[..p + 1], em[..p + 1]);
    KeepIsSelection(T, em);
  }

  lemma {:induction false} BelowMultiplicity(rows: seq<Sample>, P: seq<nat>, f: nat, t: real, x: nat)
    requires InRows(rows, P) && HasFeature(rows, f)
    ensures multiset(Below(rows, P, f, t))[x]
            == if x < |rows| && rows[x].features[f] <= t then multiset(P)[x] else 0
  {
    if P != [] {
      var k := |P| - 1;
      var front := P[..k];
      BelowMultiplicity(rows, front, f, t, x);
      assert P == front + [P[k]];
      var last := if rows[P[k]].features[f] <= t then [P[k]] else [];
      assert Below(rows, P, f, t) == Below(rows, front, f, t) + last;
      assert multiset(Below(rows, P, f, t)) == multiset(Below(rows, front, f, t)) + multiset(last);
      assert multiset(P) == multiset(front) + multiset{P[k]};
    }
  }

  lemma {:induction false} AboveMultiplicity(rows: seq<Sample>, P: seq<nat>, f: nat, t: real, x: nat)
    requires InRows(rows, P) && HasFeature(rows, f)
    ensures multiset(Above(rows, P, f, t))[x]
            == if x < |rows| && !(rows[x].features[f] <= t) then multiset(P)[x] else 0
  {
    if P != [] {
      var k := |P| - 1;
      var front := P[..k];
      AboveMultiplicity(rows, front, f, t, x);
      assert P == front + [P[k]];
      var last := if rows[P[k]].features[f] <= t then [] else [P[k]];
      assert Above(rows, P, f, t) == Above(rows, front, f, t) + last;
      assert multiset(Above(rows, P, f, t)) == multiset(Above(rows, front, f, t)) + multiset(last);
      assert multiset(P) == multiset(front) + multiset{P[k]};
    }
  }

  /** Filtering by a threshold commutes with permuting the partition. */
  lemma BelowPermutation(rows: seq<Sample>, P: seq<nat>, Q: seq<nat>, f: nat, t: real)
    requires InRows(rows, P) && InRows(rows, Q) && HasFeature(rows, f) && multiset(P) == multiset(Q)
    ensures multiset(Below(rows, P, f, t)) == multiset(Below(rows, Q, f, t))
    ensures multiset(Above(rows, P, f, t)) == multiset(Above(rows, Q, f, t))
  {
    forall x: nat ensures multiset(Below(rows, P, f, t))[x] == multiset(Below(rows, Q, f, t))[x]
                       && multiset(Above(rows, P, f, t))[x] == multiset(Above(rows, Q, f, t))[x]
    {
      BelowMultiplicity(rows, P, f, t, x);
      BelowMultiplicity(rows, Q, f, t, x);
      AboveMultiplicity(rows, P, f, t, x);
      AboveMultiplicity(rows, Q, f, t, x);
    }
  }

  /** A partition listed by ascending value splits at a threshold into a prefix and a suffix. */
  ghost predicate SplitsAt(rows: seq<Sample>, Q: seq<nat>, f: nat, t: real, k: nat)
    requires InRows(rows, Q) && HasFeature(rows, f)
  {
    k <= |Q| && forall j :: 0 <= j < |Q| ==> (rows[Q[j]].features[f] <= t <==> j < k)
  }

  lemma SplitsAtPrefix(rows: seq<Sample>, Q: seq<nat>, f: nat, t: real, k: nat)
    requires InRows(rows, Q) && HasFeature(rows, f) && Q != [] && SplitsAt(rows, Q, f, t, k)
    ensures var m := |Q| - 1;
            InRows(rows, Q[..m]) && SplitsAt(rows, Q[..m], f, t, if k > m then m else k)
            && (rows[Q[m]].features[f] <= t <==> k > m)
  {
    var m := |Q| - 1;
    forall j | 0 <= j < m ensures Q[..m][j] == Q[j] { }
  }

  lemma {:induction false} BelowSortedPrefix(rows: seq<Sample>, Q: seq<nat>, f: nat, t: real, k: nat)
    requires InRows(rows, Q) && HasFeature(rows, f) && SplitsAt(rows, Q, f, t, k)
    ensures Below(rows, Q, f, t) == Q[..k]
  {
    if Q != [] {
      var m := |Q| - 1;
      SplitsAtPrefix(rows, Q, f, t, k);
      BelowSortedPrefix(rows, Q[..m], f, t, if k > m then m else k);
      if k > m {
        assert Q[..k] == Q[..m] + [Q[m]];
      } else {
        assert Q[..m][..k] == Q[..k];
      }
    }
  }

  lemma {:induction false} AboveSortedSuffix(rows: seq<Sample>, Q: seq<nat>, f: nat, t: real, k: nat)
    requires InRows(rows, Q) && HasFeature(rows, f) && SplitsAt(rows, Q, f, t, k)
    ensures Above(rows, Q, f, t) == Q[k..]
  {
    if Q != [] {
      var m := |Q| - 1;
      SplitsAtPrefix(rows, Q, f, t, k);
      AboveSortedSuffix(rows, Q[..m], f, t, if k > m then m else k);
      if k <= m {
        assert Q[k..] == Q[..m][k..] + [Q[m]];
      }
    }
  }

  /** The midpoint of two distinct neighbours of an ascending sequence separates its two ends. */
  lemma MidpointSeparates(sv: seq<real>, k: nat)
    requires Sorted(sv) && 1 <= k < |sv| && sv[k - 1] != sv[k]
    ensures forall j :: 0 <= j < |sv| ==> (sv[j] <= Midpoint(sv[k - 1], sv[k]) <==> j < k)
  {
    forall j | 0 <= j < |sv| ensures sv[j] <= Midpoint(sv[k - 1], sv[k]) <==> j < k {
      if j < k {
        assert sv[j] <= sv[k - 1];
      } else {
        assert sv[k] <= sv[j];
      }
    }
  }

  /** Both orders of a partition split into sides of the same sizes and class counts. */
  lemma SidesPermutation(rows: seq<Sample>, P: seq<nat>, Q: seq<nat>, n: nat, f: nat, t: real)
    requires InRows(rows, P) && InRows(rows, Q) && HasFeature(rows, f) && multiset(P) == multiset(Q)
    ensures InRows(rows, Below(rows, P, f, t)) && InRows(rows, Above(rows, P, f, t))
    ensures InRows(rows, Below(rows, Q, f, t)) && InRows(rows, Above(rows, Q, f, t))
    ensures |Below(rows, P, f, t)| == |Below(rows, Q, f, t)| && |Above(rows, P, f, t)| == |Above(rows, Q, f, t)|
    ensures PartCounts(rows, Below(rows, P, f, t), n) == PartCounts(rows, Below(rows, Q, f, t), n)
    ensures PartCounts(rows, Above(rows, P, f, t), n) == PartCounts(rows, Above(rows, Q, f, t), n)
  {
    BelowPermutation(rows, P, Q, f, t);
    SplitSizes(rows, P, f, t);
    SplitSizes(rows, Q, f, t);
    var yp, yq := Below(rows, P, f, t), Below(rows, Q, f, t);
    var np, nq := Above(rows, P, f, t), Above(rows, Q, f, t);
    assert |yp| == |multiset(yp)| == |multiset(yq)| == |yq|;
    assert |np| == |multiset(np)| == |multiset(nq)| == |nq|;
    PartCountsPermutation(rows, yp, yq, n);
    PartCountsPermutation(rows, np, nq, n);
  }

  /**
   * At a position `k` of the visit where the value changes, the two sides
   * of the partition at the midpoint are the first `k` visited rows and
   * the rest, so its score is the weighted Gini index of those two runs.
   */
  lemma SweepScore(rows: seq<Sample>, P: seq<nat>, Q: seq<nat>, n: nat, f: nat, k: nat)
    requires InRows(rows, P) && InRows(rows, Q) && HasFeature(rows, f) && multiset(P) == multiset(Q)
    requires Sorted(Values(rows, Q, f)) && 1 <= k < |Q|
    requires Values(rows, Q, f)[k - 1] != Values(rows, Q, f)[k]
    ensures |P| > 0
    ensures var sv := Values(rows, Q, f);
            Score(rows, P, n, f, Midpoint(sv[k - 1], sv[k]))
            == WeightedGini(ClassCounts(Gather(rows, Q[..k]), n), k, ClassCounts(Gather(rows, Q[k..]), n), |Q| - k)
  {
    var sv := Values(rows, Q, f);
    var t := Midpoint(sv[k - 1], sv[k]);
    assert |P| == |multiset(P)| == |multiset(Q)| == |Q|;
    MidpointSeparates(sv, k);
    assert SplitsAt(rows, Q, f, t, k);
    BelowSortedPrefix(rows, Q, f, t, k);
    AboveSortedSuffix(rows, Q, f, t, k);
    SidesPermutation(rows, P, Q, n, f, t);
  }

  /** Appending a row to a table adds one to its label's count. */
  lemma ClassCountsSnoc(s: seq<Sample>, x: Sample, n: nat)
    requires x.cls <= n
    ensures ClassCounts(s + [x], n) == ClassCounts(s, n)[x.cls := ClassCounts(s, n)[x.cls] + 1]
  {
    forall c | 0 <= c <= n
      ensures ClassCounts(s + [x], n)[c] == ClassCounts(s, n)[x.cls := ClassCounts(s, n)[x.cls] + 1][c]
    {
      CountLabelAppend(s, [x], c);
      CountLabelOne(x, c);
    }
  }

  /** Prepending a row to a table adds one to its label's count. */
  lemma ClassCountsCons(x: Sample, s: seq<Sample>, n: nat)
    requires x.cls <= n
    ensures ClassCounts([x] + s, n) == ClassCounts(s, n)[x.cls := ClassCounts(s, n)[x.cls] + 1]
  {
    forall c | 0 <= c <= n
      ensures ClassCounts([x] + s, n)[c] == ClassCounts(s, n)[x.cls := ClassCounts(s, n)[x.cls] + 1][c]
    {
      CountLabelAppend([x], s, c);
      CountLabelOne(x, c);
    }
  }
}
