/**
 * Prim's minimum spanning tree over a weighted adjacency matrix, as the
 * proposed method computes it: `is_visited`, `key` and `parent` arrays
 * updated in a `while` loop, then the tree written back as a symmetric
 * adjacency matrix.  A weight of 0 means "no edge"; a key of `FLT_MAX`
 * means "not reachable yet".
 */
module Prim {
  import opened Samples

  /** A square matrix with at least one vertex. */
  ghost predicate Square(adj: seq<seq<real>>)
  {
    |adj| >= 1 && forall u :: 0 <= u < |adj| ==> |adj[u]| == |adj|
  }

  /** `AreAllTrue`: scan while the entries are true; all true iff the scan reaches the end. */
  method AreAllTrue(a: array<bool>) returns (all: bool)
    ensures all <==> forall i :: 0 <= i < a.Length ==> a[i]
  {
    var idx := 0;
    while idx < a.Length && a[idx]
      invariant 0 <= idx <= a.Length
      invariant forall i :: 0 <= i < idx ==> a[i]
    {
      idx := idx + 1;
    }
    all := idx == a.Length;
  }

  // ---------------------------------------------------------------------
  // The loop state, as sequences: what holds at the head of every round.
  // ---------------------------------------------------------------------

  /** Lengths of the loop state. */
  ghost predicate Shape(adj: seq<seq<real>>, vis: seq<bool>, key: seq<real>, par: seq<nat>, rank: seq<nat>)
  {
    Square(adj) && |vis| == |adj| && |key| == |adj| && |par| == |adj| && |rank| == |adj|
  }

  /**
   * The visiting order.  `rank[v]` is the round in which `v` was visited (a
   * ghost record) and `count` the number of rounds so far: vertex 0 first,
   * ranks below the round count.
   */
  ghost predicate Order(vis: seq<bool>, rank: seq<nat>, count: nat)
    requires |rank| == |vis|
  {
    |vis| > 0 && count == Trues(vis) && count <= |vis|
    && (count > 0 ==> vis[0] && rank[0] == 0)
    && (forall v :: 0 <= v < |vis| && vis[v] ==> rank[v] < count)
  }

  /** A visited vertex other than 0 hangs below a vertex visited earlier, by a real edge. */
  ghost predicate Hung(adj: seq<seq<real>>, vis: seq<bool>, par: seq<nat>, rank: seq<nat>)
    requires Square(adj) && |vis| == |adj| && |par| == |adj| && |rank| == |adj|
  {
    forall v {:trigger par[v]} :: 0 < v < |adj| && vis[v] ==>
      par[v] < |adj| && vis[par[v]] && rank[par[v]] < rank[v]
      && adj[par[v]][v] != 0.0 && adj[par[v]][v] < FLT_MAX
  }

  /**
   * Keys and parents of the vertices not yet visited: vertex 0 starts at key
   * 0 and parent 0, keys never exceed `FLT_MAX`, and a finite key is the
   * weight of a real edge from a visited parent.
   */
  ghost predicate Pending(adj: seq<seq<real>>, vis: seq<bool>, key: seq<real>, par: seq<nat>)
    requires Square(adj) && |vis| == |adj| && |key| == |adj| && |par| == |adj|
  {
    key[0] == 0.0 && par[0] == 0
    && (forall v :: 0 <= v < |adj| ==> key[v] <= FLT_MAX)
    && (forall v {:trigger par[v]} :: 0 < v < |adj| && !vis[v] && key[v] < FLT_MAX ==>
          par[v] < |adj| && vis[par[v]] && key[v] == adj[par[v]][v] && adj[par[v]][v] != 0.0)
  }

  /** The key of an unvisited vertex is at most every real edge into it from the visited ones. */
  ghost predicate Cut(adj: seq<seq<real>>, vis: seq<bool>, key: seq<real>)
    requires Square(adj) && |vis| == |adj| && |key| == |adj|
  {
    forall u, v {:trigger adj[u][v]} :: 0 <= u < |adj| && 0 <= v < |adj| && vis[u] && !vis[v] && adj[u][v] != 0.0 ==>
      key[v] <= adj[u][v]
  }

  /** Everything the rounds keep. */
  ghost predicate StateOk(adj: seq<seq<real>>, vis: seq<bool>, key: seq<real>, par: seq<nat>,
                          rank: seq<nat>, count: nat)
  {
    Shape(adj, vis, key, par, rank) && Order(vis, rank, count)
    && Hung(adj, vis, par, rank) && Pending(adj, vis, key, par) && Cut(adj, vis, key)
    && Greedy(adj, vis, par, rank)
  }

  /**
   * The cut property of every tree edge chosen so far: the edge that brought
   * `v` in is no heavier than any real edge from a vertex visited before `v`
   * to a vertex not visited before `v`.
   */
  ghost predicate Greedy(adj: seq<seq<real>>, vis: seq<bool>, par: seq<nat>, rank: seq<nat>)
    requires Square(adj) && |vis| == |adj| && |par| == |adj| && |rank| == |adj|
  {
    forall v, u, w {:trigger adj[par[v]][v], adj[u][w]} :: 0 < v < |adj| && 0 <= u < |adj| && 0 <= w < |adj|
      && vis[v] && vis[u] && rank[u] < rank[v] && (!vis[w] || rank[v] <= rank[w])
      && adj[u][w] != 0.0 && par[v] < |adj|
      ==> adj[par[v]][v] <= adj[u][w]
  }

  /**
   * `newly_added_point` at the head of a round: unvisited, 0 in the first
   * round, and otherwise a vertex of least finite key among the unvisited.
   */
  ghost predicate Selected(adj: seq<seq<real>>, vis: seq<bool>, key: seq<real>, count: nat, newly: nat)
    requires |vis| == |adj| && |key| == |adj|
  {
    newly < |adj| && !vis[newly]
    && (count == 0 ==> newly == 0)
    && (count > 0 ==> key[newly] < FLT_MAX
                      && forall w :: 0 <= w < |adj| && !vis[w] ==> key[newly] <= key[w])
  }

  /** The effect of one relaxation pass from `u` on the keys and parents. */
  ghost predicate Relaxed(adj: seq<seq<real>>, vis: seq<bool>, key0: seq<real>, par0: seq<nat>,
                          key: seq<real>, par: seq<nat>, u: nat)
    requires Square(adj) && u < |adj|
    requires |vis| == |adj| && |key0| == |adj| && |par0| == |adj|
  {
    |key| == |adj| && |par| == |adj|
    && forall v :: 0 <= v < |adj| ==>
         if !vis[v] && adj[u][v] != 0.0 && adj[u][v] < key0[v]
         then key[v] == adj[u][v] && par[v] == u
         else key[v] == key0[v] && par[v] == par0[v]
  }

  /** The relaxation `for` loop: a real edge from `u` lighter than the key replaces key and parent. */
  method Relax(adj: seq<seq<real>>, visited: array<bool>, key: array<real>, parent: array<nat>, u: nat)
    requires Square(adj) && u < |adj|
    requires visited.Length == |adj| && key.Length == |adj| && parent.Length == |adj|
    modifies key, parent
    ensures Relaxed(adj, visited[..], old(key[..]), old(parent[..]), key[..], parent[..], u)
  {
    var v := 0;
    while v < |adj|
      invariant 0 <= v <= |adj|
      invariant forall x :: v <= x < |adj| ==> key[x] == old(key[x]) && parent[x] == old(parent[x])
      invariant forall x :: 0 <= x < v ==>
         if !visited[x] && adj[u][x] != 0.0 && adj[u][x] < old(key[x])
         then key[x] == adj[u][x] && parent[x] == u
         else key[x] == old(key[x]) && parent[x] == old(parent[x])
    {
      if !visited[v] {
        var w := adj[u][v];
        if w != 0.0 && w < key[v] {
          key[v] := w;
          parent[v] := u;
        }
      }
      v := v + 1;
    }
  }

  /**
   * The selection `for` loop: the unvisited vertex of least key below
   * `FLT_MAX`, the lowest index on ties (strict `<`).  Nothing is found
   * exactly when no unvisited vertex has a finite key.
   */
  method SelectNearest(visited: array<bool>, key: array<real>) returns (found: bool, next: nat)
    requires visited.Length == key.Length
    ensures found <==> exists v :: 0 <= v < key.Length && !visited[v] && key[v] < FLT_MAX
    ensures found ==> next < key.Length && !visited[next] && key[next] < FLT_MAX
    ensures found ==> forall v :: 0 <= v < key.Length && !visited[v] ==> key[next] <= key[v]
    ensures found ==> forall v :: 0 <= v < next && !visited[v] ==> key[next] < key[v]
  {
    var minKey := FLT_MAX;
    found, next := false, 0;
    var v := 0;
    while v < key.Length
      invariant 0 <= v <= key.Length
      invariant found <==> exists x :: 0 <= x < v && !visited[x] && key[x] < FLT_MAX
      invariant found ==> next < v && !visited[next] && minKey == key[next] < FLT_MAX
      invariant !found ==> minKey == FLT_MAX
      invariant forall x :: 0 <= x < v && !visited[x] ==> minKey <= key[x]
      invariant found ==> forall x :: 0 <= x < next && !visited[x] ==> minKey < key[x]
    {
      if !visited[v] && key[v] < minKey {
        minKey := key[v];
        next := v;
        found := true;
      }
      v := v + 1;
    }
  }

  // ---------------------------------------------------------------------
  // One round: mark, relax, select.
  // ---------------------------------------------------------------------

  lemma {:induction false} TruesBound(s: seq<bool>)
    ensures Trues(s) <= |s|
  {
    if s != [] {
      TruesBound(s[..|s| - 1]);
    }
  }

  lemma {:induction false} TruesMark(s: seq<bool>, i: nat)
    requires i < |s| && !s[i]
    ensures Trues(s[i := true]) == Trues(s) + 1
  {
    var k := |s| - 1;
    if i == k {
      assert s[i := true][..k] == s[..k];
    } else {
      assert s[i := true][..k] == s[..k][i := true];
      TruesMark(s[..k], i);
    }
  }

  /** Marking the selected vertex and relaxing from it keeps every fact of the state. */
  lemma MarkAndRelax(adj: seq<seq<real>>, vis: seq<bool>, key0: seq<real>, par0: seq<nat>,
                     rank: seq<nat>, count: nat, newly: nat, key: seq<real>, par: seq<nat>)
    requires StateOk(adj, vis, key0, par0, rank, count)
    requires Selected(adj, vis, key0, count, newly)
    requires Relaxed(adj, vis[newly := true], key0, par0, key, par, newly)
    ensures StateOk(adj, vis[newly := true], key, par, rank[newly := count], count + 1)
  {
    OrderStep(vis, rank, count, newly);
    PendingStep(adj, vis, key0, par0, newly, key, par);
    HungStep(adj, vis, key0, par0, rank, count, newly, key, par);
    CutStep(adj, vis, key0, newly, key, par0, par);
    GreedyStep(adj, vis, key0, par0, rank, count, newly, key, par);
  }

  lemma OrderStep(vis: seq<bool>, rank: seq<nat>, count: nat, newly: nat)
    requires |rank| == |vis| && Order(vis, rank, count)
    requires newly < |vis| && !vis[newly] && (count == 0 ==> newly == 0)
    ensures Order(vis[newly := true], rank[newly := count], count + 1)
  {
    TruesMark(vis, newly);
    TruesBound(vis[newly := true]);
  }

  lemma PendingStep(adj: seq<seq<real>>, vis: seq<bool>, key0: seq<real>, par0: seq<nat>,
                    newly: nat, key: seq<real>, par: seq<nat>)
    requires Square(adj) && |vis| == |adj| && |key0| == |adj| && |par0| == |adj| && newly < |adj|
    requires Pending(adj, vis, key0, par0) && vis[newly := true][0]
    requires Relaxed(adj, vis[newly := true], key0, par0, key, par, newly)
    ensures Pending(adj, vis[newly := true], key, par)
  {
  }

  lemma HungStep(adj: seq<seq<real>>, vis: seq<bool>, key0: seq<real>, par0: seq<nat>,
                 rank: seq<nat>, count: nat, newly: nat, key: seq<real>, par: seq<nat>)
    requires Shape(adj, vis, key0, par0, rank) && Order(vis, rank, count)
    requires Hung(adj, vis, par0, rank) && Pending(adj, vis, key0, par0)
    requires Selected(adj, vis, key0, count, newly)
    requires Relaxed(adj, vis[newly := true], key0, par0, key, par, newly)
    ensures Hung(adj, vis[newly := true], par, rank[newly := count])
  {
    var vis', rank' := vis[newly := true], rank[newly := count];
    forall v | 0 < v < |adj| && vis'[v]
      ensures par[v] < |adj| && vis'[par[v]] && rank'[par[v]] < rank'[v]
              && adj[par[v]][v] != 0.0 && adj[par[v]][v] < FLT_MAX
    {
      assert par[v] == par0[v];
      if v == newly {
        assert count > 0;
      }
    }
  }

  lemma CutStep(adj: seq<seq<real>>, vis: seq<bool>, key0: seq<real>, newly: nat, key: seq<real>,
                par0: seq<nat>, par: seq<nat>)
    requires Square(adj) && |vis| == |adj| && |key0| == |adj| && |par0| == |adj| && newly < |adj|
    requires Cut(adj, vis, key0)
    requires Relaxed(adj, vis[newly := true], key0, par0, key, par, newly)
    ensures Cut(adj, vis[newly := true], key)
  {
  }

  lemma GreedyStep(adj: seq<seq<real>>, vis: seq<bool>, key0: seq<real>, par0: seq<nat>,
                   rank: seq<nat>, count: nat, newly: nat, key: seq<real>, par: seq<nat>)
    requires Shape(adj, vis, key0, par0, rank) && Order(vis, rank, count)
    requires Pending(adj, vis, key0, par0) && Cut(adj, vis, key0) && Greedy(adj, vis, par0, rank)
    requires Selected(adj, vis, key0, count, newly)
    requires Relaxed(adj, vis[newly := true], key0, par0, key, par, newly)
    ensures Greedy(adj, vis[newly := true], par, rank[newly := count])
  {
    var N := |adj|;
    var vis', rank' := vis[newly := true], rank[newly := count];
    forall v, u, w | 0 < v < N && 0 <= u < N && 0 <= w < N
      && vis'[v] && vis'[u] && rank'[u] < rank'[v] && (!vis'[w] || rank'[v] <= rank'[w])
      && adj[u][w] != 0.0 && par[v] < N
      ensures adj[par[v]][v] <= adj[u][w]
    {
      assert par[v] == par0[v];
      if v == newly {
        GreedyAtNewly(adj, vis, key0, par0, rank, count, newly, u, w);
      } else {
        GreedyEarlier(adj, vis, key0, par0, rank, count, newly, v, u, w);
      }
    }
  }

  /** The tree edges chosen in earlier rounds keep their cut property. */
  lemma GreedyEarlier(adj: seq<seq<real>>, vis: seq<bool>, key0: seq<real>, par0: seq<nat>,
                      rank: seq<nat>, count: nat, newly: nat, v: nat, u: nat, w: nat)
    requires Shape(adj, vis, key0, par0, rank) && Order(vis, rank, count) && Greedy(adj, vis, par0, rank)
    requires newly < |adj| && !vis[newly]
    requires 0 < v < |adj| && u < |adj| && w < |adj| && v != newly && adj[u][w] != 0.0 && par0[v] < |adj|
    requires vis[newly := true][v] && vis[newly := true][u]
    requires rank[newly := count][u] < rank[newly := count][v]
    requires !vis[newly := true][w] || rank[newly := count][v] <= rank[newly := count][w]
    ensures adj[par0[v]][v] <= adj[u][w]
  {
    assert u != newly && vis[v] && vis[u] && rank[u] < rank[v];
    assert !vis[w] || rank[v] <= rank[w];
  }

  /** The edge that brings in the selected vertex is a lightest one leaving the visited set. */
  lemma GreedyAtNewly(adj: seq<seq<real>>, vis: seq<bool>, key0: seq<real>, par0: seq<nat>,
                      rank: seq<nat>, count: nat, newly: nat, u: nat, w: nat)
    requires Shape(adj, vis, key0, par0, rank) && Order(vis, rank, count)
    requires Pending(adj, vis, key0, par0) && Cut(adj, vis, key0)
    requires Selected(adj, vis, key0, count, newly)
    requires u < |adj| && w < |adj| && vis[u] && (!vis[w] || w == newly) && adj[u][w] != 0.0
    requires 0 < newly
    ensures par0[newly] < |adj| && adj[par0[newly]][newly] <= adj[u][w]
  {
    assert count > 0;
    if w != newly {
      assert key0[newly] <= key0[w];
    }
  }

  // ---------------------------------------------------------------------
  // The tree written back as a matrix.
  // ---------------------------------------------------------------------

  /**
   * Entry `(a, b)` of the output matrix: the weight `adj[v][parent[v]]` of
   * the tree edge between `a` and `b`, written at both `[v][parent[v]]` and
   * `[parent[v]][v]`; 0 where there is no tree edge.
   */
  function MstEntry(adj: seq<seq<real>>, par: seq<nat>, a: nat, b: nat): real
    requires Square(adj) && |par| == |adj| && a < |adj| && b < |adj|
  {
    if par[a] == b then adj[a][b]
    else if par[b] == a then adj[b][a]
    else 0.0
  }

  /** No two distinct vertices are each other's parent. */
  ghost predicate NoTwoCycles(par: seq<nat>)
  {
    forall a, b :: 0 <= a < |par| && 0 <= b < |par| && par[a] == b && par[b] == a ==> a == b
  }

  /**
   * The output is symmetric, and every non-zero entry is the input weight
   * of a tree edge.
   */
  lemma MstEntryFacts(adj: seq<seq<real>>, par: seq<nat>)
    requires Square(adj) && |par| == |adj| && NoTwoCycles(par)
    ensures forall a, b :: 0 <= a < |adj| && 0 <= b < |adj| ==>
              MstEntry(adj, par, a, b) == MstEntry(adj, par, b, a)
    ensures forall a, b :: 0 <= a < |adj| && 0 <= b < |adj| && MstEntry(adj, par, a, b) != 0.0 ==>
              (par[a] == b && MstEntry(adj, par, a, b) == adj[a][b])
              || (par[b] == a && MstEntry(adj, par, a, b) == adj[b][a])
  {
  }

  /** The output matrix: the tree edges at both orientations, 0 elsewhere. */
  ghost predicate IsMstMatrix(adj: seq<seq<real>>, par: seq<nat>, m: array2<real>)
    requires Square(adj) && |par| == |adj|
    reads m
  {
    m.Length0 == |adj| && m.Length1 == |adj|
    && forall a, b :: 0 <= a < |adj| && 0 <= b < |adj| ==> m[a, b] == MstEntry(adj, par, a, b)
  }

  /** The loop that fills the output matrix, one tree edge per vertex. */
  method BuildMst(adj: seq<seq<real>>, parent: array<nat>) returns (mst: array2<real>)
    requires Square(adj) && parent.Length == |adj|
    requires forall v :: 0 <= v < |adj| ==> parent[v] < |adj|
    requires NoTwoCycles(parent[..])
    ensures IsMstMatrix(adj, parent[..], mst)
  {
    var N := |adj|;
    mst := new real[N, N]((_, _) => 0.0);
    var v := 0;
    while v < N
      invariant 0 <= v <= N
      invariant forall a, b :: 0 <= a < N && 0 <= b < N ==>
        mst[a, b] == (if a < v && parent[a] == b then adj[a][b]
                      else if b < v && parent[b] == a then adj[b][a]
                      else 0.0)
    {
      var p := parent[v];
      var w := adj[v][p];
      mst[v, p] := w;
      mst[p, v] := w;
      v := v + 1;
    }
  }

  // ---------------------------------------------------------------------
  // The whole algorithm.
  // ---------------------------------------------------------------------

  /**
   * `Spanning(mst)` when the loop ends; `Loops` when some vertex can never
   * be reached: the selection then finds nothing, `newly_added_point`
   * stays a visited vertex, and the program's loop runs forever.
   */
  datatype MstResult = Spanning(mst: array2<real>) | Loops

  /**
   * Each tree edge is a lightest real edge from the vertices visited before
   * its lower end to the vertices visited no earlier: the cut property that
   * makes the tree a minimum one.
   */
  ghost predicate LightestEdges(adj: seq<seq<real>>, par: seq<nat>, rank: seq<nat>)
    requires Square(adj) && |par| == |adj| && |rank| == |adj|
  {
    forall v, u, w :: 0 < v < |adj| && 0 <= u < |adj| && 0 <= w < |adj|
      && rank[u] < rank[v] <= rank[w] && adj[u][w] != 0.0 && par[v] < |adj|
      ==> adj[par[v]][v] <= adj[u][w]
  }

  /** Every vertex reaches vertex 0 by following its parent `rank[v]` times or fewer. */
  ghost predicate IsTree(adj: seq<seq<real>>, par: seq<nat>, rank: seq<nat>)
    requires Square(adj) && |par| == |adj| && |rank| == |adj|
  {
    par[0] == 0 && rank[0] == 0
    && forall v :: 0 < v < |adj| ==>
         par[v] < |adj| && rank[par[v]] < rank[v] && adj[par[v]][v] != 0.0
  }

  method Prim(adj: seq<seq<real>>) returns (r: MstResult, ghost par: seq<nat>, ghost rank: seq<nat>,
                                            ghost reached: seq<bool>)
    requires Square(adj)
    ensures |par| == |adj| && |rank| == |adj| && |reached| == |adj|
    // a spanning tree: every vertex other than 0 hangs below one visited before it
    ensures r.Spanning? ==> IsTree(adj, par, rank)
    // each tree edge is a lightest real edge leaving the vertices visited before it
    ensures r.Spanning? ==> LightestEdges(adj, par, rank)
    // the output matrix holds exactly the tree edges, at both orientations
    ensures r.Spanning? ==> IsMstMatrix(adj, par, r.mst)
    // no termination: the vertices reached from 0 have no usable edge to the rest
    ensures r.Loops? ==> Stuck(adj, reached)
  {
    var N := |adj|;
    var visited, key, parent, all := Init(adj);
    var newly: nat := 0;
    rank := seq(N, _ => 0);
    ghost var count: nat := 0;
    while !all
      invariant visited.Length == N && key.Length == N && parent.Length == N
      invariant Head(adj, visited[..], key[..], parent[..], rank, count, newly, all)
      decreases N - count
    {
      var stuck;
      stuck, all, newly, rank := Round(adj, visited, key, parent, newly, rank, count);
      count := count + 1;
      if stuck {
        r, par, reached := Loops, parent[..], visited[..];
        return;
      }
    }
    par, reached := parent[..], visited[..];
    var mst := Finish(adj, visited, key, parent, rank, count);
    r := Spanning(mst);
  }

  /** After the loop: every vertex visited, so the parents form the tree the matrix records. */
  method Finish(adj: seq<seq<real>>, visited: array<bool>, key: array<real>, parent: array<nat>,
                ghost rank: seq<nat>, ghost count: nat) returns (mst: array2<real>)
    requires visited.Length == |adj| && key.Length == |adj| && parent.Length == |adj|
    requires Head(adj, visited[..], key[..], parent[..], rank, count, 0, true)
    ensures IsTree(adj, parent[..], rank) && LightestEdges(adj, parent[..], rank)
    ensures IsMstMatrix(adj, parent[..], mst)
  {
    SpanningFacts(adj, visited[..], key[..], parent[..], rank, count);
    mst := BuildMst(adj, parent);
  }

  /** The loop head: the kept facts, `all` as the loop test, and the next vertex selected. */
  ghost predicate Head(adj: seq<seq<real>>, vis: seq<bool>, key: seq<real>, par: seq<nat>,
                       rank: seq<nat>, count: nat, newly: nat, all: bool)
  {
    StateOk(adj, vis, key, par, rank, count)
    && (all <==> forall i :: 0 <= i < |vis| ==> vis[i])
    && (!all ==> Selected(adj, vis, key, count, newly))
  }

  /**
   * The arrays before the loop: nothing visited, every key `FLT_MAX` and
   * every parent `0xFFFFFFFF` (the `memset` to `0xFF`), except vertex 0 at
   * key 0 and parent 0.
   */
  method Init(adj: seq<seq<real>>) returns (visited: array<bool>, key: array<real>, parent: array<nat>, all: bool)
    requires Square(adj)
    ensures fresh(visited) && fresh(key) && fresh(parent)
    ensures visited.Length == |adj| && key.Length == |adj| && parent.Length == |adj|
    ensures Head(adj, visited[..], key[..], parent[..], seq(|adj|, _ => 0), 0, 0, all)
  {
    var N := |adj|;
    visited := new bool[N](_ => false);
    key := new real[N](_ => FLT_MAX);
    parent := new nat[N](_ => UINT32_MAX);
    parent[0] := 0;
    key[0] := 0.0;
    assert visited[..] == seq(N, _ => false);
    assert key[..] == seq(N, v => if v == 0 then 0.0 else FLT_MAX);
    assert parent[..] == seq(N, v => if v == 0 then 0 else UINT32_MAX);
    Start(adj);
    all := AreAllTrue(visited);
  }

  /** The state before the first round: nothing visited, vertex 0 at key 0 and selected. */
  lemma Start(adj: seq<seq<real>>)
    requires Square(adj)
    ensures StateOk(adj, seq(|adj|, _ => false), seq(|adj|, v => if v == 0 then 0.0 else FLT_MAX),
                    seq(|adj|, v => if v == 0 then 0 else UINT32_MAX), seq(|adj|, _ => 0), 0)
    ensures Selected(adj, seq(|adj|, _ => false), seq(|adj|, v => if v == 0 then 0.0 else FLT_MAX), 0, 0)
  {
    TruesNone(seq(|adj|, _ => false));
  }

  /**
   * One round of the `while` loop: mark `newly_added_point` visited, relax
   * from it, and select the next vertex.
   */
  method Round(adj: seq<seq<real>>, visited: array<bool>, key: array<real>, parent: array<nat>,
               newly: nat, ghost rank: seq<nat>, ghost count: nat)
    returns (stuck: bool, all: bool, next: nat, ghost rank': seq<nat>)
    requires visited.Length == |adj| && key.Length == |adj| && parent.Length == |adj|
    requires Head(adj, visited[..], key[..], parent[..], rank, count, newly, false)
    modifies visited, key, parent
    ensures !stuck ==> Head(adj, visited[..], key[..], parent[..], rank', count + 1, next, all)
    ensures stuck ==> Stuck(adj, visited[..])
    ensures rank' == rank[newly := count] && count + 1 <= |adj|
  {
    rank' := Visit(adj, visited, key, parent, newly, rank, count);
    var found;
    found, next := SelectNearest(visited, key);
    all := AreAllTrue(visited);
    stuck := !found && !all;
    if stuck {
      LoopsCut(adj, visited[..], key[..], parent[..], rank', count + 1);
    } else if !found {
      next := newly;
    }
  }

  /** Mark `newly_added_point` visited and relax from it. */
  method Visit(adj: seq<seq<real>>, visited: array<bool>, key: array<real>, parent: array<nat>,
               newly: nat, ghost rank: seq<nat>, ghost count: nat) returns (ghost rank': seq<nat>)
    requires visited.Length == |adj| && key.Length == |adj| && parent.Length == |adj|
    requires StateOk(adj, visited[..], key[..], parent[..], rank, count)
    requires Selected(adj, visited[..], key[..], count, newly)
    modifies visited, key, parent
    ensures rank' == rank[newly := count]
    ensures StateOk(adj, visited[..], key[..], parent[..], rank', count + 1)
  {
    ghost var vis0, key0, par0 := visited[..], key[..], parent[..];
    visited[newly] := true;
    assert visited[..] == vis0[newly := true];
    Relax(adj, visited, key, parent, newly);
    MarkAndRelax(adj, vis0, key0, par0, rank, count, newly, key[..], parent[..]);
    rank' := rank[newly := count];
  }

  /**
   * What makes the program loop forever: vertex 0 is visited, some vertex is
   * not, and no real edge below `FLT_MAX` joins the two sets.
   */
  ghost predicate Stuck(adj: seq<seq<real>>, vis: seq<bool>)
    requires Square(adj) && |vis| == |adj|
  {
    vis[0] && (exists v :: 0 <= v < |adj| && !vis[v])
    && forall u, v :: 0 <= u < |adj| && 0 <= v < |adj| && vis[u] && !vis[v] ==>
         adj[u][v] == 0.0 || adj[u][v] >= FLT_MAX
  }

  /** When every vertex is visited, the parent links form a greedy spanning tree. */
  lemma SpanningFacts(adj: seq<seq<real>>, vis: seq<bool>, key: seq<real>, par: seq<nat>,
                      rank: seq<nat>, count: nat)
    requires StateOk(adj, vis, key, par, rank, count)
    requires forall i :: 0 <= i < |vis| ==> vis[i]
    ensures IsTree(adj, par, rank) && NoTwoCycles(par)
    ensures forall v :: 0 <= v < |adj| ==> par[v] < |adj|
    ensures LightestEdges(adj, par, rank)
  {
    NoTwoCyclesOfTree(adj, par, rank);
  }

  /** When nothing unvisited has a finite key, no real edge below `FLT_MAX` leaves the visited set. */
  lemma LoopsCut(adj: seq<seq<real>>, vis: seq<bool>, key: seq<real>, par: seq<nat>, rank: seq<nat>, count: nat)
    requires StateOk(adj, vis, key, par, rank, count) && count > 0
    requires !exists v :: 0 <= v < |adj| && !vis[v] && key[v] < FLT_MAX
    ensures vis[0]
    ensures forall u, v :: 0 <= u < |adj| && 0 <= v < |adj| && vis[u] && !vis[v] ==>
              adj[u][v] == 0.0 || adj[u][v] >= FLT_MAX
  {
    forall u, v | 0 <= u < |adj| && 0 <= v < |adj| && vis[u] && !vis[v]
      ensures adj[u][v] == 0.0 || adj[u][v] >= FLT_MAX
    {
      assert key[v] == FLT_MAX;
    }
  }

  /** A parent relation whose ranks decrease has no 2-cycles. */
  lemma NoTwoCyclesOfTree(adj: seq<seq<real>>, par: seq<nat>, rank: seq<nat>)
    requires Square(adj) && |par| == |adj| && |rank| == |adj|
    requires par[0] == 0
    requires forall v :: 0 < v < |adj| ==> par[v] < |adj| && rank[par[v]] < rank[v]
    ensures NoTwoCycles(par)
  {
    forall a, b | 0 <= a < |par| && 0 <= b < |par| && par[a] == b && par[b] == a
      ensures a == b
    {
    }
  }

  /** The `k`-th ancestor of `v` along parent links. */
  function Ancestor(par: seq<nat>, v: nat, k: nat): nat
    requires v < |par| && forall x :: 0 <= x < |par| ==> par[x] < |par|
    ensures Ancestor(par, v, k) < |par|
    decreases k
  {
    if k == 0 then v else Ancestor(par, par[v], k - 1)
  }

  /** Following parents `rank[v]` times from any vertex reaches vertex 0: the tree spans. */
  lemma {:induction false} RootPath(adj: seq<seq<real>>, par: seq<nat>, rank: seq<nat>, v: nat)
    requires Square(adj) && |par| == |adj| && |rank| == |adj| && IsTree(adj, par, rank)
    requires v < |adj|
    ensures forall x :: 0 <= x < |par| ==> par[x] < |par|
    ensures Ancestor(par, v, rank[v]) == 0
    decreases rank[v]
  {
    if v != 0 {
      RootPath(adj, par, rank, par[v]);
      AncestorStaysAtRoot(par, rank[v] - rank[par[v]] - 1);
      AncestorShift(par, par[v], rank[par[v]], rank[v] - 1 - rank[par[v]]);
    }
  }

  lemma {:induction false} AncestorStaysAtRoot(par: seq<nat>, k: nat)
    requires |par| > 0 && par[0] == 0 && forall x :: 0 <= x < |par| ==> par[x] < |par|
    ensures Ancestor(par, 0, k) == 0
  {
    if k > 0 {
      AncestorStaysAtRoot(par, k - 1);
    }
  }

  lemma {:induction false} AncestorShift(par: seq<nat>, v: nat, j: nat, k: nat)
    requires v < |par| && forall x :: 0 <= x < |par| ==> par[x] < |par|
    ensures Ancestor(par, v, j + k) == Ancestor(par, Ancestor(par, v, j), k)
    decreases j
  {
    if j > 0 {
      AncestorShift(par, par[v], j - 1, k);
    }
  }
}
