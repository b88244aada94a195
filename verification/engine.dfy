/** The shortest-path engine: the dense O(V²) Dijkstra of the program and its
    minimum-selection helper. Distances use `Integer.MAX_VALUE` for "not
    reached" and predecessors use -1 for "none", as the program does. */
module Engine {
  import opened JavaInt
  import opened Graphs

  /** The "infinite distance" sentinel, `Integer.MAX_VALUE`. */
  const INF: int := INT_MAX

  /** The "no predecessor" sentinel. */
  const NONE: int := -1

  /** A weight bound under which no sum of at most V - 1 weights reaches
      `Integer.MAX_VALUE`, so that `dist[u] + graph[u][v]` never wraps. */
  function Cap(n: nat): int
    requires n > 0
  {
    INF / n
  }

  /** A V×V matrix of non-negative weights small enough not to overflow. */
  predicate WeightsFit(g: Matrix, n: nat)
  {
    && n > 0
    && IsSquare(g, n)
    && forall a, b :: 0 <= a < n && 0 <= b < n ==> 0 <= g[a][b] <= Cap(n)
  }

  /** Number of vertices marked visited. */
  function CountTrue(s: seq<bool>): nat
  {
    if |s| == 0 then 0
    else CountTrue(s[..|s| - 1]) + (if s[|s| - 1] then 1 else 0)
  }

  lemma {:induction false} CountTrueMark(s: seq<bool>, j: int)
    requires 0 <= j < |s| && !s[j]
    ensures CountTrue(s[j := true]) == CountTrue(s) + 1
  {
    if j == |s| - 1 {
      assert s[j := true][..|s| - 1] == s[..|s| - 1];
    } else {
      CountTrueMark(s[..|s| - 1], j);
      assert s[j := true][..|s| - 1] == s[..|s| - 1][j := true];
    }
  }

  lemma {:induction false} CountTrueAtMostLength(s: seq<bool>)
    ensures CountTrue(s) <= |s|
  {
    if |s| > 0 {
      CountTrueAtMostLength(s[..|s| - 1]);
    }
  }

  /** Fewer marks than vertices means some vertex is still unvisited. */
  lemma {:induction false} CountTrueBelowLength(s: seq<bool>)
    requires CountTrue(s) < |s|
    ensures exists j :: 0 <= j < |s| && !s[j]
  {
    if s[|s| - 1] {
      CountTrueBelowLength(s[..|s| - 1]);
      var j :| 0 <= j < |s| - 1 && !s[..|s| - 1][j];
      assert !s[j];
    }
  }

  lemma {:induction false} CountTrueOneFalse(s: seq<bool>, a: int)
    requires 0 <= a < |s| && !s[a]
    ensures CountTrue(s) <= |s| - 1
  {
    if a == |s| - 1 {
      CountTrueAtMostLength(s[..|s| - 1]);
    } else {
      CountTrueOneFalse(s[..|s| - 1], a);
    }
  }

  /** Two unvisited vertices leave at most V - 2 marks. */
  lemma {:induction false} CountTrueTwoFalse(s: seq<bool>, a: int, b: int)
    requires 0 <= a < |s| && 0 <= b < |s| && a != b && !s[a] && !s[b]
    ensures CountTrue(s) <= |s| - 2
  {
    var init := s[..|s| - 1];
    if a == |s| - 1 {
      CountTrueOneFalse(init, b);
    } else if b == |s| - 1 {
      CountTrueOneFalse(init, a);
    } else {
      CountTrueTwoFalse(init, a, b);
    }
  }

  /** `u` is what `minDistance` must pick: an unvisited vertex of least
      distance, and the highest-indexed one among those tied for least. */
  predicate IsMinUnvisited(dist: seq<int>, visited: seq<bool>, u: int)
    requires |dist| == |visited|
  {
    && 0 <= u < |dist|
    && !visited[u]
    && (forall v :: 0 <= v < |dist| && !visited[v] ==> dist[u] <= dist[v])
    && (forall v :: u < v < |dist| && !visited[v] ==> dist[u] < dist[v])
  }

  /** `minDistance`: a linear scan in ascending order that keeps the latest
      vertex whose distance is `<=` the best so far. */
  method MinDistance(dist: seq<int>, visited: seq<bool>) returns (u: int)
    requires |dist| == |visited|
    requires forall v :: 0 <= v < |dist| ==> dist[v] <= INF
    ensures u == NONE <==> forall v :: 0 <= v < |visited| ==> visited[v]
    ensures u != NONE ==> IsMinUnvisited(dist, visited, u)
  {
    var min := INF;
    u := NONE;
    var v := 0;
    while v < |dist|
      invariant 0 <= v <= |dist|
      invariant u == NONE <==> forall w :: 0 <= w < v ==> visited[w]
      invariant u == NONE ==> min == INF
      invariant u != NONE ==> 0 <= u < v && !visited[u] && dist[u] == min
      invariant forall w :: 0 <= w < v && !visited[w] ==> min <= dist[w]
      invariant forall w :: u < w < v && !visited[w] ==> min < dist[w]
    {
      if !visited[v] && dist[v] <= min {
        min := dist[v];
        u := v;
      }
      v := v + 1;
    }
  }

  /** The effect of the relaxation loop from the just-visited vertex `u`:
      distances never increase; anything that changes is a strict
      improvement through a real edge out of a reached `u` and records `u`
      as the predecessor; and afterwards no unvisited neighbour of `u` can
      be improved through `u`. */
  predicate RelaxedFrom(g: Matrix, u: int, visited: seq<bool>, dist: seq<int>, prev: seq<int>,
                        dist': seq<int>, prev': seq<int>)
    requires IsSquare(g, |g|) && 0 <= u < |g|
    requires |visited| == |g| && |dist| == |g| && |prev| == |g|
  {
    && |dist'| == |g| && |prev'| == |g|
    && (forall v :: 0 <= v < |g| ==> dist'[v] <= dist[v])
    && (forall v :: 0 <= v < |g| && (dist'[v] != dist[v] || prev'[v] != prev[v]) ==>
          && !visited[v] && g[u][v] != 0 && dist[u] != INF
          && dist'[v] == dist[u] + g[u][v] < dist[v]
          && prev'[v] == u)
    && (forall v :: 0 <= v < |g| && !visited[v] && g[u][v] != 0 && dist[u] != INF ==>
          dist'[v] <= dist[u] + g[u][v])
  }

  /** The inner loop of one iteration: every unvisited `v` with an edge from
      a reached `u` and `dist[u] + graph[u][v] < dist[v]` is improved. */
  method Relax(g: Matrix, u: int, visited: seq<bool>, dist: seq<int>, prev: seq<int>)
    returns (dist': seq<int>, prev': seq<int>)
    requires IsSquare(g, |g|) && 0 <= u < |g|
    requires |visited| == |g| && |dist| == |g| && |prev| == |g|
    requires visited[u]
    requires dist[u] == INF || forall v :: 0 <= v < |g| ==> dist[u] + g[u][v] <= INF
    ensures RelaxedFrom(g, u, visited, dist, prev, dist', prev')
  {
    dist', prev' := dist, prev;
    var v := 0;
    while v < |g|
      invariant 0 <= v <= |g|
      invariant |dist'| == |g| && |prev'| == |g|
      invariant forall w :: v <= w < |g| ==> dist'[w] == dist[w] && prev'[w] == prev[w]
      invariant forall w :: 0 <= w < |g| ==> dist'[w] <= dist[w]
      invariant forall w :: 0 <= w < v && (dist'[w] != dist[w] || prev'[w] != prev[w]) ==>
        && !visited[w] && g[u][w] != 0 && dist[u] != INF
        && dist'[w] == dist[u] + g[u][w] < dist[w]
        && prev'[w] == u
      invariant forall w :: 0 <= w < v && !visited[w] && g[u][w] != 0 && dist[u] != INF ==>
        dist'[w] <= dist[u] + g[u][w]
    {
      if !visited[v] && g[u][v] != 0 && dist'[u] != INF && dist'[u] + g[u][v] < dist'[v] {
        dist' := dist'[v := dist'[u] + g[u][v]];
        prev' := prev'[v := u];
      }
      v := v + 1;
    }
  }

  /** The update of `dist[v]` through `u` as Java evaluates it: the sum
      `dist[u] + graph[u][v]` wraps at 32 bits before it is compared. */
  function RelaxedDistanceAsWritten(du: Int32, w: Int32, dv: Int32): (r: Int32)
    ensures r == dv || (w != 0 && du != INF && r < dv)
  {
    if w != 0 && du != INF && Wrap(du + w) < dv then Wrap(du + w) else dv
  }

  /** A vertex at distance 2147483646 with an edge of weight 2 to an
      unreached neighbour gives that neighbour the distance -2147483648.
      The wrap also happens when every true distance fits: a vertex at
      distance 5 with an edge of weight 2147483647 to a neighbour at
      distance 10 replaces 10 by -2147483644. */
  lemma RelaxAsWrittenOverflow()
    ensures RelaxedDistanceAsWritten(INF - 1, 2, INF) == INT_MIN
    ensures RelaxedDistanceAsWritten(5, INT_MAX, 10) == -2147483644
  {
    assert Wrap(INF - 1 + 2) == INT_MIN;
    assert Wrap(5 + INT_MAX) == -2147483644;
  }

  /** While the sum fits, the Java update is the one `Relax` performs:
      improve to `dist[u] + graph[u][v]` exactly when that is smaller. */
  lemma RelaxAsWrittenAgreesWhenFits(du: Int32, w: Int32, dv: Int32)
    requires 0 <= du && 0 <= w && du + w <= INT_MAX
    ensures RelaxedDistanceAsWritten(du, w, dv) ==
      if w != 0 && du != INF && du + w < dv then du + w else dv
  {
  }

  /** What the arrays `dist` and `previous` encode once the algorithm is done:
      the source at distance 0 with no predecessor, every other reached vertex
      with a predecessor through a real edge whose distance plus that edge's
      weight is its own, and unreached vertices with none. */
  predicate PredecessorTree(g: Matrix, src: int, dist: seq<int>, prev: seq<int>)
    requires IsSquare(g, |g|)
  {
    && 0 <= src < |g| && |dist| == |g| && |prev| == |g|
    && dist[src] == 0 && prev[src] == NONE
    && (forall v :: 0 <= v < |g| ==> 0 <= dist[v] <= INF)
    && (forall v :: 0 <= v < |g| && prev[v] != NONE ==>
          && 0 <= prev[v] < |g|
          && dist[v] != INF
          && g[prev[v]][v] > 0
          && dist[v] == dist[prev[v]] + g[prev[v]][v])
    && (forall v :: 0 <= v < |g| && v != src && dist[v] != INF ==> prev[v] != NONE)
  }

  /** No edge out of a reached vertex can improve a distance: every
      neighbour of a reached vertex is reached, and no farther than that
      vertex plus the edge. */
  predicate Settled(g: Matrix, dist: seq<int>)
    requires IsSquare(g, |g|) && |dist| == |g|
  {
    forall a, b :: 0 <= a < |g| && 0 <= b < |g| && dist[a] != INF && g[a][b] != 0 ==>
      dist[b] != INF && dist[b] <= dist[a] + g[a][b]
  }

  /** `a` is selected before `b`: nearer, or as near and higher-indexed
      (the `<=` of the ascending scan keeps the last of equally near ones). */
  predicate Before(dist: seq<int>, a: int, b: int)
    requires 0 <= a < |dist| && 0 <= b < |dist|
  {
    dist[a] < dist[b] || (dist[a] == dist[b] && a > b)
  }

  /** The edge from `w` to `v` lies on a shortest path to `v`: `w` is
      reached and its distance plus the edge is exactly `v`'s distance. */
  predicate Tight(g: Matrix, dist: seq<int>, w: int, v: int)
    requires IsSquare(g, |g|) && |dist| == |g| && 0 <= w < |g| && 0 <= v < |g|
  {
    dist[w] != INF && g[w][v] != 0 && dist[w] + g[w][v] == dist[v]
  }

  /** Which of the equally short trees `previous` encodes: for every tight
      edge into `v`, the recorded predecessor is that edge's source or a
      vertex selected before it. So `previous[v]` is the first tight
      neighbour the minimum selection visits: the nearest one, and of
      equally near ones the highest-indexed. */
  predicate PreferredPredecessors(g: Matrix, dist: seq<int>, prev: seq<int>)
  {
    && IsSquare(g, |g|) && |dist| == |g| && |prev| == |g|
    && forall v, w {:trigger Tight(g, dist, w, v)} :: 0 <= v < |g| && 0 <= w < |g| && Tight(g, dist, w, v) ==>
      0 <= prev[v] < |g| && (prev[v] == w || Before(dist, prev[v], w))
  }

  predicate DijkstraOutcome(g: Matrix, src: int, dist: seq<int>, prev: seq<int>)
    requires IsSquare(g, |g|)
  {
    PredecessorTree(g, src, dist, prev) && Settled(g, dist)
  }

  /** `d + w` stays within the budget of `i + 1` edges, which is below
      `Integer.MAX_VALUE` while `i + 1 <= V - 1`. */
  lemma StepBound(n: nat, i: nat, d: int, w: int)
    requires n > 0 && i + 1 <= n - 1
    requires 0 <= d <= i * Cap(n) && 0 <= w <= Cap(n)
    ensures d + w <= (i + 1) * Cap(n) < INF
  {
    var c := Cap(n);
    assert (i + 1) * c == i * c + c;
    assert (i + 1) * c <= (n - 1) * c by {
      MulMonoLeft(i + 1, n - 1, c);
    }
    assert n * c <= INF;
    assert (n - 1) * c + c == n * c;
  }

  lemma MulMonoLeft(a: int, b: int, c: int)
    requires a <= b && 0 <= c
    ensures a * c <= b * c
  {
  }

  /** What holds after `i` rounds of the main loop: `i` vertices visited;
      reached distances within the budget of `i` edges; the predecessor tree
      built so far, hanging from visited vertices only; every visited vertex
      selected before every unvisited one; every edge out of a reached
      visited vertex already relaxed; and every tight edge out of a visited
      vertex pointing at a predecessor selected no later. */
  predicate RoundInvariant(g: Matrix, n: nat, src: int, i: nat,
                           visited: seq<bool>, dist: seq<int>, prev: seq<int>)
    requires WeightsFit(g, n)
  {
    && |dist| == n && |prev| == n && |visited| == n
    && CountTrue(visited) == i
    && (forall v :: 0 <= v < n && dist[v] != INF ==> dist[v] <= i * Cap(n))
    && PredecessorTree(g, src, dist, prev)
    && (forall v :: 0 <= v < n && prev[v] != NONE ==> visited[prev[v]])
    && (forall a, b {:trigger visited[a], visited[b]} :: 0 <= a < n && 0 <= b < n && visited[a] && !visited[b] ==>
          Before(dist, a, b))
    && (forall a, b :: 0 <= a < n && 0 <= b < n && visited[a] && dist[a] != INF && g[a][b] != 0 ==>
          dist[b] != INF && dist[b] <= dist[a] + g[a][b])
    && (forall v, w {:trigger Tight(g, dist, w, v)} :: 0 <= v < n && 0 <= w < n && visited[w] && Tight(g, dist, w, v) ==>
          0 <= prev[v] < n && (prev[v] == w || Before(dist, prev[v], w)))
  }

  /** `dijkstra(graph, src, V, dist, previous)`: V - 1 rounds, each picking
      the nearest unvisited vertex and relaxing its edges. */
  method Dijkstra(g: Matrix, src: int, n: nat) returns (dist: seq<int>, prev: seq<int>)
    requires WeightsFit(g, n) && 0 <= src < n
    ensures |dist| == n && |prev| == n
    ensures dist[src] == 0 && prev[src] == NONE
    ensures DijkstraOutcome(g, src, dist, prev)
    ensures PreferredPredecessors(g, dist, prev)
  {
    dist := seq(n, v => if v == src then 0 else INF);
    prev := seq(n, _ => NONE);
    var visited := seq(n, _ => false);
    InitialState(g, n, src);
    var i := 0;
    while i < n - 1
      invariant 0 <= i <= n - 1
      invariant RoundInvariant(g, n, src, i, visited, dist, prev)
    {
      visited, dist, prev := Round(g, n, src, i, visited, dist, prev);
      i := i + 1;
    }
    Finish(g, n, src, visited, dist, prev);
  }

  /** One iteration of the main loop: select the nearest unvisited vertex,
      mark it, and relax the edges out of it. */
  method Round(g: Matrix, n: nat, src: int, i: nat,
               visited: seq<bool>, dist: seq<int>, prev: seq<int>)
    returns (visited': seq<bool>, dist': seq<int>, prev': seq<int>)
    requires WeightsFit(g, n) && 0 <= src < n && i < n - 1
    requires RoundInvariant(g, n, src, i, visited, dist, prev)
    ensures RoundInvariant(g, n, src, i + 1, visited', dist', prev')
    ensures exists u :: IsMinUnvisited(dist, visited, u) && visited' == visited[u := true]
  {
    CountTrueBelowLength(visited);
    var u := MinDistance(dist, visited);
    visited' := visited[u := true];
    forall v | 0 <= v < n && dist[u] != INF
      ensures dist[u] + g[u][v] <= INF
    {
      StepBound(n, i, dist[u], g[u][v]);
    }
    dist', prev' := Relax(g, u, visited', dist, prev);
    RoundPreserves(g, n, src, i, u, visited, dist, prev, dist', prev');
  }

  lemma ZeroCount(n: nat)
    ensures CountTrue(seq(n, _ => false)) == 0
  {
    if n > 0 {
      assert seq(n, _ => false)[..n - 1] == seq(n - 1, _ => false);
      ZeroCount(n - 1);
    }
  }

  /** The state before a round, and the round itself: `u` chosen by the
      minimum selection, marked visited, and relaxed from. */
  predicate RoundStep(g: Matrix, n: nat, src: int, i: nat, u: int,
                      visited: seq<bool>, dist: seq<int>, prev: seq<int>,
                      dist': seq<int>, prev': seq<int>)
  {
    && WeightsFit(g, n) && 0 <= src < n && i + 1 <= n - 1
    && RoundInvariant(g, n, src, i, visited, dist, prev)
    && IsMinUnvisited(dist, visited, u)
    && RelaxedFrom(g, u, visited[u := true], dist, prev, dist', prev')
  }

  /** One round (select `u`, mark it, relax from it) keeps the invariant. */
  lemma RoundPreserves(g: Matrix, n: nat, src: int, i: nat, u: int,
                       visited: seq<bool>, dist: seq<int>, prev: seq<int>,
                       dist': seq<int>, prev': seq<int>)
    requires RoundStep(g, n, src, i, u, visited, dist, prev, dist', prev')
    ensures RoundInvariant(g, n, src, i + 1, visited[u := true], dist', prev')
  {
    CountTrueMark(visited, u);
    RoundKeepsBudget(g, n, src, i, u, visited, dist, prev, dist', prev');
    RoundKeepsTree(g, n, src, i, u, visited, dist, prev, dist', prev');
    RoundKeepsOrder(g, n, src, i, u, visited, dist, prev, dist', prev');
    RoundKeepsSettled(g, n, src, i, u, visited, dist, prev, dist', prev');
    RoundKeepsPreference(g, n, src, i, u, visited, dist, prev, dist', prev');
  }

  lemma RoundKeepsBudget(g: Matrix, n: nat, src: int, i: nat, u: int,
                         visited: seq<bool>, dist: seq<int>, prev: seq<int>,
                         dist': seq<int>, prev': seq<int>)
    requires RoundStep(g, n, src, i, u, visited, dist, prev, dist', prev')
    ensures forall v :: 0 <= v < n && dist'[v] != INF ==> dist'[v] <= (i + 1) * Cap(n)
  {
    var c := Cap(n);
    forall v | 0 <= v < n && dist'[v] != INF
      ensures dist'[v] <= (i + 1) * c
    {
      assert (i + 1) * c == i * c + c;
      if dist'[v] != dist[v] {
        StepBound(n, i, dist[u], g[u][v]);
      }
    }
  }

  lemma RoundKeepsTree(g: Matrix, n: nat, src: int, i: nat, u: int,
                       visited: seq<bool>, dist: seq<int>, prev: seq<int>,
                       dist': seq<int>, prev': seq<int>)
    requires RoundStep(g, n, src, i, u, visited, dist, prev, dist', prev')
    ensures PredecessorTree(g, src, dist', prev')
    ensures forall v :: 0 <= v < n && prev'[v] != NONE ==> visited[u := true][prev'[v]]
  {
    var visited' := visited[u := true];
    assert dist'[u] == dist[u];
    forall v | 0 <= v < n && prev'[v] != NONE
      ensures 0 <= prev'[v] < n && dist'[v] != INF && g[prev'[v]][v] > 0
      ensures dist'[v] == dist'[prev'[v]] + g[prev'[v]][v]
      ensures visited'[prev'[v]]
    {
      if dist'[v] == dist[v] && prev'[v] == prev[v] {
        assert visited[prev[v]];
        assert dist'[prev[v]] == dist[prev[v]];
      }
    }
  }

  lemma RoundKeepsOrder(g: Matrix, n: nat, src: int, i: nat, u: int,
                        visited: seq<bool>, dist: seq<int>, prev: seq<int>,
                        dist': seq<int>, prev': seq<int>)
    requires RoundStep(g, n, src, i, u, visited, dist, prev, dist', prev')
    ensures forall a, b {:trigger visited[u := true][a], visited[u := true][b]} ::
      0 <= a < n && 0 <= b < n && visited[u := true][a] && !visited[u := true][b] ==> Before(dist', a, b)
  {
    var visited' := visited[u := true];
    forall a, b | 0 <= a < n && 0 <= b < n && visited'[a] && !visited'[b]
      ensures Before(dist', a, b)
    {
      assert dist'[a] == dist[a];
      if a != u {
        assert Before(dist, a, u) && Before(dist, a, b);
      }
    }
  }

  lemma RoundKeepsSettled(g: Matrix, n: nat, src: int, i: nat, u: int,
                          visited: seq<bool>, dist: seq<int>, prev: seq<int>,
                          dist': seq<int>, prev': seq<int>)
    requires RoundStep(g, n, src, i, u, visited, dist, prev, dist', prev')
    ensures forall a, b :: 0 <= a < n && 0 <= b < n && visited[u := true][a] && dist'[a] != INF && g[a][b] != 0 ==>
      dist'[b] != INF && dist'[b] <= dist'[a] + g[a][b]
  {
    var visited' := visited[u := true];
    forall a, b | 0 <= a < n && 0 <= b < n && visited'[a] && dist'[a] != INF && g[a][b] != 0
      ensures dist'[b] != INF && dist'[b] <= dist'[a] + g[a][b]
    {
      assert dist'[a] == dist[a];
      if a == u {
        if visited'[b] {
          assert dist'[b] == dist[b];
          if b != u {
            assert Before(dist, b, u);
          }
        } else {
          StepBound(n, i, dist[u], g[u][b]);
        }
      }
    }
  }

  lemma RoundKeepsPreference(g: Matrix, n: nat, src: int, i: nat, u: int,
                             visited: seq<bool>, dist: seq<int>, prev: seq<int>,
                             dist': seq<int>, prev': seq<int>)
    requires RoundStep(g, n, src, i, u, visited, dist, prev, dist', prev')
    requires |dist'| == n && |prev'| == n
    ensures forall v, w {:trigger Tight(g, dist', w, v)} :: 0 <= v < n && 0 <= w < n && visited[u := true][w] && Tight(g, dist', w, v) ==>
      0 <= prev'[v] < n && (prev'[v] == w || Before(dist', prev'[v], w))
  {
    var visited' := visited[u := true];
    forall v, w | 0 <= v < n && 0 <= w < n && visited'[w] && Tight(g, dist', w, v)
      ensures 0 <= prev'[v] < n && (prev'[v] == w || Before(dist', prev'[v], w))
    {
      assert dist'[w] == dist[w];
      if dist'[v] != dist[v] || prev'[v] != prev[v] {
        // improved through `u`: an older tight edge would contradict the relaxation
        if w != u {
          assert false;
        }
      } else if w != u {
        assert Tight(g, dist, w, v);
        assert dist'[prev[v]] == dist[prev[v]];
      } else {
        TightFromSelected(g, n, src, i, u, visited, dist, prev, v);
        assert dist'[prev[v]] == dist[prev[v]];
      }
    }
  }

  /** A tight edge out of the vertex just selected ends at an unvisited
      vertex that already has a predecessor, selected before `u`. */
  lemma TightFromSelected(g: Matrix, n: nat, src: int, i: nat, u: int,
                          visited: seq<bool>, dist: seq<int>, prev: seq<int>, v: int)
    requires WeightsFit(g, n) && 0 <= src < n && i + 1 <= n - 1
    requires RoundInvariant(g, n, src, i, visited, dist, prev)
    requires IsMinUnvisited(dist, visited, u)
    requires 0 <= v < n && Tight(g, dist, u, v)
    ensures 0 <= prev[v] < n && visited[prev[v]] && Before(dist, prev[v], u)
  {
    if visited[v] {
      assert false;
    }
    StepBound(n, i, dist[u], g[u][v]);
    assert v != src && dist[v] != INF;
    var p := prev[v];
    assert p != NONE;
    assert visited[p];
    assert Before(dist, p, u);
  }

  /** The arrays as `Arrays.fill` and `dist[src] = 0` leave them. */
  lemma InitialState(g: Matrix, n: nat, src: int)
    requires WeightsFit(g, n) && 0 <= src < n
    ensures RoundInvariant(g, n, src, 0, seq(n, _ => false),
                           seq(n, v => if v == src then 0 else INF), seq(n, _ => NONE))
  {
    ZeroCount(n);
  }

  /** After V - 1 rounds a single vertex is left unvisited, and since it is
      no nearer than any visited one, every edge out of a reached vertex is
      settled. */
  lemma Finish(g: Matrix, n: nat, src: int, visited: seq<bool>, dist: seq<int>, prev: seq<int>)
    requires WeightsFit(g, n) && 0 <= src < n
    requires RoundInvariant(g, n, src, n - 1, visited, dist, prev)
    ensures DijkstraOutcome(g, src, dist, prev)
    ensures PreferredPredecessors(g, dist, prev)
  {
    FinishSettled(g, n, src, visited, dist, prev);
    FinishPreferred(g, n, src, visited, dist, prev);
  }

  lemma FinishPreferred(g: Matrix, n: nat, src: int, visited: seq<bool>, dist: seq<int>, prev: seq<int>)
    requires WeightsFit(g, n) && 0 <= src < n
    requires RoundInvariant(g, n, src, n - 1, visited, dist, prev)
    ensures PreferredPredecessors(g, dist, prev)
  {
    forall v, w | 0 <= v < n && 0 <= w < n && Tight(g, dist, w, v)
      ensures 0 <= prev[v] < n && (prev[v] == w || Before(dist, prev[v], w))
    {
      if !visited[w] {
        if !visited[v] && v != w {
          CountTrueTwoFalse(visited, v, w);
        }
        assert false;
      }
    }
  }

  lemma FinishSettled(g: Matrix, n: nat, src: int, visited: seq<bool>, dist: seq<int>, prev: seq<int>)
    requires WeightsFit(g, n) && 0 <= src < n
    requires RoundInvariant(g, n, src, n - 1, visited, dist, prev)
    ensures Settled(g, dist)
  {
    forall a, b | 0 <= a < n && 0 <= b < n && dist[a] != INF && g[a][b] != 0
      ensures dist[b] != INF && dist[b] <= dist[a] + g[a][b]
    {
      if !visited[a] && b != a {
        if !visited[b] {
          CountTrueTwoFalse(visited, a, b);
        }
        assert Before(dist, b, a);
      }
    }
  }
}
