/** Path reconstruction from the predecessor array, and what the finished
    arrays mean for walks in the graph: every reached vertex has a walk from
    the source of exactly its distance, no walk is shorter, and a vertex is
    reached exactly when some walk leads to it. */
module PathTree {
  import opened Graphs
  import opened Engine

  /** Predecessor links stay in range and lead to strictly nearer vertices,
      so following them always stops. */
  predicate Descending(dist: seq<int>, prev: seq<int>)
  {
    && |dist| == |prev|
    && (forall v :: 0 <= v < |dist| ==> dist[v] >= 0)
    && (forall v :: 0 <= v < |prev| && prev[v] != NONE ==>
          0 <= prev[v] < |prev| && dist[prev[v]] < dist[v])
  }

  /** `getPath(vertex, previous)`: the predecessor walk back from `v` to the
      first vertex without a predecessor, listed in forward order. The
      distances are the termination measure only. */
  function GetPath(prev: seq<int>, dist: seq<int>, v: int): (p: seq<int>)
    requires Descending(dist, prev) && 0 <= v < |prev|
    ensures |p| >= 1 && p[|p| - 1] == v
    ensures forall k :: 0 <= k < |p| ==> 0 <= p[k] < |prev| && dist[p[k]] <= dist[v]
    ensures prev[p[0]] == NONE
    ensures forall k :: 0 <= k < |p| - 1 ==> prev[p[k + 1]] == p[k]
    decreases dist[v]
  {
    if prev[v] == NONE then [v]
    else GetPath(prev, dist, prev[v]) + [v]
  }

  /** A predecessor tree has descending links: every tree edge has positive
      weight. */
  lemma TreeDescends(g: Matrix, src: int, dist: seq<int>, prev: seq<int>)
    requires IsSquare(g, |g|) && PredecessorTree(g, src, dist, prev)
    ensures Descending(dist, prev)
  {
  }

  /** For a reached vertex `v`, `getPath(v)` is a walk from the source to
      `v` whose weight is `dist[v]`; for the source it is the source alone. */
  lemma {:induction false} PathFromSource(g: Matrix, src: int, dist: seq<int>, prev: seq<int>, v: int)
    requires IsSquare(g, |g|) && PredecessorTree(g, src, dist, prev)
    requires 0 <= v < |g| && dist[v] != INF
    ensures Descending(dist, prev)
    ensures IsWalkBetween(g, src, v, GetPath(prev, dist, v))
    ensures PathWeight(g, GetPath(prev, dist, v)) == dist[v]
    ensures v == src ==> GetPath(prev, dist, v) == [src]
    decreases dist[v]
  {
    TreeDescends(g, src, dist, prev);
    if prev[v] != NONE {
      var u := prev[v];
      assert g[u][v] > 0 && dist[v] == dist[u] + g[u][v];
      PathFromSource(g, src, dist, prev, u);
      var q := GetPath(prev, dist, u);
      assert GetPath(prev, dist, v) == q + [v];
      WalkExtend(g, q, v);
    }
  }

  /** No walk from the source is shorter than the computed distance of its
      end, and its end is reached: distances that no edge can improve are
      lower bounds. */
  lemma {:induction false} NoWalkIsShorter(g: Matrix, src: int, dist: seq<int>, p: seq<int>)
    requires IsSquare(g, |g|) && |dist| == |g| && Settled(g, dist)
    requires IsWalk(g, p) && p[0] == src && dist[src] == 0
    ensures dist[p[|p| - 1]] != INF
    ensures dist[p[|p| - 1]] <= PathWeight(g, p)
    decreases |p|
  {
    if |p| > 1 {
      var q := p[..|p| - 1];
      WalkPrefix(g, p);
      NoWalkIsShorter(g, src, dist, q);
      var a, b := p[|p| - 2], p[|p| - 1];
      assert q[|q| - 1] == a;
      assert g[a][b] != 0;
    }
  }

  /** A vertex ends with a finite distance exactly when the source can reach it. */
  lemma ReachedIffReachable(g: Matrix, src: int, dist: seq<int>, prev: seq<int>, v: int)
    requires IsSquare(g, |g|) && DijkstraOutcome(g, src, dist, prev) && 0 <= v < |g|
    ensures dist[v] != INF <==> Reachable(g, src, v)
  {
    if dist[v] != INF {
      PathFromSource(g, src, dist, prev, v);
    }
    if Reachable(g, src, v) {
      var p :| IsWalkBetween(g, src, v, p);
      NoWalkIsShorter(g, src, dist, p);
    }
  }

  /** A vertex the source cannot reach keeps its initial state:
      `Integer.MAX_VALUE` and no predecessor. */
  lemma UnreachedKeepInitialState(g: Matrix, src: int, dist: seq<int>, prev: seq<int>, v: int)
    requires IsSquare(g, |g|) && DijkstraOutcome(g, src, dist, prev) && 0 <= v < |g|
    requires !Reachable(g, src, v)
    ensures dist[v] == INF && prev[v] == NONE
  {
    ReachedIffReachable(g, src, dist, prev, v);
  }

  /** The computed distance of every vertex is the least weight of a walk
      to it from the source, attained by its reconstructed path. */
  lemma DistIsShortest(g: Matrix, src: int, dist: seq<int>, prev: seq<int>, v: int)
    requires IsSquare(g, |g|) && DijkstraOutcome(g, src, dist, prev) && 0 <= v < |g|
    requires dist[v] != INF
    ensures Descending(dist, prev)
    ensures IsWalkBetween(g, src, v, GetPath(prev, dist, v))
    ensures PathWeight(g, GetPath(prev, dist, v)) == dist[v]
    ensures forall p :: IsWalkBetween(g, src, v, p) ==> dist[v] <= PathWeight(g, p)
  {
    PathFromSource(g, src, dist, prev, v);
    forall p | IsWalkBetween(g, src, v, p) ensures dist[v] <= PathWeight(g, p) {
      NoWalkIsShorter(g, src, dist, p);
    }
  }

  /** The distances are determined by the graph and the source: any two
      outcomes agree on them, so running the engine again changes nothing. */
  lemma DistancesUnique(g: Matrix, src: int, dist1: seq<int>, prev1: seq<int>,
                        dist2: seq<int>, prev2: seq<int>)
    requires IsSquare(g, |g|)
    requires DijkstraOutcome(g, src, dist1, prev1) && DijkstraOutcome(g, src, dist2, prev2)
    ensures dist1 == dist2
  {
    forall v | 0 <= v < |g| ensures dist1[v] == dist2[v] {
      ReachedIffReachable(g, src, dist1, prev1, v);
      ReachedIffReachable(g, src, dist2, prev2, v);
      if dist1[v] != INF {
        DistIsShortest(g, src, dist1, prev1, v);
        DistIsShortest(g, src, dist2, prev2, v);
        NoWalkIsShorter(g, src, dist2, GetPath(prev1, dist1, v));
        NoWalkIsShorter(g, src, dist1, GetPath(prev2, dist2, v));
      }
    }
  }

  /** The tree is determined too: two outcomes that both record, for every
      vertex, the predecessor the minimum selection reaches first have the
      same `dist` and the same `previous`, so exactly one shortest-path tree
      of the graph satisfies the contract of `Engine.Dijkstra`. */
  lemma TreeUnique(g: Matrix, src: int, dist1: seq<int>, prev1: seq<int>,
                   dist2: seq<int>, prev2: seq<int>)
    requires IsSquare(g, |g|)
    requires DijkstraOutcome(g, src, dist1, prev1) && PreferredPredecessors(g, dist1, prev1)
    requires DijkstraOutcome(g, src, dist2, prev2) && PreferredPredecessors(g, dist2, prev2)
    ensures dist1 == dist2 && prev1 == prev2
  {
    DistancesUnique(g, src, dist1, prev1, dist2, prev2);
    forall v | 0 <= v < |g| ensures prev1[v] == prev2[v] {
      if prev1[v] != NONE {
        RecordedIsTight(g, src, dist1, prev1, v);
      }
      if prev2[v] != NONE {
        RecordedIsTight(g, src, dist2, prev2, v);
      }
    }
  }

  /** A recorded predecessor sits on a tight edge. */
  lemma RecordedIsTight(g: Matrix, src: int, dist: seq<int>, prev: seq<int>, v: int)
    requires IsSquare(g, |g|) && PredecessorTree(g, src, dist, prev)
    requires 0 <= v < |g| && prev[v] != NONE
    ensures 0 <= prev[v] < |g| && Tight(g, dist, prev[v], v)
  {
  }
}
