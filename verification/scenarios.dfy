/** Worked examples: concrete requests and what the model says about them. */
module Scenarios {
  import opened JavaInt
  import opened Graphs
  import opened InputValidation
  import opened Engine
  import opened PathTree
  import opened Report

  function Line(a: Int32, b: Int32, w: Int32): seq<Field>
  {
    [Num(a), Num(b), Num(w)]
  }

  /** Lines that each decode to an edge decode, together, to those edges. */
  lemma Decodes(n: int, lines: seq<seq<Field>>, edges: seq<Edge>)
    requires |lines| == |edges|
    requires forall k :: 0 <= k < |lines| ==> CheckLine(n, lines[k]) == Ok(edges[k])
    ensures CheckLines(n, lines) == Ok(edges)
  {
    var r := CheckLines(n, lines);
    assert r.Ok?;
    assert forall k :: 0 <= k < |lines| ==> r.value[k] == edges[k];
    assert r.value == edges;
  }

  /** Two square matrices with the same entries are the same matrix. */
  lemma SameEntries(g: Matrix, h: Matrix, n: nat)
    requires IsSquare(g, n) && IsSquare(h, n)
    requires forall a, b :: 0 <= a < n && 0 <= b < n ==> g[a][b] == h[a][b]
    ensures g == h
  {
    forall a | 0 <= a < n ensures g[a] == h[a] {
    }
  }

  /** The matrix the validator builds from `edges`, entry by entry. */
  lemma BuiltEntries(n: nat, edges: seq<Edge>)
    requires forall k :: 0 <= k < |edges| ==> EdgeIn(n, edges[k])
    ensures forall a, b :: 0 <= a < n && 0 <= b < n ==>
      && ((forall k :: 0 <= k < |edges| ==> !Names(edges[k], a, b)) ==> BuildGraph(n, edges)[a][b] == 0)
      && (forall k ::
            (0 <= k < |edges| && Names(edges[k], a, b) &&
             (forall j :: k < j < |edges| ==> !Names(edges[j], a, b)))
            ==> BuildGraph(n, edges)[a][b] == edges[k].weight)
  {
    forall a, b | 0 <= a < n && 0 <= b < n {
      BuildGraphEntry(n, edges, a, b);
    }
  }

  const TRIANGLE: Matrix := [[0, 4, 9], [4, 0, 2], [9, 2, 0]]

  /** Three vertices, edges 0-1 (4), 1-2 (2), 0-2 (9), source 0: the request
      is accepted with the triangle's matrix. */
  lemma TriangleAccepted()
    ensures Validate(Request(Num(3), Num(3), Num(0), [Line(0, 1, 4), Line(1, 2, 2), Line(0, 2, 9)]))
         == Ok(Problem(3, 0, TRIANGLE))
  {
    var lines := [Line(0, 1, 4), Line(1, 2, 2), Line(0, 2, 9)];
    var edges := [Edge(0, 1, 4), Edge(1, 2, 2), Edge(0, 2, 9)];
    assert lines[1..] == [Line(1, 2, 2), Line(0, 2, 9)];
    assert lines[1..][1..] == [Line(0, 2, 9)];
    assert CheckLine(3, lines[0]) == Ok(edges[0]);
    assert CheckLine(3, lines[1]) == Ok(edges[1]);
    assert CheckLine(3, lines[2]) == Ok(edges[2]);
    Decodes(3, lines, edges);
    BuiltEntries(3, edges);
    SameEntries(BuildGraph(3, edges), TRIANGLE, 3);
  }

  /** The tree edge into a reached vertex other than the source. */
  lemma TreeEdge(g: Matrix, src: int, dist: seq<int>, prev: seq<int>, v: int)
    requires IsSquare(g, |g|) && PredecessorTree(g, src, dist, prev)
    requires 0 <= v < |g| && v != src && dist[v] != INF
    ensures 0 <= prev[v] < |g| && g[prev[v]][v] > 0 && dist[v] == dist[prev[v]] + g[prev[v]][v]
  {
  }

  /** One edge of a settled outcome: its far end is no farther than the near end plus the edge. */
  lemma SettledEdge(g: Matrix, dist: seq<int>, a: int, b: int)
    requires IsSquare(g, |g|) && |dist| == |g| && Settled(g, dist)
    requires 0 <= a < |g| && 0 <= b < |g| && dist[a] != INF && g[a][b] != 0
    ensures dist[b] != INF && dist[b] <= dist[a] + g[a][b]
  {
  }

  /** ... and every outcome of the engine on it has distances 0, 4, 6, with
      vertex 1 reached from 0 and vertex 2 from 1. */
  lemma TriangleDistances(dist: seq<int>, prev: seq<int>)
    requires DijkstraOutcome(TRIANGLE, 0, dist, prev)
    ensures dist == [0, 4, 6]
    ensures prev == [NONE, 0, 1]
  {
    var g := TRIANGLE;
    assert |dist| == 3 && |prev| == 3 && dist[0] == 0 && prev[0] == NONE;
    SettledEdge(g, dist, 0, 1);
    SettledEdge(g, dist, 1, 2);
    var d1, d2 := dist[1], dist[2];
    TreeEdge(g, 0, dist, prev, 2);
    var p := prev[2];
    assert (p == 0 && d2 == 9) || (p == 1 && d2 == d1 + 2) by {
      if p == 0 {} else if p == 1 {} else {}
    }
    TreeEdge(g, 0, dist, prev, 1);
    var q := prev[1];
    assert (q == 0 && d1 == 4) || (q == 2 && d1 == d2 + 2) by {
      if q == 0 {} else if q == 1 {} else {}
    }
    Three(dist, 0, 4, 6);
    Three(prev, NONE, 0, 1);
  }

  lemma Three(s: seq<int>, a: int, b: int, c: int)
    requires |s| == 3 && s[0] == a && s[1] == b && s[2] == c
    ensures s == [a, b, c]
  {
  }

  /** ... so the row of vertex 2 shows the path "0 -> 1 -> 2". */
  lemma TrianglePath(dist: seq<int>, prev: seq<int>)
    requires DijkstraOutcome(TRIANGLE, 0, dist, prev)
    ensures Descending(dist, prev)
    ensures GetPath(prev, dist, 2) == [0, 1, 2]
    ensures PathString(prev, dist, 2) == "0 -> 1 -> 2"
  {
    TriangleDistances(dist, prev);
    TreeDescends(TRIANGLE, 0, dist, prev);
    TriangleTreePath();
  }

  /** The path of vertex 2 in the tree with distances 0, 4, 6 and links
      1 -> 0, 2 -> 1 ... */
  lemma TriangleTreePath()
    ensures Descending([0, 4, 6], [NONE, 0, 1])
    ensures GetPath([NONE, 0, 1], [0, 4, 6], 2) == [0, 1, 2]
    ensures PathString([NONE, 0, 1], [0, 4, 6], 2) == "0 -> 1 -> 2"
  {
    var prev, dist := [NONE, 0, 1], [0, 4, 6];
    assert GetPath(prev, dist, 0) == [0];
    assert GetPath(prev, dist, 1) == [0, 1];
    TriangleTreeText();
  }

  /** ... and as the program prints it. */
  lemma TriangleTreeText()
    ensures Descending([0, 4, 6], [NONE, 0, 1])
    ensures PathString([NONE, 0, 1], [0, 4, 6], 2) == "0 -> 1 -> 2"
  {
    var prev, dist := [NONE, 0, 1], [0, 4, 6];
    assert Decimal(0) == "0" && Decimal(1) == "1" && Decimal(2) == "2";
    assert PathString(prev, dist, 0) == "0";
    assert PathString(prev, dist, 1) == "0" + ARROW + "1";
  }

  const ISOLATED: Matrix := [[0, 1, 0, 0], [1, 0, 0, 0], [0, 0, 0, 0], [0, 0, 0, 0]]

  /** Four vertices, a single edge 0-1, source 2: the request is accepted
      with a matrix in which vertex 2 has no neighbour ... */
  lemma IsolatedAccepted()
    ensures Validate(Request(Num(4), Num(1), Num(2), [Line(0, 1, 1)])) == Ok(Problem(4, 2, ISOLATED))
  {
    var edges := [Edge(0, 1, 1)];
    assert CheckLine(4, Line(0, 1, 1)) == Ok(edges[0]);
    Decodes(4, [Line(0, 1, 1)], edges);
    BuiltEntries(4, edges);
    SameEntries(BuildGraph(4, edges), ISOLATED, 4);
  }

  /** Vertex 3 has no neighbour, so no tree edge leads into it. */
  lemma IsolatedThreeUnreached(dist: seq<int>, prev: seq<int>)
    requires PredecessorTree(ISOLATED, 2, dist, prev)
    ensures dist[3] == INF && prev[3] == NONE
  {
    if dist[3] != INF {
      TreeEdge(ISOLATED, 2, dist, prev, 3);
      assert false;
    }
  }

  /** Vertices 0 and 1 are each other's only neighbour: a tree edge into
      either would close a cycle of strictly increasing distances. */
  lemma IsolatedPairUnreached(dist: seq<int>, prev: seq<int>)
    requires PredecessorTree(ISOLATED, 2, dist, prev)
    ensures dist[0] == INF && prev[0] == NONE
    ensures dist[1] == INF && prev[1] == NONE
  {
    if dist[0] != INF || dist[1] != INF {
      var v := if dist[0] != INF then 0 else 1;
      TreeEdge(ISOLATED, 2, dist, prev, v);
      TreeEdge(ISOLATED, 2, dist, prev, 1 - v);
      assert false;
    }
  }

  /** ... so only the source is reached, and every other row reads "INF" and "-". */
  lemma IsolatedSource(dist: seq<int>, prev: seq<int>)
    requires DijkstraOutcome(ISOLATED, 2, dist, prev)
    ensures dist == [INF, INF, 0, INF]
    ensures prev == [NONE, NONE, NONE, NONE]
  {
    IsolatedThreeUnreached(dist, prev);
    IsolatedPairUnreached(dist, prev);
    Four(dist, INF, INF, 0, INF);
    Four(prev, NONE, NONE, NONE, NONE);
  }

  lemma Four(s: seq<int>, a: int, b: int, c: int, d: int)
    requires |s| == 4 && s[0] == a && s[1] == b && s[2] == c && s[3] == d
    ensures s == [a, b, c, d]
  {
  }

  /** Three vertices cannot carry four edges: refused before any matrix is built. */
  lemma TooManyEdges(lines: seq<seq<Field>>)
    ensures Validate(Request(Num(3), Num(4), Num(0), lines)) == Err(BadCounts)
  {
  }

  /** A zero weight is refused: 0 already means "no edge". */
  lemma ZeroWeightRefused()
    ensures Validate(Request(Num(3), Num(1), Num(0), [Line(0, 1, 0)])) == Err(BadEdge)
  {
  }

  /** A self-loop line passes validation and lands on the diagonal. */
  lemma SelfLoopAccepted()
    ensures Validate(Request(Num(2), Num(1), Num(0), [Line(1, 1, 5)])) == Ok(Problem(2, 0, [[0, 0], [0, 5]]))
  {
    var edges := [Edge(1, 1, 5)];
    assert CheckLine(2, Line(1, 1, 5)) == Ok(edges[0]);
    Decodes(2, [Line(1, 1, 5)], edges);
    BuiltEntries(2, edges);
    SameEntries(BuildGraph(2, edges), [[0, 0], [0, 5]], 2);
  }

  /** Of two vertices at the same least distance the scan keeps the later
      one: ties go to the highest index. */
  lemma TieGoesToHighestIndex(u: int)
    ensures IsMinUnvisited([7, 3, 3, 9], [false, false, false, false], u) <==> u == 2
  {
    var d, vis := [7, 3, 3, 9], [false, false, false, false];
    if IsMinUnvisited(d, vis, u) {
      assert d[u] <= d[1] && d[u] <= d[2];
    }
  }

  /** The 4-cycle 0–1, 0–2, 1–3, 2–3 with unit weights: vertex 3 is at
      distance 2 through 1 and through 2, equally near; the outcome records 2,
      the higher-indexed of the two, as the program's scan selects it first. */
  const CYCLE: Matrix := [[0, 1, 1, 0], [1, 0, 0, 1], [1, 0, 0, 1], [0, 1, 1, 0]]

  lemma CycleTieBreak(dist: seq<int>, prev: seq<int>)
    requires DijkstraOutcome(CYCLE, 0, dist, prev)
    requires PreferredPredecessors(CYCLE, dist, prev)
    ensures dist == [0, 1, 1, 2]
    ensures prev == [NONE, 0, 0, 2]
  {
    CycleDistances(dist, prev);
    assert Tight(CYCLE, dist, 2, 3);
    assert Tight(CYCLE, dist, 0, 1) && Tight(CYCLE, dist, 0, 2);
  }

  /** The row of vertex 3 on the 4-cycle shows distance 2 and the path
      "0 -> 2 -> 3", through the higher-indexed of the two equally near
      neighbours. */
  lemma CycleRow(dist: seq<int>, prev: seq<int>)
    requires DijkstraOutcome(CYCLE, 0, dist, prev)
    requires PreferredPredecessors(CYCLE, dist, prev)
    ensures Descending(dist, prev)
    ensures MakeRow(dist, prev, 3) == Row(3, Distance(2), [0, 2, 3])
  {
    CycleTieBreak(dist, prev);
    TreeDescends(CYCLE, 0, dist, prev);
    var p := MakeRow(dist, prev, 3).path;
    var m := |p| - 1;
    assert p[m] == 3;
    // walking the `previous` links back from 3: 2, then 0, which has none
    assert m >= 1 && p[m - 1] == 2;
    assert m >= 2 && p[m - 2] == 0;
    // only the first vertex of the chain lacks a predecessor, and 0 does
    LinkedBelowFirst(prev, p);
    assert prev[p[m - 2]] == NONE;
    assert p == [0, 2, 3];
  }

  /** In a chain of `previous` links every vertex after the first has a
      predecessor. */
  lemma LinkedBelowFirst(prev: seq<int>, p: seq<nat>)
    requires forall k :: 0 <= k < |p| ==> p[k] < |prev|
    requires forall k :: 0 <= k < |p| - 1 ==> prev[p[k + 1]] == p[k]
    ensures forall j :: 0 < j < |p| ==> prev[p[j]] != NONE
  {
    forall j | 0 < j < |p| ensures prev[p[j]] != NONE {
      assert prev[p[(j - 1) + 1]] == p[j - 1];
    }
  }

  lemma CycleDistances(dist: seq<int>, prev: seq<int>)
    requires DijkstraOutcome(CYCLE, 0, dist, prev)
    ensures dist == [0, 1, 1, 2]
  {
    var g := CYCLE;
    assert g[0][1] == 1 && g[0][2] == 1 && g[1][3] == 1 && g[2][3] == 1;
    assert dist[1] <= 1 && dist[2] <= 1;
    assert prev[1] != NONE && prev[2] != NONE;
    assert dist[1] == 1 && dist[2] == 1;
    assert dist[3] <= 2 && prev[3] != NONE;
    assert prev[3] == 1 || prev[3] == 2;
  }
}
