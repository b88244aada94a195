/** The adjacency matrix shared by the validator and the shortest-path engine:
    a V×V table of `int` weights in which 0 means "no edge". */
module Graphs {

  type Matrix = seq<seq<int>>

  /** `g` has the shape of `new int[n][n]`. */
  predicate IsSquare(g: Matrix, n: nat)
  {
    |g| == n && forall i :: 0 <= i < n ==> |g[i]| == n
  }

  /** The matrix describes an undirected graph. */
  predicate Symmetric(g: Matrix)
    requires IsSquare(g, |g|)
  {
    forall a, b :: 0 <= a < |g| && 0 <= b < |g| ==> g[a][b] == g[b][a]
  }

  /** Every vertex of `p` is a vertex of `g`. */
  predicate InRange(g: Matrix, p: seq<int>)
  {
    forall k :: 0 <= k < |p| ==> 0 <= p[k] < |g|
  }

  /** Step `k` of `p` follows a non-zero entry of `g`. */
  predicate Linked(g: Matrix, p: seq<int>, k: int)
    requires IsSquare(g, |g|) && InRange(g, p) && 0 <= k < |p| - 1
  {
    g[p[k]][p[k + 1]] != 0
  }

  /** `p` is a walk in `g`: a non-empty sequence of vertices, each step
      following a non-zero entry. */
  predicate IsWalk(g: Matrix, p: seq<int>)
    requires IsSquare(g, |g|)
  {
    && |p| >= 1
    && InRange(g, p)
    && (forall k :: 0 <= k < |p| - 1 ==> Linked(g, p, k))
  }

  /** A walk from `s` to `v`. */
  predicate IsWalkBetween(g: Matrix, s: int, v: int, p: seq<int>)
    requires IsSquare(g, |g|)
  {
    IsWalk(g, p) && p[0] == s && p[|p| - 1] == v
  }

  /** Total weight of the steps of a sequence of vertices. */
  function PathWeight(g: Matrix, p: seq<int>): int
    requires IsSquare(g, |g|) && InRange(g, p)
  {
    if |p| <= 1 then 0
    else PathWeight(g, p[..|p| - 1]) + g[p[|p| - 2]][p[|p| - 1]]
  }

  /** `v` can be reached from `s` through non-zero entries of `g`. */
  ghost predicate Reachable(g: Matrix, s: int, v: int)
    requires IsSquare(g, |g|)
  {
    exists p :: IsWalkBetween(g, s, v, p)
  }

  /** Dropping the last step of a walk leaves a walk one step lighter. */
  lemma WalkPrefix(g: Matrix, p: seq<int>)
    requires IsSquare(g, |g|) && IsWalk(g, p) && |p| >= 2
    ensures IsWalk(g, p[..|p| - 1])
    ensures g[p[|p| - 2]][p[|p| - 1]] != 0
    ensures PathWeight(g, p) == PathWeight(g, p[..|p| - 1]) + g[p[|p| - 2]][p[|p| - 1]]
  {
    var q := p[..|p| - 1];
    assert InRange(g, q);
    forall k | 0 <= k < |q| - 1 ensures Linked(g, q, k) {
      assert Linked(g, p, k);
      assert q[k] == p[k] && q[k + 1] == p[k + 1];
    }
    assert Linked(g, p, |p| - 2);
  }

  lemma AppendInRange(g: Matrix, q: seq<int>, v: int)
    requires InRange(g, q) && 0 <= v < |g|
    ensures InRange(g, q + [v])
  {
    var p := q + [v];
    forall k | 0 <= k < |p| ensures 0 <= p[k] < |g| {
      if k < |q| {
        assert p[k] == q[k];
      }
    }
  }

  lemma AppendIsWalk(g: Matrix, q: seq<int>, v: int)
    requires IsSquare(g, |g|) && IsWalk(g, q) && 0 <= v < |g| && g[q[|q| - 1]][v] != 0
    ensures IsWalk(g, q + [v])
  {
    var p := q + [v];
    AppendInRange(g, q, v);
    forall k | 0 <= k < |p| - 1 ensures Linked(g, p, k) {
      if k < |q| - 1 {
        assert Linked(g, q, k);
        assert p[k] == q[k] && p[k + 1] == q[k + 1];
      } else {
        assert p[k] == q[|q| - 1] && p[k + 1] == v;
      }
    }
  }

  lemma AppendWeight(g: Matrix, q: seq<int>, v: int)
    requires IsSquare(g, |g|) && InRange(g, q) && |q| >= 1 && 0 <= v < |g|
    requires InRange(g, q + [v])
    ensures PathWeight(g, q + [v]) == PathWeight(g, q) + g[q[|q| - 1]][v]
  {
    var p := q + [v];
    assert p[..|p| - 1] == q;
    assert p[|p| - 2] == q[|q| - 1] && p[|p| - 1] == v;
  }

  /** Adding a step along a non-zero entry extends a walk by that weight. */
  lemma WalkExtend(g: Matrix, q: seq<int>, v: int)
    requires IsSquare(g, |g|) && IsWalk(g, q) && 0 <= v < |g| && g[q[|q| - 1]][v] != 0
    ensures IsWalk(g, q + [v])
    ensures PathWeight(g, q + [v]) == PathWeight(g, q) + g[q[|q| - 1]][v]
  {
    AppendIsWalk(g, q, v);
    AppendWeight(g, q, v);
  }
}
