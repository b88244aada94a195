/** The "Compute" action end to end: validate the request, and only if it
    is accepted run the engine and build the result rows. */
module Compute {
  import opened Graphs
  import opened InputValidation
  import opened Engine
  import opened PathTree
  import opened Report

  /** What a successful request shows: the validated problem, the arrays the
      engine filled, and the rows of the result table. */
  datatype Outcome = Outcome(problem: Problem, dist: seq<int>, prev: seq<int>, rows: seq<Row>)

  /** The weight on an edge line is small enough that sums along a shortest
      path cannot overflow a Java `int`. */
  predicate LineWeightFits(vertices: Field, line: seq<Field>)
  {
    vertices.Num? && vertices.value > 0 && |line| == 3 && line[2].Num? ==>
      line[2].value <= Cap(vertices.value)
  }

  method Compute(req: Request) returns (r: Result<Outcome>)
    requires WellFormed(req) ==> forall k :: 0 <= k < |req.lines| ==> LineWeightFits(req.vertices, req.lines[k])
    ensures r.Ok? <==> WellFormed(req)
    // a refused request reports the validator's error and computes nothing
    ensures r.Err? ==> Validate(req) == Err(r.error)
    ensures r.Ok? ==>
      var o := r.value;
      && Validate(req) == Ok(o.problem)
      && IsSquare(o.problem.graph, o.problem.n)
      && DijkstraOutcome(o.problem.graph, o.problem.source, o.dist, o.prev)
      && PreferredPredecessors(o.problem.graph, o.dist, o.prev)
      && Descending(o.dist, o.prev)
      && o.rows == Rows(o.dist, o.prev)
  {
    var v := Validate(req);
    if v.Err? {
      return Err(v.error);
    }
    var p := v.value;
    assert WeightsFit(p.graph, p.n) by {
      forall a, b | 0 <= a < p.n && 0 <= b < p.n ensures p.graph[a][b] <= Cap(p.n) {
        if p.graph[a][b] != 0 {
          var k :| 0 <= k < |req.lines| && p.graph[a][b] == req.lines[k][2].value;
          assert LineWeightFits(req.vertices, req.lines[k]);
        }
      }
    }
    var dist, prev := Dijkstra(p.graph, p.source, p.n);
    TreeDescends(p.graph, p.source, dist, prev);
    r := Ok(Outcome(p, dist, prev, Rows(dist, prev)));
  }
}
