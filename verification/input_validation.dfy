/** Input validation and graph construction of the "Compute" action: the
    vertex and edge counts, the source vertex, the edge lines and the
    symmetric adjacency matrix filled from them. The text fields arrive
    already split into numeric fields; each field either parsed as a Java
    `int` or did not. */
module InputValidation {
  import opened JavaInt
  import opened Graphs

  /** One text field after `Integer.parseInt`. */
  datatype Field = Num(value: Int32) | NotANumber

  /** The contents of the vertex, edge and source fields and of the edge
      text area, one sequence of fields per line. */
  datatype Request = Request(vertices: Field, edges: Field, source: Field, lines: seq<seq<Field>>)

  /** The distinct messages the program shows before giving up on a request. */
  datatype InputError =
    | NonNumeric      // "Please enter valid numeric values ..."
    | BadCounts       // "Invalid number of vertices or edges ..."
    | BadSource       // "Invalid source vertex ..."
    | WrongLineCount  // "Please enter exactly E edges."
    | BadLineFormat   // "Each edge should have format: src dest weight."
    | BadEdge         // "Invalid edge values ..."

  datatype Result<T> = Ok(value: T) | Err(error: InputError)

  datatype Edge = Edge(src: int, dest: int, weight: int)

  /** A validated request: what the shortest-path engine is called with. */
  datatype Problem = Problem(n: nat, source: nat, graph: Matrix)

  /** The count check with mathematical integers: V > 0, E > 0 and no more
      edges than a simple undirected graph on V vertices has. */
  predicate CountsOk(v: int, e: int)
  {
    v > 0 && e > 0 && e <= v * (v - 1) / 2
  }

  /** The count check exactly as the Java expression evaluates it, with
      `V * (V - 1)` wrapping around at 32 bits and `/` rounding toward zero. */
  predicate CountsOkAsWritten(v: Int32, e: Int32)
  {
    !(v <= 0 || e <= 0 || e > JavaDiv(Wrap(v * Wrap(v - 1)), 2))
  }

  /** An edge line the validator lets through, for a graph on `n` vertices. */
  predicate LineOk(n: int, line: seq<Field>)
  {
    && |line| == 3
    && line[0].Num? && line[1].Num? && line[2].Num?
    && 0 <= line[0].value < n
    && 0 <= line[1].value < n
    && line[2].value > 0
  }

  /** The whole acceptance condition, stated declaratively. */
  predicate WellFormed(req: Request)
  {
    && req.vertices.Num? && req.edges.Num? && req.source.Num?
    && CountsOk(req.vertices.value, req.edges.value)
    && 0 <= req.source.value < req.vertices.value
    && |req.lines| == req.edges.value
    && forall k :: 0 <= k < |req.lines| ==> LineOk(req.vertices.value, req.lines[k])
  }

  /** The checks applied to one edge line, in the program's order: field
      count, then parsing of the three fields, then ranges and sign. */
  function CheckLine(n: int, line: seq<Field>): (r: Result<Edge>)
    ensures r.Ok? <==> LineOk(n, line)
    ensures r.Ok? ==> r.value == Edge(line[0].value, line[1].value, line[2].value)
    ensures r.Err? ==> r.error in {BadLineFormat, NonNumeric, BadEdge}
    ensures |line| != 3 ==> r == Err(BadLineFormat)
    // a field that is not a number is reported before the range checks
    ensures |line| == 3 && !(line[0].Num? && line[1].Num? && line[2].Num?) ==> r == Err(NonNumeric)
    // three numbers that fail the range checks are an invalid edge
    ensures |line| == 3 && line[0].Num? && line[1].Num? && line[2].Num? && !LineOk(n, line) ==> r == Err(BadEdge)
  {
    if |line| != 3 then Err(BadLineFormat)
    else if !(line[0].Num? && line[1].Num? && line[2].Num?) then Err(NonNumeric)
    else
      var src, dest, weight := line[0].value, line[1].value, line[2].value;
      if src < 0 || src >= n || dest < 0 || dest >= n || weight <= 0 then Err(BadEdge)
      else Ok(Edge(src, dest, weight))
  }

  /** The edge lines checked in order: the first line that fails decides the
      error; otherwise the decoded edges, one per line. */
  function CheckLines(n: int, lines: seq<seq<Field>>): (r: Result<seq<Edge>>)
    ensures r.Ok? <==> forall k :: 0 <= k < |lines| ==> LineOk(n, lines[k])
    ensures r.Ok? ==>
      && |r.value| == |lines|
      && forall k :: 0 <= k < |lines| ==> CheckLine(n, lines[k]) == Ok(r.value[k])
    ensures r.Err? ==>
      exists k :: && 0 <= k < |lines|
                  && (forall j :: 0 <= j < k ==> LineOk(n, lines[j]))
                  && CheckLine(n, lines[k]) == Err(r.error)
  {
    if |lines| == 0 then Ok([])
    else
      match CheckLine(n, lines[0])
      case Err(e) => Err(e)
      case Ok(edge) =>
        match CheckLines(n, lines[1..])
        case Err(e) =>
          assert forall j :: 1 <= j < |lines| ==> lines[j] == lines[1..][j - 1];
          Err(e)
        case Ok(rest) => Ok([edge] + rest)
  }

  /** `new int[n][n]`. */
  function Zero(n: nat): (g: Matrix)
    ensures IsSquare(g, n)
    ensures forall a, b :: 0 <= a < n && 0 <= b < n ==> g[a][b] == 0
  {
    seq(n, _ => seq(n, _ => 0))
  }

  /** Both in range of a graph on `n` vertices. */
  predicate EdgeIn(n: nat, e: Edge)
  {
    0 <= e.src < n && 0 <= e.dest < n
  }

  /** The edge's line names the unordered pair {a, b}. */
  predicate Names(e: Edge, a: int, b: int)
  {
    (e.src == a && e.dest == b) || (e.src == b && e.dest == a)
  }

  /** Stores an edge line: the weight goes into both orientations of the
      pair, and every other entry keeps its value. */
  function SetEdge(g: Matrix, e: Edge): (g': Matrix)
    requires IsSquare(g, |g|) && EdgeIn(|g|, e)
    ensures IsSquare(g', |g|)
    ensures forall a, b :: 0 <= a < |g| && 0 <= b < |g| ==>
      g'[a][b] == if Names(e, a, b) then e.weight else g[a][b]
  {
    var g1 := g[e.src := g[e.src][e.dest := e.weight]];
    g1[e.dest := g1[e.dest][e.src := e.weight]]
  }

  /** The matrix after the edge lines have been applied in order. */
  function BuildGraph(n: nat, edges: seq<Edge>): (g: Matrix)
    requires forall k :: 0 <= k < |edges| ==> EdgeIn(n, edges[k])
    ensures IsSquare(g, n)
  {
    if |edges| == 0 then Zero(n)
    else SetEdge(BuildGraph(n, edges[..|edges| - 1]), edges[|edges| - 1])
  }

  /** Each entry of the built matrix is the weight of the LAST line naming
      that pair of vertices, in either orientation, and 0 when no line names
      it: a later duplicate overwrites an earlier one. */
  lemma {:induction false} BuildGraphEntry(n: nat, edges: seq<Edge>, a: int, b: int)
    requires forall k :: 0 <= k < |edges| ==> EdgeIn(n, edges[k])
    requires 0 <= a < n && 0 <= b < n
    ensures (forall k :: 0 <= k < |edges| ==> !Names(edges[k], a, b)) ==>
      BuildGraph(n, edges)[a][b] == 0
    ensures forall k ::
      (0 <= k < |edges| && Names(edges[k], a, b) &&
       (forall j :: k < j < |edges| ==> !Names(edges[j], a, b)))
      ==> BuildGraph(n, edges)[a][b] == edges[k].weight
  {
    if |edges| > 0 {
      var init := edges[..|edges| - 1];
      BuildGraphEntry(n, init, a, b);
      BuildGraphLast(n, edges, a, b);
      assert forall k :: 0 <= k < |init| ==> init[k] == edges[k];
    }
  }

  /** The last line either names the pair and sets its entry, or leaves the
      entry as the earlier lines built it. */
  lemma BuildGraphLast(n: nat, edges: seq<Edge>, a: int, b: int)
    requires |edges| > 0 && forall k :: 0 <= k < |edges| ==> EdgeIn(n, edges[k])
    requires 0 <= a < n && 0 <= b < n
    ensures BuildGraph(n, edges)[a][b] ==
      if Names(edges[|edges| - 1], a, b) then edges[|edges| - 1].weight
      else BuildGraph(n, edges[..|edges| - 1])[a][b]
  {
  }

  /** The built matrix is symmetric. */
  lemma {:induction false} BuildGraphSymmetric(n: nat, edges: seq<Edge>)
    requires forall k :: 0 <= k < |edges| ==> EdgeIn(n, edges[k])
    ensures Symmetric(BuildGraph(n, edges))
  {
    forall a, b | 0 <= a < n && 0 <= b < n
      ensures BuildGraph(n, edges)[a][b] == BuildGraph(n, edges)[b][a]
    {
      BuildGraphPairSymmetric(n, edges, a, b);
    }
  }

  lemma {:induction false} BuildGraphPairSymmetric(n: nat, edges: seq<Edge>, a: int, b: int)
    requires forall k :: 0 <= k < |edges| ==> EdgeIn(n, edges[k])
    requires 0 <= a < n && 0 <= b < n
    ensures BuildGraph(n, edges)[a][b] == BuildGraph(n, edges)[b][a]
  {
    if |edges| > 0 {
      BuildGraphPairSymmetric(n, edges[..|edges| - 1], a, b);
    }
  }

  /** Every entry is 0 or the (positive) weight of some edge line. */
  lemma {:induction false} BuildGraphEntriesFromEdges(n: nat, edges: seq<Edge>, a: int, b: int)
    requires forall k :: 0 <= k < |edges| ==> EdgeIn(n, edges[k])
    requires 0 <= a < n && 0 <= b < n
    ensures BuildGraph(n, edges)[a][b] == 0 ||
      exists k :: 0 <= k < |edges| && BuildGraph(n, edges)[a][b] == edges[k].weight
  {
    if |edges| > 0 {
      var init := edges[..|edges| - 1];
      BuildGraphEntriesFromEdges(n, init, a, b);
      if BuildGraph(n, edges)[a][b] != 0 && !Names(edges[|edges| - 1], a, b) {
        var k :| 0 <= k < |init| && BuildGraph(n, init)[a][b] == init[k].weight;
        assert edges[k] == init[k];
      }
    }
  }

  /** The event handler's checks, in its order: parse V and E, check the
      counts, parse and check the source, check the number of lines, then
      check each line in turn and fill the matrix. */
  function Validate(req: Request): (r: Result<Problem>)
    ensures r.Ok? <==> WellFormed(req)
    ensures !(req.vertices.Num? && req.edges.Num?) ==> r == Err(NonNumeric)
    ensures req.vertices.Num? && req.edges.Num? && !CountsOk(req.vertices.value, req.edges.value) ==>
      r == Err(BadCounts)
    ensures (req.vertices.Num? && req.edges.Num? && CountsOk(req.vertices.value, req.edges.value) &&
             !req.source.Num?) ==> r == Err(NonNumeric)
    ensures r == Err(BadSource) <==>
      req.vertices.Num? && req.edges.Num? && CountsOk(req.vertices.value, req.edges.value) &&
      req.source.Num? && !(0 <= req.source.value < req.vertices.value)
    ensures r == Err(WrongLineCount) <==>
      req.vertices.Num? && req.edges.Num? && CountsOk(req.vertices.value, req.edges.value) &&
      req.source.Num? && 0 <= req.source.value < req.vertices.value &&
      |req.lines| != req.edges.value
    ensures
      && req.vertices.Num? && req.edges.Num? && CountsOk(req.vertices.value, req.edges.value)
      && req.source.Num? && 0 <= req.source.value < req.vertices.value
      && |req.lines| == req.edges.value && r.Err?
      ==> CheckLines(req.vertices.value, req.lines) == Err(r.error)
    ensures r.Ok? ==>
      && r.value.n == req.vertices.value
      && r.value.source == req.source.value
      && IsSquare(r.value.graph, r.value.n)
      && Symmetric(r.value.graph)
      && (forall a, b :: 0 <= a < r.value.n && 0 <= b < r.value.n ==> r.value.graph[a][b] >= 0)
    ensures r.Ok? ==> forall a, b :: 0 <= a < r.value.n && 0 <= b < r.value.n ==>
      r.value.graph[a][b] == 0 ||
      exists k :: 0 <= k < |req.lines| && r.value.graph[a][b] == req.lines[k][2].value
  {
    if !(req.vertices.Num? && req.edges.Num?) then Err(NonNumeric)
    else
      var v, e := req.vertices.value, req.edges.value;
      if !CountsOk(v, e) then Err(BadCounts)
      else if !req.source.Num? then Err(NonNumeric)
      else if !(0 <= req.source.value < v) then Err(BadSource)
      else if |req.lines| != e then Err(WrongLineCount)
      else
        match CheckLines(v, req.lines)
        case Err(err) => Err(err)
        case Ok(edges) =>
          AcceptedGraph(v, req.lines, edges);
          Ok(Problem(v, req.source.value, BuildGraph(v, edges)))
  }

  /** The matrix built from lines that all passed: symmetric, non-negative,
      and every entry 0 or the weight of one of the lines. */
  lemma AcceptedGraph(n: nat, lines: seq<seq<Field>>, edges: seq<Edge>)
    requires CheckLines(n, lines) == Ok(edges)
    ensures forall k :: 0 <= k < |edges| ==> EdgeIn(n, edges[k])
    ensures Symmetric(BuildGraph(n, edges))
    ensures forall a, b :: 0 <= a < n && 0 <= b < n ==> BuildGraph(n, edges)[a][b] >= 0
    ensures forall a, b :: 0 <= a < n && 0 <= b < n ==>
      BuildGraph(n, edges)[a][b] == 0 ||
      exists k :: 0 <= k < |lines| && BuildGraph(n, edges)[a][b] == lines[k][2].value
  {
    forall k | 0 <= k < |edges| ensures EdgeIn(n, edges[k]) {
      assert CheckLine(n, lines[k]) == Ok(edges[k]);
    }
    var g := BuildGraph(n, edges);
    BuildGraphSymmetric(n, edges);
    forall a, b | 0 <= a < n && 0 <= b < n
      ensures g[a][b] >= 0
      ensures g[a][b] == 0 || exists k :: 0 <= k < |lines| && g[a][b] == lines[k][2].value
    {
      BuildGraphEntriesFromEdges(n, edges, a, b);
      if g[a][b] != 0 {
        var k :| 0 <= k < |edges| && g[a][b] == edges[k].weight;
        assert CheckLine(n, lines[k]) == Ok(edges[k]);
      }
    }
  }

  /** On success the matrix holds exactly the edges of the request, the last
      line for each pair winning. */
  lemma ValidateBuildsLastWeights(req: Request, a: int, b: int)
    requires WellFormed(req)
    requires 0 <= a < req.vertices.value && 0 <= b < req.vertices.value
    ensures var g := Validate(req).value.graph;
      && ((forall k :: 0 <= k < |req.lines| ==> !NamesLine(req.lines[k], a, b)) ==> g[a][b] == 0)
      && (forall k ::
            (0 <= k < |req.lines| && NamesLine(req.lines[k], a, b) &&
             (forall j :: k < j < |req.lines| ==> !NamesLine(req.lines[j], a, b)))
            ==> g[a][b] == req.lines[k][2].value)
  {
    var v := req.vertices.value;
    var edges := CheckLines(v, req.lines).value;
    ValidateGraph(req);
    LinesDecode(v, req.lines, edges);
    LastWeights(v, req.lines, edges, a, b);
  }

  /** An accepted request's matrix is the one built from its decoded lines. */
  lemma ValidateGraph(req: Request)
    requires WellFormed(req)
    ensures CheckLines(req.vertices.value, req.lines).Ok?
    ensures var edges := CheckLines(req.vertices.value, req.lines).value;
      && (forall k :: 0 <= k < |edges| ==> EdgeIn(req.vertices.value, edges[k]))
      && Validate(req).value.graph == BuildGraph(req.vertices.value, edges)
  {
    AcceptedGraph(req.vertices.value, req.lines, CheckLines(req.vertices.value, req.lines).value);
  }

  /** The last-line-wins rule, restated over the accepted lines themselves. */
  lemma LastWeights(n: nat, lines: seq<seq<Field>>, edges: seq<Edge>, a: int, b: int)
    requires DecodesTo(n, lines, edges)
    requires 0 <= a < n && 0 <= b < n
    ensures forall k :: 0 <= k < |edges| ==> EdgeIn(n, edges[k])
    ensures forall k :: 0 <= k < |lines| ==> LineOk(n, lines[k])
    ensures (forall k :: 0 <= k < |lines| ==> !NamesLine(lines[k], a, b)) ==>
      BuildGraph(n, edges)[a][b] == 0
    ensures forall k ::
      (0 <= k < |lines| && NamesLine(lines[k], a, b) &&
       (forall j :: k < j < |lines| ==> !NamesLine(lines[j], a, b)))
      ==> BuildGraph(n, edges)[a][b] == lines[k][2].value
  {
    EdgesInRange(n, lines, edges);
    if forall k :: 0 <= k < |lines| ==> !NamesLine(lines[k], a, b) {
      NoLineNoWeight(n, lines, edges, a, b);
    }
    forall k | 0 <= k < |lines| && NamesLine(lines[k], a, b) &&
               (forall j :: k < j < |lines| ==> !NamesLine(lines[j], a, b))
      ensures BuildGraph(n, edges)[a][b] == lines[k][2].value
    {
      LastLineWins(n, lines, edges, k, a, b);
    }
  }

  /** A pair no line names keeps its 0. */
  lemma NoLineNoWeight(n: nat, lines: seq<seq<Field>>, edges: seq<Edge>, a: int, b: int)
    requires DecodesTo(n, lines, edges)
    requires forall k :: 0 <= k < |edges| ==> EdgeIn(n, edges[k])
    requires 0 <= a < n && 0 <= b < n
    requires forall k :: 0 <= k < |lines| ==> !NamesLine(lines[k], a, b)
    ensures BuildGraph(n, edges)[a][b] == 0
  {
    forall k | 0 <= k < |edges| ensures !Names(edges[k], a, b) {
      NamesAgree(n, lines, edges, k, a, b);
    }
    BuildGraphEntry(n, edges, a, b);
  }

  lemma EdgesInRange(n: nat, lines: seq<seq<Field>>, edges: seq<Edge>)
    requires DecodesTo(n, lines, edges)
    ensures forall k :: 0 <= k < |edges| ==> EdgeIn(n, edges[k])
  {
  }

  /** The entry of a pair is the weight of the last line naming it. */
  lemma LastLineWins(n: nat, lines: seq<seq<Field>>, edges: seq<Edge>, k: int, a: int, b: int)
    requires DecodesTo(n, lines, edges)
    requires forall k :: 0 <= k < |edges| ==> EdgeIn(n, edges[k])
    requires 0 <= a < n && 0 <= b < n
    requires 0 <= k < |lines| && NamesLine(lines[k], a, b)
    requires forall j :: k < j < |lines| ==> !NamesLine(lines[j], a, b)
    ensures BuildGraph(n, edges)[a][b] == lines[k][2].value
  {
    BuildGraphEntry(n, edges, a, b);
    NamesAgree(n, lines, edges, k, a, b);
    forall j | k < j < |edges| ensures !Names(edges[j], a, b) {
      NamesAgree(n, lines, edges, j, a, b);
    }
  }

  /** A decoded line names the same pair, with the same weight, as its edge. */
  lemma NamesAgree(n: nat, lines: seq<seq<Field>>, edges: seq<Edge>, k: int, a: int, b: int)
    requires DecodesTo(n, lines, edges) && 0 <= k < |lines|
    ensures NamesLine(lines[k], a, b) <==> Names(edges[k], a, b)
    ensures lines[k][2].value == edges[k].weight
  {
  }

  /** Every line passed and decodes field by field into the edge at its position. */
  predicate DecodesTo(n: int, lines: seq<seq<Field>>, edges: seq<Edge>)
  {
    && |edges| == |lines|
    && forall k :: 0 <= k < |lines| ==>
         LineOk(n, lines[k]) &&
         edges[k] == Edge(lines[k][0].value, lines[k][1].value, lines[k][2].value)
  }

  /** Lines that all passed decode field by field into their edges. */
  lemma LinesDecode(n: int, lines: seq<seq<Field>>, edges: seq<Edge>)
    requires CheckLines(n, lines) == Ok(edges)
    ensures DecodesTo(n, lines, edges)
  {
    forall k | 0 <= k < |edges|
      ensures LineOk(n, lines[k])
      ensures edges[k] == Edge(lines[k][0].value, lines[k][1].value, lines[k][2].value)
    {
      assert CheckLine(n, lines[k]) == Ok(edges[k]);
    }
  }


  /** The line `src dest weight` names the pair {a, b}. */
  predicate NamesLine(line: seq<Field>, a: int, b: int)
  {
    && |line| == 3 && line[0].Num? && line[1].Num?
    && ((line[0].value == a && line[1].value == b) || (line[0].value == b && line[1].value == a))
  }

  /** The two count checks agree as long as `V * (V - 1)` fits in an `int`,
      and a request the Java expression accepts is always within the limit. */
  lemma CountsOkAsWrittenAgreesBelowOverflow(v: Int32, e: Int32)
    ensures v <= 46341 ==> (CountsOkAsWritten(v, e) <==> CountsOk(v, e))
    ensures CountsOkAsWritten(v, e) ==> CountsOk(v, e)
  {
    if v > 0 && e > 0 {
      assert Wrap(v - 1) == v - 1;
      var p := v * (v - 1);
      if v <= 46341 {
        MulMono(v, 46341, v - 1, 46340);
        assert Wrap(p) == p;
      } else {
        MulMono(46342, v, 46341, v - 1);
        assert Wrap(p) <= INT_MAX < p;
      }
    }
  }

  lemma MulMono(a: int, b: int, c: int, d: int)
    requires 0 <= a <= b && 0 <= c <= d
    ensures a * c <= b * d
  {
    assert a * c <= b * c;
  }

  /** With V = 65536 the Java product `V * (V - 1)` wraps to -65536, so even a
      single edge is refused as "too many edges". */
  lemma CountsOkAsWrittenOverflow()
    ensures !CountsOkAsWritten(65536, 1)
    ensures CountsOk(65536, 1)
  {
    assert Wrap(65536 * 65535) == -65536;
  }
}
