/** The result table of `displayResult`: one row per vertex with its
    distance ("INF" when unreached) and its path ("-" when unreached,
    otherwise the vertices joined by " -> "), and its rendering as text. */
module Report {
  import opened Graphs
  import opened Engine
  import opened PathTree

  // ---------------------------------------------------------------------
  // Decimal numerals, as `String.valueOf` writes a non-negative int

  predicate IsDigit(c: char)
  {
    '0' <= c <= '9'
  }

  function DigitChar(d: nat): (c: char)
    requires d < 10
    ensures IsDigit(c) && c as int - '0' as int == d
  {
    (d + '0' as int) as char
  }

  function Decimal(n: nat): (s: string)
    ensures |s| >= 1
    ensures forall k :: 0 <= k < |s| ==> IsDigit(s[k])
    // no leading zero: only the numeral of 0 starts with '0', and it is "0"
    ensures s[0] == '0' <==> n == 0
    ensures |s| > 1 ==> s[0] != '0'
  {
    if n < 10 then [DigitChar(n)]
    else Decimal(n / 10) + [DigitChar(n % 10)]
  }

  /** The value of a numeral (the inverse of `Decimal`). */
  function ParseDecimal(s: string): nat
  {
    if |s| == 0 then 0
    else
      var c := s[|s| - 1];
      var d := if IsDigit(c) then c as int - '0' as int else 0;
      ParseDecimal(s[..|s| - 1]) * 10 + d
  }

  lemma {:induction false} DecimalRoundTrip(n: nat)
    ensures ParseDecimal(Decimal(n)) == n
  {
    if n >= 10 {
      DecimalRoundTrip(n / 10);
      var s := Decimal(n);
      assert s[..|s| - 1] == Decimal(n / 10);
    }
  }

  // ---------------------------------------------------------------------
  // Joining and splitting on a separator

  function Join(parts: seq<string>, sep: string): string
    requires |parts| >= 1
  {
    if |parts| == 1 then parts[0]
    else parts[0] + sep + Join(parts[1..], sep)
  }

  /** Cuts `s` at every occurrence of `sep`, scanning from the left. */
  function Split(s: string, sep: string): (r: seq<string>)
    requires |sep| >= 1
    ensures |r| >= 1
    decreases |s|
  {
    if |s| == 0 then [""]
    else if |sep| <= |s| && s[..|sep|] == sep then [""] + Split(s[|sep|..], sep)
    else
      var rest := Split(s[1..], sep);
      [[s[0]] + rest[0]] + rest[1..]
  }

  lemma {:induction false} SplitAfterPiece(x: string, t: string, sep: string)
    requires |sep| >= 1 && sep[0] !in x
    ensures Split(x + t, sep) == [x + Split(t, sep)[0]] + Split(t, sep)[1..]
    decreases |x|
  {
    if |x| > 0 {
      var s := x + t;
      assert s[0] == x[0] != sep[0];
      assert s[1..] == x[1..] + t;
      SplitAfterPiece(x[1..], t, sep);
      assert [s[0]] + (x[1..] + Split(t, sep)[0]) == x + Split(t, sep)[0];
    } else {
      var r := Split(t, sep);
      assert x + t == t && x + r[0] == r[0];
      assert [r[0]] + r[1..] == r;
    }
  }

  /** A leading separator closes an empty piece. */
  lemma SplitAtSep(rest: string, sep: string)
    requires |sep| >= 1
    ensures Split(sep + rest, sep) == [""] + Split(rest, sep)
  {
    assert (sep + rest)[..|sep|] == sep && (sep + rest)[|sep|..] == rest;
  }

  /** Splitting a join gives back the pieces, provided no piece contains the
      separator's first character. */
  lemma {:induction false} SplitJoin(parts: seq<string>, sep: string)
    requires |parts| >= 1 && |sep| >= 1
    requires forall k :: 0 <= k < |parts| ==> sep[0] !in parts[k]
    ensures Split(Join(parts, sep), sep) == parts
  {
    if |parts| == 1 {
      SplitAfterPiece(parts[0], "", sep);
      assert parts[0] + "" == parts[0];
    } else {
      var rest := Join(parts[1..], sep);
      SplitJoin(parts[1..], sep);
      assert parts[0] + sep + rest == parts[0] + (sep + rest);
      SplitAfterPiece(parts[0], sep + rest, sep);
      SplitAtSep(rest, sep);
      assert parts[0] + "" == parts[0];
    }
  }

  lemma {:induction false} JoinAppend(parts: seq<string>, last: string, sep: string)
    requires |parts| >= 1
    ensures Join(parts + [last], sep) == Join(parts, sep) + sep + last
  {
    if |parts| > 1 {
      assert (parts + [last])[1..] == parts[1..] + [last];
      JoinAppend(parts[1..], last, sep);
    }
  }

  // ---------------------------------------------------------------------
  // Paths as text

  const ARROW: string := " -> "

  function Numerals(p: seq<nat>): (r: seq<string>)
    ensures |r| == |p|
    ensures forall k :: 0 <= k < |p| ==> r[k] == Decimal(p[k])
  {
    seq(|p|, k requires 0 <= k < |p| => Decimal(p[k]))
  }

  /** A path printed as its vertex numbers joined by " -> ". */
  function PathText(p: seq<nat>): string
    requires |p| >= 1
  {
    Join(Numerals(p), ARROW)
  }

  /** Reads a printed path back into vertex numbers. */
  function ParsePath(s: string): seq<nat>
  {
    var parts := Split(s, ARROW);
    seq(|parts|, k requires 0 <= k < |parts| => ParseDecimal(parts[k]))
  }

  /** Printing a path loses nothing: it reads back as the same vertices. */
  lemma PathTextRoundTrip(p: seq<nat>)
    requires |p| >= 1
    ensures ParsePath(PathText(p)) == p
  {
    var parts := Numerals(p);
    forall k | 0 <= k < |parts| ensures ARROW[0] !in parts[k] {
      assert forall j :: 0 <= j < |parts[k]| ==> IsDigit(parts[k][j]);
    }
    SplitJoin(parts, ARROW);
    forall k | 0 <= k < |p| ensures ParseDecimal(parts[k]) == p[k] {
      DecimalRoundTrip(p[k]);
    }
  }

  /** `getPath(vertex, previous)` as the program writes it: the path to the
      predecessor, then " -> ", then the vertex. */
  function PathString(prev: seq<int>, dist: seq<int>, v: nat): string
    requires Descending(dist, prev) && v < |prev|
    decreases dist[v]
  {
    if prev[v] == NONE then Decimal(v)
    else PathString(prev, dist, prev[v]) + ARROW + Decimal(v)
  }

  /** The string the program builds is the reconstructed vertex sequence
      printed with " -> ", so it reads back as exactly that sequence. */
  lemma {:induction false} PathStringIsPathText(prev: seq<int>, dist: seq<int>, v: nat)
    requires Descending(dist, prev) && v < |prev|
    ensures var p: seq<nat> := GetPath(prev, dist, v);
      PathString(prev, dist, v) == PathText(p) && ParsePath(PathString(prev, dist, v)) == p
    decreases dist[v]
  {
    var p: seq<nat> := GetPath(prev, dist, v);
    if prev[v] != NONE {
      var u := prev[v];
      PathStringIsPathText(prev, dist, u);
      var q: seq<nat> := GetPath(prev, dist, u);
      assert p == q + [v];
      assert Numerals(p) == Numerals(q) + [Decimal(v)];
      JoinAppend(Numerals(q), Decimal(v), ARROW);
    }
    PathTextRoundTrip(p);
  }

  // ---------------------------------------------------------------------
  // Result rows

  datatype Cell = Unreached | Distance(d: nat)

  /** One line of the result table; `path` is empty when the cell reads "-". */
  datatype Row = Row(vertex: nat, distance: Cell, path: seq<nat>)

  /** A row as `displayResult` can produce it: "INF" goes with "-" and a
      distance goes with a non-empty path. */
  predicate RowShape(r: Row)
  {
    r.distance.Unreached? <==> r.path == []
  }

  /** The per-vertex rule of `displayResult`. */
  function MakeRow(dist: seq<int>, prev: seq<int>, i: nat): (r: Row)
    requires Descending(dist, prev) && i < |dist|
    ensures RowShape(r) && r.vertex == i
    ensures r.distance.Unreached? <==> dist[i] == INF
    // a reached vertex shows its distance and the chain of `previous` links
    // from a vertex with none down to it, the path `getPath` prints
    ensures r.distance.Distance? ==>
      && r.distance.d == dist[i]
      && (forall k :: 0 <= k < |r.path| ==> 0 <= r.path[k] < |prev|)
      && r.path[|r.path| - 1] == i
      && prev[r.path[0]] == NONE
      && forall k :: 0 <= k < |r.path| - 1 ==> prev[r.path[k + 1]] == r.path[k]
  {
    if dist[i] == INF then Row(i, Unreached, [])
    else Row(i, Distance(dist[i]), GetPath(prev, dist, i))
  }

  /** The rows follow reachability: an unreachable vertex reads "INF" and
      "-", a reachable one its shortest distance and a walk from the source
      of exactly that weight. */
  lemma RowsFollowReachability(g: Matrix, src: int, dist: seq<int>, prev: seq<int>, i: nat)
    requires IsSquare(g, |g|) && DijkstraOutcome(g, src, dist, prev) && i < |g|
    ensures Descending(dist, prev)
    ensures MakeRow(dist, prev, i).distance == Unreached <==> !Reachable(g, src, i)
    ensures MakeRow(dist, prev, i).distance == Unreached ==> MakeRow(dist, prev, i).path == []
    ensures MakeRow(dist, prev, i).distance.Distance? ==>
      var r := MakeRow(dist, prev, i);
      && IsWalkBetween(g, src, i, r.path)
      && PathWeight(g, r.path) == r.distance.d
      && forall p :: IsWalkBetween(g, src, i, p) ==> r.distance.d <= PathWeight(g, p)
  {
    TreeDescends(g, src, dist, prev);
    ReachedIffReachable(g, src, dist, prev, i);
    if dist[i] != INF {
      DistIsShortest(g, src, dist, prev, i);
    }
  }

  /** All rows, vertex by vertex. */
  function Rows(dist: seq<int>, prev: seq<int>): (rows: seq<Row>)
    requires Descending(dist, prev)
    ensures |rows| == |dist|
    ensures forall i :: 0 <= i < |rows| ==> rows[i] == MakeRow(dist, prev, i)
  {
    seq(|dist|, i requires 0 <= i < |dist| => MakeRow(dist, prev, i))
  }

  const TAB2: string := "\t\t"

  function CellText(c: Cell): string
  {
    match c
    case Unreached => "INF"
    case Distance(d) => Decimal(d)
  }

  function PathCell(p: seq<nat>): string
  {
    if |p| == 0 then "-" else PathText(p)
  }

  /** `i + "\t\t" + distance + "\t\t" + path + "\n"`. */
  function RenderRow(r: Row): string
  {
    Join([Decimal(r.vertex), CellText(r.distance), PathCell(r.path)], TAB2) + "\n"
  }

  /** Reads a rendered row back. */
  function ParseRow(s: string): Row
  {
    var body := if |s| >= 1 then s[..|s| - 1] else s;
    var fields := Split(body, TAB2);
    if |fields| != 3 then Row(0, Unreached, [])
    else
      Row(ParseDecimal(fields[0]),
          if fields[1] == "INF" then Unreached else Distance(ParseDecimal(fields[1])),
          if fields[2] == "-" then [] else ParsePath(fields[2]))
  }

  lemma NoTabInPathText(p: seq<nat>)
    requires |p| >= 1
    ensures '\t' !in PathText(p)
  {
    var parts := Numerals(p);
    NoTabInJoin(parts);
  }

  lemma {:induction false} NoTabInJoin(parts: seq<string>)
    requires |parts| >= 1
    requires forall k :: 0 <= k < |parts| ==> forall j :: 0 <= j < |parts[k]| ==> IsDigit(parts[k][j])
    ensures '\t' !in Join(parts, ARROW)
  {
    if |parts| > 1 {
      NoTabInJoin(parts[1..]);
      assert forall j :: 0 <= j < |parts[0]| ==> IsDigit(parts[0][j]);
    } else {
      assert forall j :: 0 <= j < |parts[0]| ==> IsDigit(parts[0][j]);
    }
  }

  /** A printed row reads back as the same row: the text loses nothing. */
  lemma RenderRowRoundTrip(r: Row)
    requires RowShape(r)
    ensures ParseRow(RenderRow(r)) == r
  {
    var fields := [Decimal(r.vertex), CellText(r.distance), PathCell(r.path)];
    var body := Join(fields, TAB2);
    assert RenderRow(r)[..|RenderRow(r)| - 1] == body;
    forall k | 0 <= k < 3 ensures TAB2[0] !in fields[k] {
      if k == 0 {
        assert forall j :: 0 <= j < |fields[0]| ==> IsDigit(fields[0][j]);
      } else if k == 1 && r.distance.Distance? {
        assert forall j :: 0 <= j < |fields[1]| ==> IsDigit(fields[1][j]);
      } else if k == 2 && r.path != [] {
        NoTabInPathText(r.path);
      }
    }
    SplitJoin(fields, TAB2);
    DecimalRoundTrip(r.vertex);
    if r.distance.Distance? {
      DecimalRoundTrip(r.distance.d);
      assert fields[1][0] != 'I';
    }
    if r.path != [] {
      PathTextRoundTrip(r.path);
      var d := Decimal(r.path[0]);
      assert PathText(r.path)[0] == d[0];
    }
  }
}
