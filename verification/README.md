# Dijkstra GUI: shortest paths on a dense undirected graph

`DijkstraGUI.java` is a small Swing program. It reads a vertex count V, an
edge count E, a source vertex and E lines `src dest weight`. From them it
builds a symmetric V×V weight matrix, where 0 means "no edge", and runs the
dense O(V²) Dijkstra algorithm. It then prints one row per vertex: the vertex,
its distance ("INF" when unreached) and its path from the source ("-" when
unreached, otherwise `a -> b -> c`).

This project models the computational core of that program and proves what
it computes:

- `JavaInt`: Java's 32-bit `int` with its wrap-around and truncating division.
  It also holds `Integer.MAX_VALUE`, which the program uses as the "infinite
  distance" sentinel.
- `Graphs`: weight matrices, walks along non-zero entries, walk weights and
  reachability.
- `InputValidation`: the checks of the "Compute" handler, in the program's own
  order, and the matrix that is filled from the accepted edge lines.
- `Engine`: `minDistance`, the relaxation loop, and `dijkstra`, written as
  methods over sequences with loop invariants.
- `PathTree`: `getPath` and the facts about the finished arrays. These are
  - the predecessors form a tree of shortest paths;
  - a distance is finite exactly when the vertex is reachable;
  - distances are minimal over all walks;
  - the distances, and with the tie rule the predecessors too, are unique.
- `Report`: the per-vertex row rule of `displayResult`. It renders a row as
  text and parses it back.
- `Compute`: validation followed by the engine and the rows, end to end.
- `Scenarios`: worked examples on concrete requests.

Two behaviours of the code are kept as written:

- **Ties go to the highest index.** `minDistance` scans upward and keeps a
  vertex whenever its distance is `<=` the best so far. Of several unvisited
  vertices at the same least distance, it therefore returns the
  highest-indexed one. This also decides which of several equally short
  predecessors `previous` records: the one selected first. See
  `Engine.MinDistance`, `Scenarios.TieGoesToHighestIndex` and
  `Scenarios.CycleTieBreak`.
- **Self-loops pass validation.** Nothing rejects `src == dest`, so a line
  `v v w` puts `w` on the diagonal of the matrix. Such an entry never
  matters: when `graph[u][u]` is read, `u` is already visited. See
  `Scenarios.SelfLoopAccepted`.

## Model

| member | source | states |
|---|---|---|
| `JavaInt.Wrap` | DijkstraGUI.java:98 | a Java `int` result is the in-range value congruent to the exact one modulo 2^32, and in-range values are unchanged |
| `JavaInt.JavaDiv` | DijkstraGUI.java:98 | Java `/` rounds toward zero: Euclidean for non-negative dividends, and for negative ones the quotient closest to zero |
| `InputValidation.Validate` | DijkstraGUI.java:95-134 | a request is accepted exactly when V > 0, E > 0, E ≤ V(V−1)/2, 0 ≤ source < V, there are E lines, and each line has three fields with endpoints in range and a positive weight. Each failure maps to its own message in the program's order. The accepted matrix is V×V, symmetric and non-negative, and every entry is 0 or some line's weight |
| `InputValidation.CheckLine` | DijkstraGUI.java:118-130 | a line passes exactly when it has three numeric fields, both endpoints in 0..V−1 and a positive weight. A wrong field count is reported first, then a non-numeric field (even when another field is out of range), then bad values |
| `InputValidation.CheckLines` | DijkstraGUI.java:117-131 | all lines pass exactly when each one does, and then each decodes to its own edge. Otherwise the error is that of the first failing line, and every line before it passes |
| `InputValidation.Zero` | DijkstraGUI.java:109 | `new int[V][V]` is a V×V matrix of zeros |
| `InputValidation.BuildGraph` | DijkstraGUI.java:109-133 | filling `new int[V][V]` from the decoded lines in order yields a V×V matrix; its entries are stated by `InputValidation.BuildGraphEntry`, `InputValidation.BuildGraphSymmetric` and `InputValidation.BuildGraphEntriesFromEdges` |
| `InputValidation.SetEdge` | DijkstraGUI.java:132-133 | storing an edge sets both orientations of its pair to the weight and leaves every other entry unchanged |
| `InputValidation.BuildGraphEntry` | DijkstraGUI.java:109-133 | each entry of the built matrix is the weight of the last line naming that pair in either orientation, and 0 when no line names it |
| `InputValidation.BuildGraphSymmetric` | DijkstraGUI.java:132-133 | the built matrix is symmetric |
| `InputValidation.BuildGraphEntriesFromEdges` | DijkstraGUI.java:132-133 | every entry is 0 or the weight of some edge line |
| `InputValidation.ValidateBuildsLastWeights` | DijkstraGUI.java:109-133 | for an accepted request, the matrix holds the weight of the last line naming each pair, and 0 for pairs no line names |
| `InputValidation.CountsOkAsWrittenAgreesBelowOverflow` | DijkstraGUI.java:98 | `InputValidation.CountsOkAsWritten`, the count check evaluated in 32-bit `int` as the program does, agrees with the exact check `InputValidation.CountsOk` while V ≤ 46341, and never accepts counts the exact check refuses |
| `InputValidation.CountsOkAsWrittenOverflow` | DijkstraGUI.java:98 | with V = 65536 and E = 1, `InputValidation.CountsOkAsWritten` refuses counts the exact check accepts |
| `Engine.MinDistance` | DijkstraGUI.java:174-183 | returns −1 exactly when every vertex is visited. Otherwise it returns an unvisited vertex of least distance, and the highest-indexed one among those tied |
| `Engine.Relax` | DijkstraGUI.java:164-169 | no distance increases. A distance or predecessor changes only for an unvisited neighbour of a reached `u`, and then strictly to `dist[u] + graph[u][v]` with predecessor `u`. Afterwards no unvisited neighbour can be improved through `u` |
| `Engine.Dijkstra` | DijkstraGUI.java:154-183 | after V−1 rounds the source has distance 0 and no predecessor. Every other reached vertex has a predecessor through a positive edge whose distance plus that edge is its own. Unreached vertices have none. No edge out of a reached vertex can improve any distance. Of the neighbours whose distance plus edge equals a vertex's distance, the recorded predecessor is the one the selection visits first: the nearest, and of equally near ones the highest-indexed |
| `Engine.Round` | DijkstraGUI.java:161-169 | one iteration of the main loop marks a nearest unvisited vertex and relaxes from it, keeping the loop's invariant: visited vertices are selected before unvisited ones, edges out of visited reached vertices are settled, and tight edges out of visited vertices lead to first-selected predecessors |
| `Engine.RelaxedDistanceAsWritten` | DijkstraGUI.java:165-166 | the 32-bit update of `dist[v]` either keeps it or lowers it, and only through a non-zero edge from a reached vertex |
| `Engine.RelaxAsWrittenOverflow` | DijkstraGUI.java:165-166 | a vertex at distance 2147483646 with an edge of weight 2 gives an unreached neighbour the negative distance −2147483648, and a vertex at distance 5 with an edge of weight 2147483647 replaces a neighbour's distance 10 by −2147483644 |
| `Engine.RelaxAsWrittenAgreesWhenFits` | DijkstraGUI.java:165-166 | while the sum fits in an `int`, the 32-bit update is the exact improvement `Engine.Relax` performs |
| `PathTree.GetPath` | DijkstraGUI.java:201-206 | the reconstructed path is non-empty and ends at the vertex. It starts at a vertex with no predecessor, each element's predecessor is the element before it, and no element is farther than the vertex |
| `PathTree.TreeDescends` | DijkstraGUI.java:165-167 | along every predecessor link the distance strictly decreases, so the recursion of `getPath` terminates |
| `PathTree.PathFromSource` | DijkstraGUI.java:201-206 | for a reached vertex, `getPath` is a walk from the source along non-zero edges whose weight is its distance. For the source it is the source alone |
| `PathTree.NoWalkIsShorter` | DijkstraGUI.java:154-171 | when no edge can improve a distance, the end of every walk from the source is reached, and its distance is at most the walk's weight |
| `PathTree.ReachedIffReachable` | DijkstraGUI.java:154-171 | after the algorithm, a vertex has a finite distance exactly when some walk from the source reaches it |
| `PathTree.UnreachedKeepInitialState` | DijkstraGUI.java:156-165 | a vertex the source cannot reach ends with `Integer.MAX_VALUE` and predecessor −1 |
| `PathTree.DistIsShortest` | DijkstraGUI.java:154-171 | a reached vertex's distance is the least weight of any walk to it from the source, and its reconstructed path attains it |
| `PathTree.DistancesUnique` | DijkstraGUI.java:154-171 | any two results for the same graph and source have the same distances, so the distances depend only on the input |
| `PathTree.TreeUnique` | DijkstraGUI.java:154-183 | any two results that also record the first-selected predecessor have the same distances and the same predecessors, so the contract of `Engine.Dijkstra` fixes its whole output |
| `Report.Decimal` | DijkstraGUI.java:203 | `String.valueOf` of a non-negative `int` is a non-empty string of decimal digits with no leading zero: it starts with '0' exactly when the number is 0, and then it is "0". `Report.DecimalRoundTrip` reads it back |
| `Report.DecimalRoundTrip` | DijkstraGUI.java:203 | a vertex number printed in decimal reads back as the same number |
| `Report.PathTextRoundTrip` | DijkstraGUI.java:205 | vertex numbers joined by " -> " read back as the same vertex sequence |
| `Report.PathStringIsPathText` | DijkstraGUI.java:201-206 | `Report.PathString`, the string `getPath` builds recursively, is the reconstructed vertex sequence joined by " -> ", and it reads back as that sequence |
| `Report.MakeRow` | DijkstraGUI.java:189-195 | a row belongs to its vertex and shows "INF" and "-" exactly when `dist[i]` is `Integer.MAX_VALUE`. Otherwise it shows `dist[i]` and the chain of `previous` links that `getPath` prints: it starts at a vertex with no predecessor, each vertex's predecessor is the one before it, and it ends at `i` |
| `Report.RowsFollowReachability` | DijkstraGUI.java:189-195 | a row reads "INF" and "-" exactly when the vertex is unreachable. Otherwise it shows a walk from the source whose weight is the shown distance, and no walk is lighter |
| `Report.Rows` | DijkstraGUI.java:189-196 | there is one row per vertex, in vertex order |
| `Report.RenderRowRoundTrip` | DijkstraGUI.java:190-194 | `Report.RenderRow`, the text of a row `i\t\td\t\tpath\n`, parses back to the same row, so the printed table loses nothing |
| `Compute.Compute` | DijkstraGUI.java:93-140 | a request yields results exactly when it is well formed. A refused request reports the validator's error. An accepted one yields the validated matrix, the shortest-path tree over it that records first-selected predecessors, and its rows |
| `Scenarios.TriangleAccepted` | DijkstraGUI.java:95-134 | V=3 with lines 0-1 (4), 1-2 (2), 0-2 (9) and source 0 is accepted with the triangle's matrix |
| `Scenarios.TriangleDistances` | DijkstraGUI.java:154-171 | on that triangle every result has distances 0, 4, 6 and predecessors −1, 0, 1 |
| `Scenarios.TrianglePath` | DijkstraGUI.java:201-206 | on that triangle the row of vertex 2 shows "0 -> 1 -> 2" |
| `Scenarios.IsolatedAccepted` | DijkstraGUI.java:95-134 | V=4 with the single line 0-1 (1) and source 2 is accepted |
| `Scenarios.IsolatedSource` | DijkstraGUI.java:154-171 | there only the source is reached: distances INF, INF, 0, INF and no predecessors |
| `Scenarios.TooManyEdges` | DijkstraGUI.java:98 | four edges on three vertices are refused as bad counts, whatever the lines say |
| `Scenarios.ZeroWeightRefused` | DijkstraGUI.java:127 | a weight of 0 is refused as an invalid edge |
| `Scenarios.SelfLoopAccepted` | DijkstraGUI.java:127-133 | a line `1 1 5` is accepted and puts 5 on the diagonal |
| `Scenarios.TieGoesToHighestIndex` | DijkstraGUI.java:177 | with distances 7, 3, 3, 9 and none visited, vertex 2 and no other is the pick |
| `Scenarios.CycleTieBreak` | DijkstraGUI.java:154-183 | on the 4-cycle 0–1, 0–2, 1–3, 2–3 with unit weights and source 0, the result has distances 0, 1, 1, 2 and predecessors −1, 0, 0, 2: vertex 3 hangs from 2, not from the equally near 1 |
| `Scenarios.CycleRow` | DijkstraGUI.java:189-206 | on that 4-cycle the row of vertex 3 shows distance 2 and the path 0, 2, 3, printed "0 -> 2 -> 3", so the tie rule reaches the printed table |

## Left out

- The Swing and AWT plumbing is not modelled: the frame layout, the text
  fields, the `JOptionPane` dialogs, `invokeLater` and `main`. Each dialog is
  an `InputError` value instead.
- `GraphPanel` is not modelled: it draws with floating-point circle geometry
  and has no checkable contract.
- Text tokenisation is not modelled: `Integer.parseInt`, `split("\n")` and
  `trim().split(" ")`. A request arrives as lines that are already split into
  fields, and each field either parsed as an `int` or did not. Quirks such
  as trailing empty lines being dropped or double spaces making an extra
  empty field are therefore outside the model.
- The header line `Vertex\tDistance from Source\t\tPath` and the
  concatenation of the rows into the text area are not modelled. They are a
  constant prefix and a plain concatenation of `Report.RenderRow`.
- The shared fields `V` and `graph` of the frame are not modelled. The model
  passes them as arguments.
- Engine.Dijkstra: requires every weight to be at most `Integer.MAX_VALUE / V`.
  Then no sum of V − 1 weights reaches the sentinel and the Java addition
  cannot wrap. For larger weights the Java code can produce negative distances
  (see Findings), and that run is modelled only for the single update step
  (`Engine.RelaxedDistanceAsWritten`).
- Compute.Compute: requires the same weight bound on the edge lines of a
  request the validator accepts, for the same reason. Refused requests
  need no bound, since they never reach `dijkstra`.
- InputValidation.Validate: checks the counts over exact integers. For
  V ≥ 46342 the program's `V * (V - 1)` wraps, and the program can refuse
  counts the model accepts (`InputValidation.CountsOkAsWrittenOverflow`).
  `Compute.Compute` inherits this.
- Engine.Relax: requires `dist[u] + graph[u][v]` to stay within
  `Integer.MAX_VALUE` for a reached `u`. `Engine.Dijkstra` establishes this
  from the weight bound.
- PathTree.GetPath: requires the strictly descending predecessor links that
  every result of the algorithm has (`PathTree.TreeDescends`). It also takes
  the distance array as its termination measure. Java's `getPath` has neither
  requirement: on a cyclic `previous` array it would recurse until the stack
  overflows, a case the program never creates.
- Report.PathStringIsPathText: relies on the same descending links, for the
  same reason.

## Findings

| source | as written | input that shows it | evidently intended | confidence | as-written member | corrected member |
|---|---|---|---|---|---|---|
| DijkstraGUI.java:98 | `E > (V * (V - 1)) / 2` is evaluated in 32-bit `int`, so `V * (V - 1)` wraps for V ≥ 46342 | V = 65536, E = 1: the product wraps to −65536 and the request is refused as having too many edges | E ≤ V(V−1)/2 over exact integers | not executed | `InputValidation.CountsOkAsWrittenOverflow` | `InputValidation.Validate` |
| DijkstraGUI.java:165-166 | `dist[u] + graph[u][v]` is evaluated in 32-bit `int` and wraps before the comparison | V = 3, E = 3, source 0, lines `0 1 10`, `1 2 2147483647` and `0 2 5`: every true distance fits in an `int`, yet after vertex 2 is selected at distance 5 the update of vertex 1 wraps to −2147483644, shown with path "0 -> 2 -> 1" | distances are exact non-negative walk weights | not executed | `Engine.RelaxAsWrittenOverflow` | `Engine.Dijkstra` |
