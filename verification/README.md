# Princeton Algorithms II assignments: a verified model of the core logic

This project models, in Dafny, the sequential logic of four classes from a
solution set to the second Princeton algorithms course:

- **BaseballElimination**: reads a division's standings, caches the leader,
  and decides whether a team is eliminated. A team is eliminated trivially
  when its best possible total is below the leader's wins. Otherwise it is
  eliminated when a maximum flow through a games-to-teams network cannot
  saturate the edges out of the source. The class also builds a certificate
  for an eliminated team: a set of teams of which at least one must end
  ahead of it. As written, that set is read off the wrong vertices and can
  contain the team itself (see Findings).
- **SeamCarver**: the grid operations of the seam carver.
  - the pixel tests;
  - the squared colour gradient;
  - row-major numbering;
  - seam validation;
  - transposition;
  - removal of a vertical seam, and of a horizontal seam by way of two
    transpositions.
- **SAP**: the shortest-ancestral-path choice in a digraph. The common
  ancestor that is closest to both vertices (or vertex sets), and the path
  length through it.
- **Outcast**: the WordNet noun whose summed distance to the other nouns is
  largest.

Library results become parameters:
- The maximum flow is a function `solve` from the network to the flow on
  each edge and the `inCut` predicate.
- Breadth-first search is a function from a source (a vertex or a vertex
  list) to a distance map `int -> Option<nat>`.
- The WordNet distance is a function on noun pairs.

Java exceptions are modelled as `Err` values of a `Result` type (module
`Base`), and Java `null` as `None`.

Files:
- `base.dfy`: Option and Result.
- `league.dfy`: the division, the name table, the leader and the accessors.
- `flow_network.dfy`: the network builder and its shape lemmas.
- `elimination.dfy`: the elimination queries.
- `seam_carver.dfy`, `sap.dfy`, `outcast.dfy`: the other three classes.

Two behaviours of the elimination queries are easy to miss:
- The leader is chosen with strict `>` from an initial maximum of 0. When
  every team has 0 wins, no leader is set, and every elimination query
  throws NullPointerException when it looks up the null name. This
  includes a one-team division whose only team has 0 wins, although that
  team cannot be beaten.
- The certificate passes the raw team index to `inCut`, not the team's
  vertex number. See Findings.

## Model

| member | source | states |
|---|---|---|
| League.TeamId | baseball-elimination/src/BaseballElimination.java:67-71 | the name table is filled by `put` in file order: a name maps to the last team carrying it, and to nothing exactly when no team carries it |
| League.TeamIdDefinedOnNames | baseball-elimination/src/BaseballElimination.java:99-102 | `containsKey(name)` holds exactly when the lookup finds an index |
| League.LeaderIndex | baseball-elimination/src/BaseballElimination.java:60-83 | no leader exactly when every team has 0 wins; otherwise the leader has positive wins, at least as many as every team, and strictly more than every earlier team (first team wins ties) |
| League.LeaderName | baseball-elimination/src/BaseballElimination.java:80-83 | the cached leader is null exactly when all wins are 0, and is otherwise one of the division's names |
| League.NumberOfTeamsCountsNames | baseball-elimination/src/BaseballElimination.java:88-95 | with unique names, `numberOfTeams()` equals the number of names `teams()` returns |
| League.Wins | baseball-elimination/src/BaseballElimination.java:98-103 | fails with IllegalArgument exactly for an unknown name; otherwise returns the wins of a team of that name |
| League.Losses | baseball-elimination/src/BaseballElimination.java:105-110 | fails with IllegalArgument exactly for an unknown name; otherwise returns the losses of a team of that name |
| League.Remaining | baseball-elimination/src/BaseballElimination.java:113-118 | fails with IllegalArgument exactly for an unknown name; otherwise returns the remaining games of a team of that name |
| League.Against | baseball-elimination/src/BaseballElimination.java:121-126 | fails with IllegalArgument exactly when either name is unknown; otherwise returns the games-left entry for two teams of those names |
| FlowNetwork.NumGamesFacts | baseball-elimination/src/BaseballElimination.java:27 | the game-slot count equals `n(n-1)/2` |
| FlowNetwork.GamePairsMembers | baseball-elimination/src/BaseballElimination.java:36-40 | the loops visit exactly the pairs i < j with neither team the candidate, in row-major order, so each pair once |
| FlowNetwork.NetworkVertices | baseball-elimination/src/BaseballElimination.java:27-30 | the network has `n(n-1)/2 + n + 2` vertices whatever the candidate; (n-1)(n-2)/2 game vertices are used, no more than the slots reserved |
| FlowNetwork.NetworkSourceEdges | baseball-elimination/src/BaseballElimination.java:34-46 | one source edge per visited pair, in order, to game vertex k+1 with capacity `games[i][j]`, zero capacities included |
| FlowNetwork.NetworkGameEdges | baseball-elimination/src/BaseballElimination.java:44-45 | each game vertex has exactly two unbounded edges, to the vertices `numGames+i+1` and `numGames+j+1` of its pair |
| FlowNetwork.NetworkSinkEdges | baseball-elimination/src/BaseballElimination.java:48-50 | exactly n-1 edges enter the sink, one per non-candidate team in index order, each with capacity `max(0, wins[id]+remaining[id]-wins[i])` |
| FlowNetwork.NetworkEdgeCount | baseball-elimination/src/BaseballElimination.java:34-51 | the network has `3(n-1)(n-2)/2 + n - 1` edges, exactly the source, game and sink edges described above, so there is no other edge |
| FlowNetwork.NetworkEdgesWellPlaced | baseball-elimination/src/BaseballElimination.java:25-51 | every edge stays inside the vertex range, nothing enters the source or leaves the sink, and no edge touches the candidate's team vertex |
| Elimination.IsTriviallyEliminated | baseball-elimination/src/BaseballElimination.java:20-22 | the check throws NullPointer exactly when no leader was set |
| Elimination.TrivialEliminationMeaning | baseball-elimination/src/BaseballElimination.java:20-22 | with unique names and a leader, a team is trivially eliminated exactly when some team already has more wins than its wins plus remaining games |
| Elimination.LeaderNotTriviallyEliminated | baseball-elimination/src/BaseballElimination.java:20-22 | the leader's own team is never trivially eliminated |
| Elimination.IsEliminated | baseball-elimination/src/BaseballElimination.java:129-152 | IllegalArgument for an unknown name, NullPointer when there is no leader, a verdict otherwise |
| Elimination.UnsaturatedIffBelowCapacity | baseball-elimination/src/BaseballElimination.java:147-149 | when every source flow lies between 0 and its capacity, some source edge is below capacity exactly when the total source flow is below the total source capacity |
| Elimination.SourceAdjacencyIsSourceEdges | baseball-elimination/src/BaseballElimination.java:147 | `adj(source)` in the built network holds exactly the edges out of the source |
| Elimination.EliminatedIffFlowBelowCapacity | baseball-elimination/src/BaseballElimination.java:137-151 | off the trivial path, a team is eliminated exactly when the maximum flow is below the number of games left among the other teams |
| Elimination.CutTeamsByIndex | baseball-elimination/src/BaseballElimination.java:174-179 | only known names are selected; team i's name (with unique names, every team's) is selected exactly when vertex i, the raw team index, is on the source side of the cut |
| Elimination.CertificateOfElimination | baseball-elimination/src/BaseballElimination.java:155-183 | the same failures as the other queries; a returned certificate is a non-empty set of known names |
| Elimination.CertificateAgreesWithElimination | baseball-elimination/src/BaseballElimination.java:129-183 | the certificate query fails when and how `isEliminated` fails; no certificate for a team that is not eliminated; a certificate only for an eliminated team |
| Elimination.TrivialCertificateIsLeader | baseball-elimination/src/BaseballElimination.java:162-165 | on trivial elimination the certificate is `{leader}`, and the leader's wins exceed the candidate's wins plus remaining games |
| Elimination.CertificateFromCut | baseball-elimination/src/BaseballElimination.java:167-182 | off the trivial path the certificate is null when every source edge is saturated or no team is selected, and the selected set otherwise |
| Elimination.RawIndexCertificateHoldsTeamZero | baseball-elimination/src/BaseballElimination.java:175-176 | when the flow check eliminates a candidate and the source is on the source side, team 0's name is in the certificate, even when team 0 is the candidate |
| Elimination.ExampleNetwork | baseball-elimination/src/BaseballElimination.java:34-50 | the network built for team A of the three-team example division, edge by edge |
| Elimination.RawIndexCertificateExample | baseball-elimination/src/BaseballElimination.java:172-182 | on the example, A's certificate as written is {A, B} |
| Elimination.CutTeamsByVertex | baseball-elimination/src/BaseballElimination.java:174-177 | only known names are selected; team i's name (with unique names, every team's) is selected exactly when i is not the candidate and its team vertex `numGames+i+1` is on the source side |
| Elimination.CertificateByTeamVertex | baseball-elimination/src/BaseballElimination.java:155-183 | the corrected certificate: the same failures; a returned set is non-empty, made of known names, never holds the candidate, and is only returned for an eliminated team (the converse is Elimination.CertificateByTeamVertexComplete) |
| Elimination.CutReachesTeam | baseball-elimination/src/BaseballElimination.java:42-45 | with unique names, when some source edge has room and the cut is closed along edges with room, the vertex of some non-candidate team is on the source side, so the corrected selection is non-empty |
| Elimination.CertificateByTeamVertexComplete | baseball-elimination/src/BaseballElimination.java:155-183 | with unique names and a cut closed along edges with room (as FordFulkerson's residual reachability is), the corrected certificate exists exactly when `isEliminated` holds |
| Elimination.CertificateByTeamVertexFromCut | baseball-elimination/src/BaseballElimination.java:167-182 | off the trivial path, the corrected certificate is null when every source edge is saturated or no non-candidate team vertex is on the source side, and that set of names otherwise |
| Elimination.TeamVertexCertificateExample | baseball-elimination/src/BaseballElimination.java:172-182 | on the example, the corrected certificate is {B, C}, and B and C together have more wins and games left than two teams can absorb below A's best total |
| SeamCarver.IsValidPixel | seam/src/SeamCarver.java:11-13 | the disjunction holds for every pixel coordinate, in the grid or not |
| SeamCarver.BorderIffNeighbourOutside | seam/src/SeamCarver.java:15-17 | a pixel of the grid is a border pixel exactly when one of its four neighbours is outside the grid |
| SeamCarver.Gradient | seam/src/SeamCarver.java:26-31 | the squared gradient is a natural number, zero exactly when the two colours are equal, and at most 3 * 255^2 (no `int` overflow) |
| SeamCarver.GradientSymmetric | seam/src/SeamCarver.java:26-31 | the gradient does not depend on the order of the two colours |
| SeamCarver.PositionInverse | seam/src/SeamCarver.java:79-81 | for an in-range column, `p / width` gives back the row and `p % width` gives back the column; pixels of the grid are numbered below width * height |
| SeamCarver.PositionInjective | seam/src/SeamCarver.java:79-81 | distinct pixels get distinct numbers |
| SeamCarver.InteriorEnergy | seam/src/SeamCarver.java:111-112 | the summed gradients of an interior pixel are zero exactly when both pairs of opposite neighbours have equal colours |
| SeamCarver.EnergySquared | seam/src/SeamCarver.java:101-114 | as written: the border energy exactly for coordinates on a border line, in the grid or not; the gradient sum for interior pixels; an index failure for other coordinates outside the grid |
| SeamCarver.EnergyOutsideOnFirstRow | seam/src/SeamCarver.java:103-109 | every column outside the picture on row 0 gets the border energy instead of an exception |
| SeamCarver.EnergySquaredChecked | seam/src/SeamCarver.java:101-114 | corrected: fails exactly for coordinates outside the grid, and agrees with the code on every coordinate inside |
| SeamCarver.CheckSeamValidity | seam/src/SeamCarver.java:53-66 | passes exactly when the width exceeds 1, the length equals the height and neighbouring entries differ by at most 1; otherwise IllegalArgument |
| SeamCarver.StraightSeamPasses | seam/src/SeamCarver.java:53-66 | the entries are not range-checked: a straight seam through any column, inside the picture or not, passes |
| SeamCarver.Transpose | seam/src/SeamCarver.java:68-77 | the transposed picture swaps width and height and has at (col, row) the pixel the original has at (row, col) |
| SeamCarver.TransposeTwice | seam/src/SeamCarver.java:68-77 | transposing twice gives back the original picture |
| SeamCarver.RemoveAt | seam/src/SeamCarver.java:185-191 | a line with one pixel deleted is one shorter and keeps every other pixel in order |
| SeamCarver.VerticalRemoval | seam/src/SeamCarver.java:178-194 | IllegalArgument for a rejected seam; an index failure when an entry is outside the picture; otherwise a picture one column narrower and as tall, each row with its seam pixel deleted |
| SeamCarver.CopyRowWithout | seam/src/SeamCarver.java:185-191 | the row copy succeeds exactly when the seam entry is a column of the row, and then yields the row without that pixel |
| SeamCarver.RemoveVerticalSeam | seam/src/SeamCarver.java:178-195 | the loops compute exactly the removal above |
| SeamCarver.HorizontalRemovalShape | seam/src/SeamCarver.java:172-176 | transposing, removing a vertical seam and transposing back yields a picture one row shorter and as wide, each column with its seam pixel deleted |
| SeamCarver.RemoveHorizontalSeam | seam/src/SeamCarver.java:172-176 | as written: succeeds exactly when the seam fits the transposed picture and removes one row; on failure the carver keeps the transposed picture |
| SeamCarver.RejectedHorizontalSeamTransposes | seam/src/SeamCarver.java:172-176 | a rejected seam on a non-square picture leaves the carver with a picture of the wrong width |
| SeamCarver.RemoveHorizontalSeamAtomic | seam/src/SeamCarver.java:172-176 | corrected: the same success condition and result, and a failed call leaves the picture unchanged |
| Sap.IsValidVertex | wordnet/src/SAP.java:13-15 | a vertex is valid exactly when 0 <= i < V |
| Sap.AreValidVertices | wordnet/src/SAP.java:17-26 | true exactly when every listed vertex is valid |
| Sap.CommonAncestors | wordnet/src/SAP.java:63-67 | exactly the vertices both searches reach, in strictly ascending order |
| Sap.Scan | wordnet/src/SAP.java:69-74 | -1 exactly when no listed path is shorter than `Integer.MAX_VALUE`; otherwise a listed vertex whose path is no longer than any listed path and strictly shorter than every path listed before it |
| Sap.ScanOfAscending | wordnet/src/SAP.java:63-74 | on the ascending list, every lower-numbered vertex has a strictly longer path than the chosen one |
| Sap.AncestorOf | wordnet/src/SAP.java:56-75 | -1 exactly when no common vertex has a path below `Integer.MAX_VALUE`; otherwise a common vertex with a shortest path, the lowest-numbered among equals |
| Sap.LengthOf | wordnet/src/SAP.java:42-43 | -1 exactly when the ancestor is -1; otherwise the path length through the ancestor, which no common vertex beats |
| Sap.Ancestor | wordnet/src/SAP.java:50-76 | IndexOutOfBounds exactly when either vertex is invalid; otherwise the ancestor chosen from the two searches |
| Sap.Length | wordnet/src/SAP.java:34-47 | fails exactly when `ancestor` fails; -1 exactly when the ancestor is -1; otherwise the path length through it |
| Sap.AncestorOfSets | wordnet/src/SAP.java:95-121 | IndexOutOfBounds exactly when some vertex of either list is invalid; otherwise the ancestor chosen from the two multi-source searches |
| Sap.LengthOfSets | wordnet/src/SAP.java:79-92 | fails exactly when the set `ancestor` fails; -1 exactly when it is -1; otherwise the path length through it |
| Sap.ScanSymmetric | wordnet/src/SAP.java:69-74 | the scan's result does not change when the two searches swap roles |
| Sap.CommonAncestorsSymmetric | wordnet/src/SAP.java:63-67 | the list of common vertices does not depend on the order of the searches |
| Sap.OrderIrrelevant | wordnet/src/SAP.java:56-75 | ancestor and length of two searches do not depend on their order |
| Sap.AncestorSymmetric | wordnet/src/SAP.java:34-76 | `ancestor(v, w) == ancestor(w, v)` and `length(v, w) == length(w, v)`, failures included |
| Sap.AncestorOfSetsSymmetric | wordnet/src/SAP.java:79-121 | the same symmetry for the vertex-set overloads |
| Sap.NoAncestorIffNoCommonVertex | wordnet/src/SAP.java:56-75 | for breadth-first distances in a digraph of fewer than 2^30 vertices, ancestor and length are -1 exactly when no vertex is reachable from both sides |
| OutcastSelection.ScoreSkipsCopies | wordnet/src/Outcast.java:29-34 | a noun's score is the plain sum of its distances to the list with its own copies removed |
| OutcastSelection.Outcast | wordnet/src/Outcast.java:23-43 | null exactly when no score is positive (the empty list included); otherwise a listed noun with positive score, at least every noun's score, and strictly above every earlier noun's score |

## Left out

- Reading the division file, `main` drivers, printing: I/O.
- FordFulkerson, algs4 FlowNetwork and FlowEdge: the maximum flow is the parameter `solve`. Max-flow/min-cut and the classical "these teams win too much together" inequality are not proved for an arbitrary `solve`. The latter is shown only on the example division.
- Double-valued flows and capacities: flows are integers and the unbounded capacity is the `Infinite` case.
- `HashMap.keySet()` order: team collections and certificates are sets.
- Negative counts in the input: wins, losses, remaining and game counts are natural numbers. FlowEdge rejects negative capacities.
- `energy`'s `Math.sqrt`: the model returns the sum under the root. The `findVerticalSeam`, `findHorizontalSeam`, `relax` and `verticalSeam` dynamic programme over doubles is floating-point numerics and is not part of this model.
- algs4 Picture and java.awt.Color: a grid of RGB triples. The library's own index check is modelled as an IndexOutOfBounds failure. Later library versions throw IllegalArgumentException there.
- BreadthFirstDirectedPaths, Digraph and WordNet: parameters. `length` computes fresh searches for `ancestor`. The model uses the same distance maps for both, since the searches are deterministic.
- `null` elements inside the vertex iterables and the noun array: Java throws NullPointerException on them. Lists here hold plain integers and strings.
- FlowNetwork.NetworkVertices: `numGames` is `n(n-1)/2` over unbounded integers. Java computes `teams * (teams - 1)` in `int`, which wraps for 46342 or more teams.
- FlowNetwork.NetworkSinkEdges: the sink capacity `wins[id] + remaining[id] - wins[i]` is unbounded. Java's `int` sum can wrap before `Math.max` sees it.
- Elimination.CertificateByTeamVertexComplete: proved only for a cut that holds the source and is closed along unsaturated edges, and only with unique names. A `solve` that reports any other set is not covered.
- Elimination.IsTriviallyEliminated: wins + remaining is an unbounded sum. Java's `int` sum would wrap past 2^31 - 1.
- SeamCarver.CheckSeamValidity: the entry difference is unbounded. Java's `int` subtraction and `Math.abs` can wrap for entries near ±2^31.
- SeamCarver.PositionInverse: `width * row + col` is unbounded. Java's product wraps for pictures of more than 2^31 pixels.
- Sap.AncestorOf: the two distances are summed as unbounded integers. Java's `int` sum could wrap only for digraphs of at least 2^30 vertices.
- OutcastSelection.Outcast: scores are unbounded sums. Java's `int` accumulator wraps past 2^31 - 1.

## Findings

| source | as written | input that shows it | evidently intended | confidence | as-written member | corrected member |
|---|---|---|---|---|---|---|
| baseball-elimination/src/BaseballElimination.java:175-176 | `ff.inCut(teamId)` tests the vertex numbered by the team's index: vertex 0 is the source, and the others are game vertices | Teams A (1 win, 2 left), B and C (2 wins each), 3 games left between B and C. For A the cut is {0, 1, 5, 6}, and the certificate is {A, B} | test the team vertex `numGames + teamId + 1` and skip the candidate, giving {B, C} | high, not executed | Elimination.CertificateOfElimination (Elimination.RawIndexCertificateExample, Elimination.RawIndexCertificateHoldsTeamZero) | Elimination.CertificateByTeamVertex |
| seam/src/SeamCarver.java:11-13 | `x >= 0 \|\| x < width() \|\| ...` is always true, so `energy` never throws its own IndexOutOfBoundsException | `energy(-1, 0)` returns the border energy 1000 | join the four bounds with `&&`, so every coordinate outside the grid throws | high, not executed | SeamCarver.EnergySquared (SeamCarver.EnergyOutsideOnFirstRow) | SeamCarver.EnergySquaredChecked |
| seam/src/SeamCarver.java:172-176 | when `removeVerticalSeam` throws, the second `transpose()` is skipped | a 3-wide, 2-tall picture and an empty seam: IllegalArgumentException, and the carver now holds a 2-wide, 3-tall picture | a rejected seam leaves the picture unchanged, as `removeVerticalSeam` does | medium, not executed | SeamCarver.RemoveHorizontalSeam (SeamCarver.RejectedHorizontalSeamTransposes) | SeamCarver.RemoveHorizontalSeamAtomic |
