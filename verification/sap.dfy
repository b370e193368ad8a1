/** Shortest ancestral paths (SAP): the common ancestor of two vertices, or
    of two vertex sets, that is closest to both, and the length of the path
    through it. Breadth-first search is a parameter: it maps a source (a
    vertex or a list of vertices) to the distance of every vertex, None for
    the vertices it cannot reach. */
module Sap {
  import opened Base

  /** `Integer.MAX_VALUE`, the initial `shortestPath`. */
  const IntMax: int := 0x7fff_ffff

  /** Distances from a breadth-first search: `hasPathTo` and `distTo`. */
  type Distances = int -> Option<nat>

  /** `isValidVertex`: a vertex number of the digraph. */
  function IsValidVertex(vertexCount: nat, i: int): (r: bool)
    ensures r <==> 0 <= i < vertexCount
  {
    if i < 0 || i >= vertexCount then false else true
  }

  /** `areValidVertices`: the loop stops at the first invalid vertex. */
  function AreValidVertices(vertexCount: nat, vs: seq<int>): (r: bool)
    ensures r <==> forall k :: 0 <= k < |vs| ==> 0 <= vs[k] < vertexCount
  {
    if |vs| == 0 then true
    else if !IsValidVertex(vertexCount, vs[0]) then false
    else AreValidVertices(vertexCount, vs[1..])
  }

  predicate Common(dv: Distances, dw: Distances, x: int) {
    dv(x).Some? && dw(x).Some?
  }

  /** The ancestral path length through a vertex both searches reach. */
  function PathLength(dv: Distances, dw: Distances, x: int): nat
    requires Common(dv, dw, x)
  {
    dv(x).value + dw(x).value
  }

  /** The `ancestors` list: the vertices below `bound` that both searches
      reach, in ascending order. */
  function CommonAncestors(bound: nat, dv: Distances, dw: Distances): (r: seq<nat>)
    ensures forall k :: 0 <= k < |r| ==> r[k] < bound && Common(dv, dw, r[k])
    ensures forall x :: 0 <= x < bound && Common(dv, dw, x) ==> x in r
    ensures forall i, j :: 0 <= i < j < |r| ==> r[i] < r[j]
  {
    if bound == 0 then []
    else
      var prefix := CommonAncestors(bound - 1, dv, dw);
      if Common(dv, dw, bound - 1) then prefix + [bound - 1] else prefix
  }

  /** The loop state of the second loop: `shortestPath` and `ancestor`. */
  datatype Search = Search(shortest: int, ancestor: int)

  /** The second loop over `ancestors`: a vertex replaces the current best
      only when its path is strictly shorter. */
  function Scan(list: seq<nat>, dv: Distances, dw: Distances): (s: Search)
    requires forall k :: 0 <= k < |list| ==> Common(dv, dw, list[k])
    ensures s.ancestor == -1 <==> forall k :: 0 <= k < |list| ==> PathLength(dv, dw, list[k]) >= IntMax
    ensures s.ancestor == -1 ==> s.shortest == IntMax
    ensures s.ancestor != -1 ==>
      exists i :: 0 <= i < |list| && list[i] == s.ancestor && s.shortest == PathLength(dv, dw, list[i])
                  && (forall k :: 0 <= k < i ==> PathLength(dv, dw, list[k]) > s.shortest)
    ensures s.ancestor != -1 ==> s.shortest < IntMax
    ensures forall k :: 0 <= k < |list| ==> PathLength(dv, dw, list[k]) >= s.shortest
  {
    if |list| == 0 then Search(IntMax, -1)
    else
      var s := Scan(list[..|list| - 1], dv, dw);
      var x := list[|list| - 1];
      if PathLength(dv, dw, x) < s.shortest then Search(PathLength(dv, dw, x), x) else s
  }

  /** Both loops of `ancestor`: the vertex with the shortest ancestral path,
      the lowest-numbered one among equals, or -1. */
  function AncestorOf(vertexCount: nat, dv: Distances, dw: Distances): (r: int)
    ensures r == -1 <==>
      forall x :: 0 <= x < vertexCount && Common(dv, dw, x) ==> PathLength(dv, dw, x) >= IntMax
    ensures r != -1 ==> 0 <= r < vertexCount && Common(dv, dw, r) && PathLength(dv, dw, r) < IntMax
    ensures r != -1 ==> forall x :: 0 <= x < vertexCount && Common(dv, dw, x) ==>
                          PathLength(dv, dw, x) >= PathLength(dv, dw, r)
    ensures r != -1 ==> forall x :: 0 <= x < r && Common(dv, dw, x) ==>
                          PathLength(dv, dw, x) > PathLength(dv, dw, r)
  {
    var list := CommonAncestors(vertexCount, dv, dw);
    ScanOfAscending(list, dv, dw);
    Scan(list, dv, dw).ancestor
  }

  /** In an ascending list, the vertex the scan keeps is below every vertex
      with an equally short path. */
  lemma ScanOfAscending(list: seq<nat>, dv: Distances, dw: Distances)
    requires forall k :: 0 <= k < |list| ==> Common(dv, dw, list[k])
    requires forall i, j :: 0 <= i < j < |list| ==> list[i] < list[j]
    ensures var s := Scan(list, dv, dw);
      s.ancestor != -1 ==>
        forall k :: 0 <= k < |list| && list[k] < s.ancestor ==> PathLength(dv, dw, list[k]) > s.shortest
  {
    var s := Scan(list, dv, dw);
    if s.ancestor != -1 {
      var i :| 0 <= i < |list| && list[i] == s.ancestor && s.shortest == PathLength(dv, dw, list[i])
               && (forall k :: 0 <= k < i ==> PathLength(dv, dw, list[k]) > s.shortest);
      forall k | 0 <= k < |list| && list[k] < s.ancestor
        ensures PathLength(dv, dw, list[k]) > s.shortest
      {
        AscendingIndex(list, k, i);
      }
    }
  }

  lemma AscendingIndex(list: seq<nat>, k: int, i: int)
    requires forall a, b :: 0 <= a < b < |list| ==> list[a] < list[b]
    requires 0 <= k < |list| && 0 <= i < |list| && list[k] < list[i]
    ensures k < i
  {
  }

  /** The `length` expression: -1 with no ancestor, else the path length
      through it. */
  function LengthOf(vertexCount: nat, dv: Distances, dw: Distances): (r: int)
    ensures r == -1 <==> AncestorOf(vertexCount, dv, dw) == -1
    ensures r != -1 ==> r == PathLength(dv, dw, AncestorOf(vertexCount, dv, dw))
    ensures r != -1 ==> forall x :: 0 <= x < vertexCount && Common(dv, dw, x) ==> r <= PathLength(dv, dw, x)
  {
    var a := AncestorOf(vertexCount, dv, dw);
    if a == -1 then -1 else PathLength(dv, dw, a)
  }

  /** `ancestor(v, w)`, with `bfs(v)` the search from vertex v. */
  function Ancestor(vertexCount: nat, bfs: int -> Distances, v: int, w: int): (r: Result<int>)
    ensures r.Err? <==> !(0 <= v < vertexCount && 0 <= w < vertexCount)
    ensures r.Err? ==> r.failure == IndexOutOfBounds
    ensures r.Ok? ==> r.value == AncestorOf(vertexCount, bfs(v), bfs(w))
  {
    if !IsValidVertex(vertexCount, v) || !IsValidVertex(vertexCount, w) then Err(IndexOutOfBounds)
    else Ok(AncestorOf(vertexCount, bfs(v), bfs(w)))
  }

  /** `length(v, w)`. */
  function Length(vertexCount: nat, bfs: int -> Distances, v: int, w: int): (r: Result<int>)
    ensures r.Err? <==> Ancestor(vertexCount, bfs, v, w).Err?
    ensures r.Err? ==> r.failure == IndexOutOfBounds
    ensures r.Ok? ==> (r.value == -1 <==> Ancestor(vertexCount, bfs, v, w).value == -1)
    ensures r.Ok? && r.value != -1 ==>
              r.value == PathLength(bfs(v), bfs(w), Ancestor(vertexCount, bfs, v, w).value)
  {
    if !IsValidVertex(vertexCount, v) || !IsValidVertex(vertexCount, w) then Err(IndexOutOfBounds)
    else Ok(LengthOf(vertexCount, bfs(v), bfs(w)))
  }

  /** `ancestor(V, W)`, with `bfsFrom(vs)` the search from every vertex of vs. */
  function AncestorOfSets(vertexCount: nat, bfsFrom: seq<int> -> Distances, vs: seq<int>, ws: seq<int>)
    : (r: Result<int>)
    ensures r.Err? <==> exists k :: (0 <= k < |vs| && !(0 <= vs[k] < vertexCount))
                                 || (0 <= k < |ws| && !(0 <= ws[k] < vertexCount))
    ensures r.Err? ==> r.failure == IndexOutOfBounds
    ensures r.Ok? ==> r.value == AncestorOf(vertexCount, bfsFrom(vs), bfsFrom(ws))
  {
    if !AreValidVertices(vertexCount, vs) || !AreValidVertices(vertexCount, ws) then Err(IndexOutOfBounds)
    else Ok(AncestorOf(vertexCount, bfsFrom(vs), bfsFrom(ws)))
  }

  /** `length(V, W)`. */
  function LengthOfSets(vertexCount: nat, bfsFrom: seq<int> -> Distances, vs: seq<int>, ws: seq<int>)
    : (r: Result<int>)
    ensures r.Err? <==> AncestorOfSets(vertexCount, bfsFrom, vs, ws).Err?
    ensures r.Err? ==> r.failure == IndexOutOfBounds
    ensures r.Ok? ==> (r.value == -1 <==> AncestorOfSets(vertexCount, bfsFrom, vs, ws).value == -1)
    ensures r.Ok? && r.value != -1 ==>
              r.value == PathLength(bfsFrom(vs), bfsFrom(ws), AncestorOfSets(vertexCount, bfsFrom, vs, ws).value)
  {
    if !AreValidVertices(vertexCount, vs) || !AreValidVertices(vertexCount, ws) then Err(IndexOutOfBounds)
    else Ok(LengthOf(vertexCount, bfsFrom(vs), bfsFrom(ws)))
  }

  // ---------------------------------------------------------------------
  // Properties

  /** The scan gives the same result when the two searches swap roles. */
  lemma {:induction false} ScanSymmetric(list: seq<nat>, dv: Distances, dw: Distances)
    requires forall k :: 0 <= k < |list| ==> Common(dv, dw, list[k])
    ensures Scan(list, dv, dw) == Scan(list, dw, dv)
  {
    if |list| > 0 {
      ScanSymmetric(list[..|list| - 1], dv, dw);
    }
  }

  lemma {:induction false} CommonAncestorsSymmetric(bound: nat, dv: Distances, dw: Distances)
    ensures CommonAncestors(bound, dv, dw) == CommonAncestors(bound, dw, dv)
  {
    if bound > 0 {
      CommonAncestorsSymmetric(bound - 1, dv, dw);
    }
  }

  /** `ancestor` and `length` do not depend on the order of their arguments,
      for single vertices and for vertex sets. */
  lemma AncestorSymmetric(vertexCount: nat, bfs: int -> Distances, v: int, w: int)
    ensures Ancestor(vertexCount, bfs, v, w) == Ancestor(vertexCount, bfs, w, v)
    ensures Length(vertexCount, bfs, v, w) == Length(vertexCount, bfs, w, v)
  {
    OrderIrrelevant(vertexCount, bfs(v), bfs(w));
  }

  lemma AncestorOfSetsSymmetric(vertexCount: nat, bfsFrom: seq<int> -> Distances, vs: seq<int>, ws: seq<int>)
    ensures AncestorOfSets(vertexCount, bfsFrom, vs, ws) == AncestorOfSets(vertexCount, bfsFrom, ws, vs)
    ensures LengthOfSets(vertexCount, bfsFrom, vs, ws) == LengthOfSets(vertexCount, bfsFrom, ws, vs)
  {
    OrderIrrelevant(vertexCount, bfsFrom(vs), bfsFrom(ws));
  }

  lemma OrderIrrelevant(vertexCount: nat, dv: Distances, dw: Distances)
    ensures AncestorOf(vertexCount, dv, dw) == AncestorOf(vertexCount, dw, dv)
    ensures LengthOf(vertexCount, dv, dw) == LengthOf(vertexCount, dw, dv)
  {
    CommonAncestorsSymmetric(vertexCount, dv, dw);
    ScanSymmetric(CommonAncestors(vertexCount, dv, dw), dv, dw);
  }

  /** A breadth-first search in a digraph of `vertexCount` vertices reaches
      every vertex by a path of fewer than `vertexCount` edges. */
  ghost predicate BreadthFirst(vertexCount: nat, d: Distances) {
    forall x :: d(x).Some? ==> d(x).value < vertexCount
  }

  /** When no path can reach `Integer.MAX_VALUE` (digraphs of fewer than
      2^30 vertices), `ancestor` is -1 exactly when no vertex is reachable
      from both sides, and `length` is -1 exactly then too. */
  lemma NoAncestorIffNoCommonVertex(vertexCount: nat, dv: Distances, dw: Distances)
    requires BreadthFirst(vertexCount, dv) && BreadthFirst(vertexCount, dw)
    requires 2 * vertexCount <= IntMax
    ensures AncestorOf(vertexCount, dv, dw) == -1 <==>
              forall x :: 0 <= x < vertexCount ==> !Common(dv, dw, x)
    ensures LengthOf(vertexCount, dv, dw) == -1 <==>
              forall x :: 0 <= x < vertexCount ==> !Common(dv, dw, x)
  {
    if exists x :: 0 <= x < vertexCount && Common(dv, dw, x) {
      var x :| 0 <= x < vertexCount && Common(dv, dw, x);
      assert dv(x).value < vertexCount && dw(x).value < vertexCount;
      assert PathLength(dv, dw, x) < IntMax;
    }
  }
}
