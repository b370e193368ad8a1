/** The flow network that `buildFlowNetwork(id)` constructs for a candidate
    team `id`: the same vertex numbering and the same edges in the same
    order as the two nested loops add them. */
module FlowNetwork {
  import opened League

  /** An edge capacity: a game count, or `Double.POSITIVE_INFINITY`. */
  datatype Cap = Finite(amount: nat) | Infinite

  datatype Edge = Edge(from: nat, to: nat, cap: Cap)

  datatype Network = Network(vertices: nat, edges: seq<Edge>)

  /** `numGames`: one slot per unordered pair of teams, 0 + 1 + ... + (n - 1).
      `NumGamesFacts` shows it equals the source's `(teams * (teams - 1)) / 2`;
      the sum form keeps non-linear arithmetic out of the other proofs. */
  function NumGames(n: nat): nat {
    if n == 0 then 0 else NumGames(n - 1) + (n - 1)
  }

  /** Vertex of team t: `numGames + t + 1`. */
  function TeamVertex(n: nat, t: nat): nat {
    NumGames(n) + t + 1
  }

  /** Vertex count: games, teams, source and sink. */
  function VertexCount(n: nat): nat {
    NumGames(n) + n + 2
  }

  /** The sink is the last vertex. */
  function Sink(n: nat): nat {
    VertexCount(n) - 1
  }

  /** `Math.max(0, wins[id] + remaining[id] - wins[i])`. */
  function SinkCapacity(d: Division, id: nat, i: nat): nat
    requires id < |d.teams| && i < |d.teams|
  {
    var room := d.teams[id].wins + d.teams[id].remaining - d.teams[i].wins;
    if room > 0 then room else 0
  }

  /** The edge from team i's vertex to the sink. */
  function SinkEdge(d: Division, id: nat, i: nat): Edge
    requires id < |d.teams| && i < |d.teams|
  {
    Edge(TeamVertex(|d.teams|, i), Sink(|d.teams|), Finite(SinkCapacity(d, id, i)))
  }

  /** Team indices in [i, n) other than the candidate, in ascending order. */
  function Others(n: nat, id: nat, i: nat): (r: seq<nat>)
    ensures forall k :: 0 <= k < |r| ==> i <= r[k] < n && r[k] != id
    decreases n - i
  {
    if i >= n then []
    else if i == id then Others(n, id, i + 1)
    else [i] + Others(n, id, i + 1)
  }

  /** The pairs (i, j) the inner loop visits from column j on. */
  function RowPairs(n: nat, id: nat, i: nat, j: nat): (r: seq<(nat, nat)>)
    ensures forall k :: 0 <= k < |r| ==> r[k].0 == i && j <= r[k].1 < n && r[k].1 != id
    decreases n - j
  {
    if j >= n then []
    else if j == id then RowPairs(n, id, i, j + 1)
    else [(i, j)] + RowPairs(n, id, i, j + 1)
  }

  /** The pairs the two loops visit from row i on; game vertex k + 1 belongs
      to pair `GamePairs(n, id, 0)[k]`. */
  function GamePairs(n: nat, id: nat, i: nat): (r: seq<(nat, nat)>)
    ensures forall k :: 0 <= k < |r| ==> i <= r[k].0 < r[k].1 < n && r[k].0 != id && r[k].1 != id
    decreases n - i
  {
    if i >= n then []
    else if i == id then GamePairs(n, id, i + 1)
    else RowPairs(n, id, i, i + 1) + GamePairs(n, id, i + 1)
  }

  /** Edges added by the inner loop of row i from column j on, with
      `gameVertex` equal to gv on entry. */
  function InnerLoop(d: Division, id: nat, i: nat, j: nat, gv: nat): seq<Edge>
    requires WellFormed(d) && i < |d.teams|
    decreases |d.teams| - j
  {
    var n := |d.teams|;
    if j >= n then []
    else if j == id then InnerLoop(d, id, i, j + 1, gv)
    else
      [ Edge(0, gv, Finite(d.games[i][j])),
        Edge(gv, TeamVertex(n, i), Infinite),
        Edge(gv, TeamVertex(n, j), Infinite) ]
      + InnerLoop(d, id, i, j + 1, gv + 1)
  }

  /** Edges added by the outer loop from row i on, with `gameVertex` equal to
      gv on entry; after row i the counter has moved past that row's pairs. */
  function OuterLoop(d: Division, id: nat, i: nat, gv: nat): seq<Edge>
    requires WellFormed(d) && id < |d.teams|
    decreases |d.teams| - i
  {
    var n := |d.teams|;
    if i >= n then []
    else if i == id then OuterLoop(d, id, i + 1, gv)
    else
      InnerLoop(d, id, i, i + 1, gv)
      + [SinkEdge(d, id, i)]
      + OuterLoop(d, id, i + 1, gv + |RowPairs(n, id, i, i + 1)|)
  }

  /** `buildFlowNetwork(id)`. */
  function BuildNetwork(d: Division, id: nat): Network
    requires WellFormed(d) && id < |d.teams|
  {
    Network(VertexCount(|d.teams|), OuterLoop(d, id, 0, 1))
  }

  /** The edges leaving v, in insertion order. */
  function EdgesFrom(es: seq<Edge>, v: nat): seq<Edge> {
    if |es| == 0 then []
    else (if es[0].from == v then [es[0]] else []) + EdgesFrom(es[1..], v)
  }

  /** The edges entering v, in insertion order. */
  function EdgesInto(es: seq<Edge>, v: nat): seq<Edge> {
    if |es| == 0 then []
    else (if es[0].to == v then [es[0]] else []) + EdgesInto(es[1..], v)
  }

  // ---------------------------------------------------------------------
  // Reference descriptions of the network's parts.

  /** One source edge per pair, game vertices numbered from gv on. */
  function SourceEdgesSpec(d: Division, ps: seq<(nat, nat)>, gv: nat): seq<Edge>
    requires WellFormed(d)
    requires forall k :: 0 <= k < |ps| ==> ps[k].0 < |d.teams| && ps[k].1 < |d.teams|
  {
    seq(|ps|, k requires 0 <= k < |ps| => Edge(0, gv + k, Finite(d.games[ps[k].0][ps[k].1])))
  }

  /** The two unbounded edges of the game vertex v for pair p. */
  function GameEdgesSpec(n: nat, p: (nat, nat), v: nat): seq<Edge> {
    [Edge(v, TeamVertex(n, p.0), Infinite), Edge(v, TeamVertex(n, p.1), Infinite)]
  }

  /** The sink edges of the teams in [i, n) other than the candidate, in
      index order. */
  function SinkEdges(d: Division, id: nat, i: nat): seq<Edge>
    requires id < |d.teams|
    decreases |d.teams| - i
  {
    if i >= |d.teams| then []
    else if i == id then SinkEdges(d, id, i + 1)
    else [SinkEdge(d, id, i)] + SinkEdges(d, id, i + 1)
  }

  /** p comes strictly before q in row-major order. */
  predicate Before(p: (nat, nat), q: (nat, nat)) {
    p.0 < q.0 || (p.0 == q.0 && p.1 < q.1)
  }

  // ---------------------------------------------------------------------
  // Filtering distributes over concatenation.

  lemma {:induction false} EdgesFromAppend(a: seq<Edge>, b: seq<Edge>, v: nat)
    ensures EdgesFrom(a + b, v) == EdgesFrom(a, v) + EdgesFrom(b, v)
  {
    if |a| > 0 {
      assert (a + b)[0] == a[0];
      assert (a + b)[1..] == a[1..] + b;
      EdgesFromAppend(a[1..], b, v);
    } else {
      assert a + b == b;
    }
  }

  /** `EdgesFrom` keeps exactly the edges that start at v. */
  lemma {:induction false} EdgesFromMembers(es: seq<Edge>, v: nat)
    ensures forall e :: e in EdgesFrom(es, v) <==> e in es && e.from == v
  {
    if |es| > 0 {
      EdgesFromMembers(es[1..], v);
      assert es == [es[0]] + es[1..];
    }
  }

  lemma {:induction false} EdgesIntoAppend(a: seq<Edge>, b: seq<Edge>, v: nat)
    ensures EdgesInto(a + b, v) == EdgesInto(a, v) + EdgesInto(b, v)
  {
    if |a| > 0 {
      assert (a + b)[0] == a[0];
      assert (a + b)[1..] == a[1..] + b;
      EdgesIntoAppend(a[1..], b, v);
    } else {
      assert a + b == b;
    }
  }

  lemma EdgesFromTriple(e0: Edge, e1: Edge, e2: Edge, v: nat)
    ensures EdgesFrom([e0, e1, e2], v)
         == (if e0.from == v then [e0] else []) + (if e1.from == v then [e1] else [])
            + (if e2.from == v then [e2] else [])
  {
    assert [e0, e1, e2][1..] == [e1, e2];
    assert [e1, e2][1..] == [e2];
    assert [e2][1..] == [];
    assert EdgesFrom([e2], v) == (if e2.from == v then [e2] else []) + EdgesFrom([], v);
    assert EdgesFrom([e1, e2], v) == (if e1.from == v then [e1] else []) + EdgesFrom([e2], v);
  }

  lemma EdgesIntoTriple(e0: Edge, e1: Edge, e2: Edge, v: nat)
    ensures EdgesInto([e0, e1, e2], v)
         == (if e0.to == v then [e0] else []) + (if e1.to == v then [e1] else [])
            + (if e2.to == v then [e2] else [])
  {
    assert [e0, e1, e2][1..] == [e1, e2];
    assert [e1, e2][1..] == [e2];
    assert [e2][1..] == [];
    assert EdgesInto([e2], v) == (if e2.to == v then [e2] else []) + EdgesInto([], v);
    assert EdgesInto([e1, e2], v) == (if e1.to == v then [e1] else []) + EdgesInto([e2], v);
  }

  // ---------------------------------------------------------------------
  // The pairs visited by the loops.

  lemma {:induction false} OthersMembers(n: nat, id: nat, i: nat)
    ensures forall t :: t in Others(n, id, i) <==> i <= t < n && t != id
    ensures forall a, b :: 0 <= a < b < |Others(n, id, i)| ==> Others(n, id, i)[a] < Others(n, id, i)[b]
    decreases n - i
  {
    if i < n {
      OthersMembers(n, id, i + 1);
      if i != id {
        var os := Others(n, id, i + 1);
        forall a, b | 0 <= a < b < |[i] + os|
          ensures ([i] + os)[a] < ([i] + os)[b]
        {
          assert ([i] + os)[b] == os[b - 1] && os[b - 1] in os;
          if a > 0 {
            assert ([i] + os)[a] == os[a - 1];
          }
        }
      }
    }
  }

  lemma {:induction false} OthersLength(n: nat, id: nat, i: nat)
    requires i <= n
    ensures |Others(n, id, i)| == n - i - (if i <= id < n then 1 else 0)
    decreases n - i
  {
    if i < n {
      OthersLength(n, id, i + 1);
    }
  }

  lemma {:induction false} RowPairsShape(n: nat, id: nat, i: nat, j: nat)
    ensures |RowPairs(n, id, i, j)| == |Others(n, id, j)|
    ensures forall k :: 0 <= k < |RowPairs(n, id, i, j)| ==>
              RowPairs(n, id, i, j)[k] == (i, Others(n, id, j)[k])
    decreases n - j
  {
    if j < n {
      RowPairsShape(n, id, i, j + 1);
    }
  }

  lemma RowPairsMembers(n: nat, id: nat, i: nat, j: nat)
    ensures forall p :: p in RowPairs(n, id, i, j) <==> p.0 == i && j <= p.1 < n && p.1 != id
    ensures forall a, b :: 0 <= a < b < |RowPairs(n, id, i, j)| ==>
              Before(RowPairs(n, id, i, j)[a], RowPairs(n, id, i, j)[b])
  {
    RowPairsShape(n, id, i, j);
    OthersMembers(n, id, j);
    var rs := RowPairs(n, id, i, j);
    var os := Others(n, id, j);
    forall p
      ensures p in rs <==> p.0 == i && j <= p.1 < n && p.1 != id
    {
      if p in rs {
        var k :| 0 <= k < |rs| && rs[k] == p;
        assert os[k] in os;
      }
      if p.0 == i && j <= p.1 < n && p.1 != id {
        assert p.1 in os;
        var k :| 0 <= k < |os| && os[k] == p.1;
        assert rs[k] == p;
      }
    }
  }

  /** Every pair visited is a pair i < j of non-candidate teams, and every
      such pair is visited, in row-major order and hence exactly once. */
  lemma {:induction false} GamePairsMembers(n: nat, id: nat, i: nat)
    ensures forall p :: p in GamePairs(n, id, i) <==> i <= p.0 < p.1 < n && p.0 != id && p.1 != id
    ensures forall a, b :: 0 <= a < b < |GamePairs(n, id, i)| ==>
              Before(GamePairs(n, id, i)[a], GamePairs(n, id, i)[b])
    decreases n - i
  {
    if i < n {
      GamePairsMembers(n, id, i + 1);
      if i != id {
        RowPairsMembers(n, id, i, i + 1);
        var rs := RowPairs(n, id, i, i + 1);
        var gs := GamePairs(n, id, i + 1);
        assert GamePairs(n, id, i) == rs + gs;
        forall a, b | 0 <= a < b < |rs + gs|
          ensures Before((rs + gs)[a], (rs + gs)[b])
        {
          if b < |rs| {
            assert (rs + gs)[a] == rs[a] && (rs + gs)[b] == rs[b];
          } else if a >= |rs| {
            assert (rs + gs)[a] == gs[a - |rs|] && (rs + gs)[b] == gs[b - |rs|];
          } else {
            assert (rs + gs)[a] == rs[a] && rs[a] in rs;
            assert (rs + gs)[b] == gs[b - |rs|] && gs[b - |rs|] in gs;
          }
        }
      }
    }
  }

  lemma {:induction false} GamePairsCount(n: nat, id: nat, i: nat)
    ensures 2 * |GamePairs(n, id, i)| == |Others(n, id, i)| * (|Others(n, id, i)| - 1)
    decreases n - i
  {
    if i < n {
      GamePairsCount(n, id, i + 1);
      if i != id {
        RowPairsShape(n, id, i, i + 1);
        var m := |Others(n, id, i + 1)|;
        assert |Others(n, id, i)| == m + 1;
        assert 2 * |GamePairs(n, id, i)| == 2 * m + m * (m - 1);
        assert 2 * m + m * (m - 1) == (m + 1) * m;
      }
    }
  }

  /** The pair count equals the source's `(teams * (teams - 1)) / 2`, whose
      division is exact because n * (n - 1) is even. */
  lemma {:induction false} NumGamesFacts(n: nat)
    ensures 2 * NumGames(n) == n * (n - 1)
    ensures NumGames(n) == n * (n - 1) / 2
  {
    if n > 0 {
      NumGamesFacts(n - 1);
      assert (n - 1) * (n - 2) + 2 * (n - 1) == n * (n - 1);
    }
  }

  lemma PairCountFacts(n: nat, id: nat)
    requires id < n
    ensures 2 * |GamePairs(n, id, 0)| == (n - 1) * (n - 2)
    ensures |GamePairs(n, id, 0)| <= NumGames(n)
  {
    GamePairsCount(n, id, 0);
    OthersLength(n, id, 0);
    NumGamesFacts(n);
    var m := n - 1;
    assert 2 * |GamePairs(n, id, 0)| == m * (m - 1);
    assert m * (m - 1) <= (m + 1) * m;
  }

  // ---------------------------------------------------------------------
  // What the loops add, part by part.

  lemma SourceEdgesSpecAppend(d: Division, a: seq<(nat, nat)>, b: seq<(nat, nat)>, gv: nat)
    requires WellFormed(d)
    requires forall k :: 0 <= k < |a| ==> a[k].0 < |d.teams| && a[k].1 < |d.teams|
    requires forall k :: 0 <= k < |b| ==> b[k].0 < |d.teams| && b[k].1 < |d.teams|
    ensures SourceEdgesSpec(d, a + b, gv) == SourceEdgesSpec(d, a, gv) + SourceEdgesSpec(d, b, gv + |a|)
  {
    var l := SourceEdgesSpec(d, a + b, gv);
    var r := SourceEdgesSpec(d, a, gv) + SourceEdgesSpec(d, b, gv + |a|);
    assert |l| == |r|;
    forall k | 0 <= k < |l| ensures l[k] == r[k] {
      if k >= |a| {
        assert (a + b)[k] == b[k - |a|];
      } else {
        assert (a + b)[k] == a[k];
      }
    }
  }

  lemma SourceEdgesSpecCons(d: Division, p: (nat, nat), ps: seq<(nat, nat)>, gv: nat)
    requires WellFormed(d) && p.0 < |d.teams| && p.1 < |d.teams|
    requires forall k :: 0 <= k < |ps| ==> ps[k].0 < |d.teams| && ps[k].1 < |d.teams|
    ensures SourceEdgesSpec(d, [p] + ps, gv)
         == [Edge(0, gv, Finite(d.games[p.0][p.1]))] + SourceEdgesSpec(d, ps, gv + 1)
  {
    var l := SourceEdgesSpec(d, [p] + ps, gv);
    var r := [Edge(0, gv, Finite(d.games[p.0][p.1]))] + SourceEdgesSpec(d, ps, gv + 1);
    assert |l| == |r|;
    forall k | 0 <= k < |l| ensures l[k] == r[k] {
      if k > 0 {
        assert ([p] + ps)[k] == ps[k - 1];
      }
    }
  }

  /** The k-th sink edge belongs to the k-th team other than the candidate. */
  lemma {:induction false} SinkEdgesShape(d: Division, id: nat, i: nat)
    requires id < |d.teams|
    ensures |SinkEdges(d, id, i)| == |Others(|d.teams|, id, i)|
    ensures forall k :: 0 <= k < |SinkEdges(d, id, i)| ==>
              SinkEdges(d, id, i)[k] == SinkEdge(d, id, Others(|d.teams|, id, i)[k])
    decreases |d.teams| - i
  {
    if i < |d.teams| {
      SinkEdgesShape(d, id, i + 1);
    }
  }

  /** One step of the inner loop: the triple it adds, seen from vertex v. */
  lemma InnerStep(d: Division, id: nat, i: nat, j: nat, gv: nat, v: nat)
    requires WellFormed(d) && i < |d.teams| && j < |d.teams| && j != id
    ensures var n := |d.teams|;
      EdgesFrom(InnerLoop(d, id, i, j, gv), v)
        == (if v == 0 then [Edge(0, gv, Finite(d.games[i][j]))] else [])
           + (if v == gv then [Edge(gv, TeamVertex(n, i), Infinite), Edge(gv, TeamVertex(n, j), Infinite)] else [])
           + EdgesFrom(InnerLoop(d, id, i, j + 1, gv + 1), v)
  {
    var n := |d.teams|;
    var e0 := Edge(0, gv, Finite(d.games[i][j]));
    var e1 := Edge(gv, TeamVertex(n, i), Infinite);
    var e2 := Edge(gv, TeamVertex(n, j), Infinite);
    EdgesFromAppend([e0, e1, e2], InnerLoop(d, id, i, j + 1, gv + 1), v);
    EdgesFromTriple(e0, e1, e2, v);
  }

  /** One pass of the outer loop for a row other than the candidate's: the
      row's triples, then the row's sink edge, then the later rows. */
  lemma OuterLoopUnfold(d: Division, id: nat, i: nat, gv: nat)
    requires WellFormed(d) && id < |d.teams| && i < |d.teams| && i != id
    ensures var n := |d.teams|;
      OuterLoop(d, id, i, gv)
        == InnerLoop(d, id, i, i + 1, gv)
           + [SinkEdge(d, id, i)]
           + OuterLoop(d, id, i + 1, gv + |RowPairs(n, id, i, i + 1)|)
  {
  }

  /** An edge that does not leave v drops out of the filter. */
  lemma EdgesFromSkip(a: seq<Edge>, e: Edge, b: seq<Edge>, v: nat)
    requires e.from != v
    ensures EdgesFrom(a + [e] + b, v) == EdgesFrom(a, v) + EdgesFrom(b, v)
  {
    EdgesFromAppend(a + [e], b, v);
    EdgesFromAppend(a, [e], v);
    assert [e][1..] == [];
  }

  /** One step of the outer loop, seen from a vertex v below the team
      vertices: the sink edge added after the row does not leave v. */
  lemma OuterStep(d: Division, id: nat, i: nat, gv: nat, v: nat)
    requires WellFormed(d) && id < |d.teams| && i < |d.teams| && i != id
    requires v <= NumGames(|d.teams|)
    ensures var n := |d.teams|;
      EdgesFrom(OuterLoop(d, id, i, gv), v)
        == EdgesFrom(InnerLoop(d, id, i, i + 1, gv), v)
           + EdgesFrom(OuterLoop(d, id, i + 1, gv + |RowPairs(n, id, i, i + 1)|), v)
  {
    var n := |d.teams|;
    OuterLoopUnfold(d, id, i, gv);
    EdgesFromSkip(InnerLoop(d, id, i, i + 1, gv), SinkEdge(d, id, i),
                  OuterLoop(d, id, i + 1, gv + |RowPairs(n, id, i, i + 1)|), v);
  }

  lemma {:induction false} InnerSourceEdges(d: Division, id: nat, i: nat, j: nat, gv: nat)
    requires WellFormed(d) && i < |d.teams| && gv >= 1
    ensures EdgesFrom(InnerLoop(d, id, i, j, gv), 0)
         == SourceEdgesSpec(d, RowPairs(|d.teams|, id, i, j), gv)
    decreases |d.teams| - j
  {
    var n := |d.teams|;
    if j < n {
      if j == id {
        InnerSourceEdges(d, id, i, j + 1, gv);
      } else {
        InnerSourceEdges(d, id, i, j + 1, gv + 1);
        InnerStep(d, id, i, j, gv, 0);
        SourceEdgesSpecCons(d, (i, j), RowPairs(n, id, i, j + 1), gv);
      }
    }
  }

  lemma {:induction false} OuterSourceEdges(d: Division, id: nat, i: nat, gv: nat)
    requires WellFormed(d) && id < |d.teams| && gv >= 1
    ensures EdgesFrom(OuterLoop(d, id, i, gv), 0) == SourceEdgesSpec(d, GamePairs(|d.teams|, id, i), gv)
    decreases |d.teams| - i
  {
    var n := |d.teams|;
    if i < n {
      if i == id {
        OuterSourceEdges(d, id, i + 1, gv);
      } else {
        var row := RowPairs(n, id, i, i + 1);
        var rest := GamePairs(n, id, i + 1);
        var inner := InnerLoop(d, id, i, i + 1, gv);
        var later := OuterLoop(d, id, i + 1, gv + |row|);
        assert EdgesFrom(OuterLoop(d, id, i, gv), 0) == EdgesFrom(inner, 0) + EdgesFrom(later, 0) by {
          OuterStep(d, id, i, gv, 0);
        }
        assert EdgesFrom(inner, 0) == SourceEdgesSpec(d, row, gv) by {
          InnerSourceEdges(d, id, i, i + 1, gv);
        }
        assert EdgesFrom(later, 0) == SourceEdgesSpec(d, rest, gv + |row|) by {
          OuterSourceEdges(d, id, i + 1, gv + |row|);
        }
        assert SourceEdgesSpec(d, GamePairs(n, id, i), gv)
            == SourceEdgesSpec(d, row, gv) + SourceEdgesSpec(d, rest, gv + |row|) by {
          GamePairsSplit(n, id, i);
          SourceEdgesSpecAppend(d, row, rest, gv);
        }
      }
    }
  }

  /** The edges leaving v among those of the game vertices numbered from gv
      on for pairs ps: the two of pair ps[v - gv] when v is one of them, and
      none otherwise. */
  function GameEdgesAt(n: nat, ps: seq<(nat, nat)>, gv: nat, v: nat): seq<Edge> {
    if gv <= v < gv + |ps| then GameEdgesSpec(n, ps[v - gv], v) else []
  }

  lemma GameEdgesAtAppend(n: nat, a: seq<(nat, nat)>, b: seq<(nat, nat)>, gv: nat, v: nat)
    ensures GameEdgesAt(n, a + b, gv, v) == GameEdgesAt(n, a, gv, v) + GameEdgesAt(n, b, gv + |a|, v)
  {
    if gv <= v < gv + |a| {
      assert (a + b)[v - gv] == a[v - gv];
    } else if gv + |a| <= v < gv + |a| + |b| {
      assert (a + b)[v - gv] == b[v - (gv + |a|)];
    }
  }

  /** One step of the inner loop, seen from a vertex other than the source. */
  lemma InnerGameStep(d: Division, id: nat, i: nat, j: nat, gv: nat, v: nat)
    requires WellFormed(d) && i < |d.teams| && j < |d.teams| && j != id && 1 <= v
    ensures EdgesFrom(InnerLoop(d, id, i, j, gv), v)
         == GameEdgesAt(|d.teams|, [(i, j)], gv, v) + EdgesFrom(InnerLoop(d, id, i, j + 1, gv + 1), v)
  {
    InnerStep(d, id, i, j, gv, v);
  }

  lemma {:induction false} InnerGameEdges(d: Division, id: nat, i: nat, j: nat, gv: nat, v: nat)
    requires WellFormed(d) && i < |d.teams| && 1 <= v
    ensures EdgesFrom(InnerLoop(d, id, i, j, gv), v) == GameEdgesAt(|d.teams|, RowPairs(|d.teams|, id, i, j), gv, v)
    decreases |d.teams| - j
  {
    var n := |d.teams|;
    if j < n {
      if j == id {
        InnerGameEdges(d, id, i, j + 1, gv, v);
      } else {
        var rest := RowPairs(n, id, i, j + 1);
        var later := InnerLoop(d, id, i, j + 1, gv + 1);
        assert EdgesFrom(InnerLoop(d, id, i, j, gv), v) == GameEdgesAt(n, [(i, j)], gv, v) + EdgesFrom(later, v) by {
          InnerGameStep(d, id, i, j, gv, v);
        }
        assert EdgesFrom(later, v) == GameEdgesAt(n, rest, gv + 1, v) by {
          InnerGameEdges(d, id, i, j + 1, gv + 1, v);
        }
        assert GameEdgesAt(n, RowPairs(n, id, i, j), gv, v)
            == GameEdgesAt(n, [(i, j)], gv, v) + GameEdgesAt(n, rest, gv + 1, v) by {
          assert RowPairs(n, id, i, j) == [(i, j)] + rest;
          GameEdgesAtAppend(n, [(i, j)], rest, gv, v);
        }
      }
    }
  }

  /** The pairs of row i come first, then those of the later rows. */
  lemma GamePairsSplit(n: nat, id: nat, i: nat)
    requires i < n && i != id
    ensures GamePairs(n, id, i) == RowPairs(n, id, i, i + 1) + GamePairs(n, id, i + 1)
  {
  }

  lemma {:induction false} OuterGameEdges(d: Division, id: nat, i: nat, gv: nat, v: nat)
    requires WellFormed(d) && id < |d.teams| && 1 <= v <= NumGames(|d.teams|)
    ensures EdgesFrom(OuterLoop(d, id, i, gv), v) == GameEdgesAt(|d.teams|, GamePairs(|d.teams|, id, i), gv, v)
    decreases |d.teams| - i
  {
    var n := |d.teams|;
    if i < n {
      if i == id {
        OuterGameEdges(d, id, i + 1, gv, v);
      } else {
        var row := RowPairs(n, id, i, i + 1);
        var rest := GamePairs(n, id, i + 1);
        var inner := InnerLoop(d, id, i, i + 1, gv);
        var later := OuterLoop(d, id, i + 1, gv + |row|);
        assert EdgesFrom(OuterLoop(d, id, i, gv), v) == EdgesFrom(inner, v) + EdgesFrom(later, v) by {
          OuterStep(d, id, i, gv, v);
        }
        assert EdgesFrom(inner, v) == GameEdgesAt(n, row, gv, v) by {
          InnerGameEdges(d, id, i, i + 1, gv, v);
        }
        assert EdgesFrom(later, v) == GameEdgesAt(n, rest, gv + |row|, v) by {
          OuterGameEdges(d, id, i + 1, gv + |row|, v);
        }
        assert GameEdgesAt(n, GamePairs(n, id, i), gv, v)
            == GameEdgesAt(n, row, gv, v) + GameEdgesAt(n, rest, gv + |row|, v) by {
          GamePairsSplit(n, id, i);
          GameEdgesAtAppend(n, row, rest, gv, v);
        }
      }
    }
  }

  lemma {:induction false} InnerNothingIntoSink(d: Division, id: nat, i: nat, j: nat, gv: nat)
    requires WellFormed(d) && i < |d.teams|
    requires gv + |RowPairs(|d.teams|, id, i, j)| <= NumGames(|d.teams|) + 1
    ensures EdgesInto(InnerLoop(d, id, i, j, gv), Sink(|d.teams|)) == []
    decreases |d.teams| - j
  {
    var n := |d.teams|;
    if j < n {
      if j == id {
        InnerNothingIntoSink(d, id, i, j + 1, gv);
      } else {
        InnerNothingIntoSink(d, id, i, j + 1, gv + 1);
        var e0 := Edge(0, gv, Finite(d.games[i][j]));
        var e1 := Edge(gv, TeamVertex(n, i), Infinite);
        var e2 := Edge(gv, TeamVertex(n, j), Infinite);
        EdgesIntoAppend([e0, e1, e2], InnerLoop(d, id, i, j + 1, gv + 1), Sink(n));
        EdgesIntoTriple(e0, e1, e2, Sink(n));
      }
    }
  }

  /** An edge that enters v stays in the filter, in its place. */
  lemma EdgesIntoKeep(a: seq<Edge>, e: Edge, b: seq<Edge>, v: nat)
    requires e.to == v
    ensures EdgesInto(a + [e] + b, v) == EdgesInto(a, v) + [e] + EdgesInto(b, v)
  {
    EdgesIntoAppend(a + [e], b, v);
    EdgesIntoAppend(a, [e], v);
    assert [e][1..] == [];
  }

  lemma {:induction false} OuterSinkEdges(d: Division, id: nat, i: nat, gv: nat)
    requires WellFormed(d) && id < |d.teams|
    requires gv + |GamePairs(|d.teams|, id, i)| <= NumGames(|d.teams|) + 1
    ensures EdgesInto(OuterLoop(d, id, i, gv), Sink(|d.teams|)) == SinkEdges(d, id, i)
    decreases |d.teams| - i
  {
    var n := |d.teams|;
    if i < n {
      if i == id {
        OuterSinkEdges(d, id, i + 1, gv);
      } else {
        var gv' := gv + |RowPairs(n, id, i, i + 1)|;
        var inner := InnerLoop(d, id, i, i + 1, gv);
        var rest := OuterLoop(d, id, i + 1, gv');
        assert EdgesInto(inner, Sink(n)) == [] by {
          InnerNothingIntoSink(d, id, i, i + 1, gv);
        }
        assert EdgesInto(rest, Sink(n)) == SinkEdges(d, id, i + 1) by {
          OuterSinkEdges(d, id, i + 1, gv');
        }
        assert EdgesInto(OuterLoop(d, id, i, gv), Sink(n)) == EdgesInto(inner, Sink(n)) + [SinkEdge(d, id, i)] + EdgesInto(rest, Sink(n)) by {
          OuterLoopUnfold(d, id, i, gv);
          EdgesIntoKeep(inner, SinkEdge(d, id, i), rest, Sink(n));
        }
        assert SinkEdges(d, id, i) == [SinkEdge(d, id, i)] + SinkEdges(d, id, i + 1);
      }
    }
  }

  /** Where an edge of the candidate's network may start and end. */
  predicate WellPlaced(n: nat, id: nat, e: Edge) {
    && e.from < VertexCount(n) && e.to < VertexCount(n)
    && e.to != 0 && e.from != Sink(n)
    && e.from != TeamVertex(n, id) && e.to != TeamVertex(n, id)
  }

  lemma {:induction false} InnerWellPlaced(d: Division, id: nat, i: nat, j: nat, gv: nat)
    requires WellFormed(d) && i < |d.teams| && id < |d.teams| && i != id && gv >= 1
    requires gv + |RowPairs(|d.teams|, id, i, j)| <= NumGames(|d.teams|) + 1
    ensures forall e :: e in InnerLoop(d, id, i, j, gv) ==> WellPlaced(|d.teams|, id, e)
    decreases |d.teams| - j
  {
    var n := |d.teams|;
    if j < n {
      if j == id {
        InnerWellPlaced(d, id, i, j + 1, gv);
      } else {
        InnerWellPlaced(d, id, i, j + 1, gv + 1);
      }
    }
  }

  lemma {:induction false} OuterWellPlaced(d: Division, id: nat, i: nat, gv: nat)
    requires WellFormed(d) && id < |d.teams| && gv >= 1
    requires gv + |GamePairs(|d.teams|, id, i)| <= NumGames(|d.teams|) + 1
    ensures forall e :: e in OuterLoop(d, id, i, gv) ==> WellPlaced(|d.teams|, id, e)
    decreases |d.teams| - i
  {
    var n := |d.teams|;
    if i < n {
      if i == id {
        OuterWellPlaced(d, id, i + 1, gv);
      } else {
        var row := RowPairs(n, id, i, i + 1);
        var inner := InnerLoop(d, id, i, i + 1, gv);
        var later := OuterLoop(d, id, i + 1, gv + |row|);
        assert forall e :: e in inner ==> WellPlaced(n, id, e) by {
          InnerWellPlaced(d, id, i, i + 1, gv);
        }
        assert forall e :: e in later ==> WellPlaced(n, id, e) by {
          GamePairsSplit(n, id, i);
          OuterWellPlaced(d, id, i + 1, gv + |row|);
        }
        assert OuterLoop(d, id, i, gv) == inner + [SinkEdge(d, id, i)] + later by {
          OuterLoopUnfold(d, id, i, gv);
        }
      }
    }
  }

  /** The inner loop adds three edges per pair it visits. */
  lemma {:induction false} InnerLength(d: Division, id: nat, i: nat, j: nat, gv: nat)
    requires WellFormed(d) && i < |d.teams|
    ensures |InnerLoop(d, id, i, j, gv)| == 3 * |RowPairs(|d.teams|, id, i, j)|
    decreases |d.teams| - j
  {
    if j < |d.teams| {
      if j == id {
        InnerLength(d, id, i, j + 1, gv);
      } else {
        InnerLength(d, id, i, j + 1, gv + 1);
      }
    }
  }

  /** The outer loop adds three edges per pair and one sink edge per
      non-candidate row. */
  lemma {:induction false} OuterLength(d: Division, id: nat, i: nat, gv: nat)
    requires WellFormed(d) && id < |d.teams|
    ensures |OuterLoop(d, id, i, gv)| == 3 * |GamePairs(|d.teams|, id, i)| + |Others(|d.teams|, id, i)|
    decreases |d.teams| - i
  {
    var n := |d.teams|;
    if i < n {
      if i == id {
        OuterLength(d, id, i + 1, gv);
      } else {
        var row := RowPairs(n, id, i, i + 1);
        var inner := InnerLoop(d, id, i, i + 1, gv);
        var later := OuterLoop(d, id, i + 1, gv + |row|);
        assert |OuterLoop(d, id, i, gv)| == |inner| + 1 + |later| by {
          OuterLoopUnfold(d, id, i, gv);
        }
        assert |inner| == 3 * |row| by {
          InnerLength(d, id, i, i + 1, gv);
        }
        assert |later| == 3 * |GamePairs(n, id, i + 1)| + |Others(n, id, i + 1)| by {
          OuterLength(d, id, i + 1, gv + |row|);
        }
        assert |GamePairs(n, id, i)| == |row| + |GamePairs(n, id, i + 1)| by {
          GamePairsSplit(n, id, i);
        }
      }
    }
  }

  // ---------------------------------------------------------------------
  // The network as a whole.

  /** The vertex count depends only on the number of teams, not on the
      candidate; (n-1)(n-2)/2 game vertices are used out of numGames slots. */
  lemma NetworkVertices(d: Division, id: nat)
    requires WellFormed(d) && id < |d.teams|
    ensures var n := |d.teams|;
      && BuildNetwork(d, id).vertices == n * (n - 1) / 2 + n + 2
      && 2 * |GamePairs(n, id, 0)| == (n - 1) * (n - 2)
      && |GamePairs(n, id, 0)| <= NumGames(n)
  {
    NumGamesFacts(|d.teams|);
    PairCountFacts(|d.teams|, id);
  }

  /** The source edges, in order: game vertex k + 1 gets capacity
      games[i][j] of the k-th pair, zero capacities included. */
  lemma NetworkSourceEdges(d: Division, id: nat)
    requires WellFormed(d) && id < |d.teams|
    ensures var ps := GamePairs(|d.teams|, id, 0);
      && |EdgesFrom(BuildNetwork(d, id).edges, 0)| == |ps|
      && forall k :: 0 <= k < |ps| ==>
           EdgesFrom(BuildNetwork(d, id).edges, 0)[k] == Edge(0, k + 1, Finite(d.games[ps[k].0][ps[k].1]))
  {
    OuterSourceEdges(d, id, 0, 1);
  }

  /** Each game vertex has exactly two unbounded edges, to the vertices of
      the two teams of its pair. */
  lemma NetworkGameEdges(d: Division, id: nat)
    requires WellFormed(d) && id < |d.teams|
    ensures var n := |d.teams|;
      var ps := GamePairs(n, id, 0);
      forall v :: 1 <= v <= |ps| ==>
        EdgesFrom(BuildNetwork(d, id).edges, v)
          == [Edge(v, TeamVertex(n, ps[v - 1].0), Infinite), Edge(v, TeamVertex(n, ps[v - 1].1), Infinite)]
  {
    var n := |d.teams|;
    var ps := GamePairs(n, id, 0);
    PairCountFacts(n, id);
    forall v | 1 <= v <= |ps|
      ensures EdgesFrom(BuildNetwork(d, id).edges, v) == GameEdgesSpec(n, ps[v - 1], v)
    {
      OuterGameEdges(d, id, 0, 1, v);
    }
  }

  /** Exactly one edge enters the sink per non-candidate team, in index
      order, with capacity max(0, wins[id] + remaining[id] - wins[i]). */
  lemma NetworkSinkEdges(d: Division, id: nat)
    requires WellFormed(d) && id < |d.teams|
    ensures var n := |d.teams|;
      var into := EdgesInto(BuildNetwork(d, id).edges, Sink(n));
      && |Others(n, id, 0)| == n - 1
      && |into| == n - 1
      && (forall k :: 0 <= k < |into| ==> into[k].from == TeamVertex(n, Others(n, id, 0)[k]))
      && (forall k :: 0 <= k < |into| ==>
            into[k].cap == Finite(SinkCapacity(d, id, Others(n, id, 0)[k])))
      && (forall t: nat :: t in Others(n, id, 0) <==> t < n && t != id)
  {
    var n := |d.teams|;
    PairCountFacts(n, id);
    OuterSinkEdges(d, id, 0, 1);
    SinkEdgesShape(d, id, 0);
    OthersLength(n, id, 0);
    OthersMembers(n, id, 0);
  }

  /** The network holds 3(n-1)(n-2)/2 + n - 1 edges: with the source
      edges, the two edges of each game vertex and the sink edges counted
      above, it has no other edge. */
  lemma NetworkEdgeCount(d: Division, id: nat)
    requires WellFormed(d) && id < |d.teams|
    ensures var n := |d.teams|;
      var es := BuildNetwork(d, id).edges;
      && |es| == 3 * |GamePairs(n, id, 0)| + n - 1
      && |es| == |EdgesFrom(es, 0)| + 2 * |GamePairs(n, id, 0)| + |EdgesInto(es, Sink(n))|
  {
    var n := |d.teams|;
    OuterLength(d, id, 0, 1);
    OthersLength(n, id, 0);
    NetworkSourceEdges(d, id);
    NetworkSinkEdges(d, id);
  }

  /** Every edge stays inside the vertex range, nothing enters the source or
      leaves the sink, and the candidate's team vertex is never touched. */
  lemma NetworkEdgesWellPlaced(d: Division, id: nat)
    requires WellFormed(d) && id < |d.teams|
    ensures forall e :: e in BuildNetwork(d, id).edges ==> WellPlaced(|d.teams|, id, e)
  {
    PairCountFacts(|d.teams|, id);
    OuterWellPlaced(d, id, 0, 1);
  }
}
