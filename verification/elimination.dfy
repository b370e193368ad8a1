/** The elimination queries of BaseballElimination: the trivial check against
    the cached leader, the flow-based check and the certificate. The maximum
    flow itself is computed by a library; the model takes its outcome as the
    parameter `solve`. */
module Elimination {
  import opened Base
  import opened League
  import opened FlowNetwork

  /** What FordFulkerson exposes after it has run on a network: the flow on
      the edge at each position of the edge list, and whether a vertex is on
      the source side of the minimum cut. */
  datatype MaxFlow = MaxFlow(flow: nat -> int, inCut: nat -> bool)

  /** `isTriviallyEliminated(id)`: the candidate's best final total is below
      the wins of the team the leader's name maps to. With no leader the
      lookup `teamToId.get(null)` unboxes null and throws. */
  function IsTriviallyEliminated(d: Division, id: nat): (r: Result<bool>)
    requires id < |d.teams|
    ensures r.Err? <==> LeaderName(d).None?
    ensures r.Err? ==> r.failure == NullPointer
  {
    match LeaderName(d)
    case None => Err(NullPointer)
    case Some(leader) =>
      TeamIdDefinedOnNames(d, leader);
      match TeamId(d.teams, leader)
      case None => Err(NullPointer)
      case Some(l) => Ok(d.teams[id].wins + d.teams[id].remaining < d.teams[l].wins)
  }

  /** `edge.flow() < edge.capacity()`; no finite flow reaches an infinite capacity. */
  predicate Unsaturated(cap: Cap, flow: int) {
    match cap
    case Finite(c) => flow < c
    case Infinite => true
  }

  /** `flowNetwork.adj(v)` lists the edges with v at either end. */
  predicate Incident(e: Edge, v: nat) {
    e.from == v || e.to == v
  }

  /** Some edge in `adj(source)` carries less flow than its capacity. */
  predicate SourceUnsaturated(net: Network, mf: MaxFlow) {
    exists k :: 0 <= k < |net.edges| && Incident(net.edges[k], 0) && Unsaturated(net.edges[k].cap, mf.flow(k))
  }

  /** `isEliminated(team)`. */
  function IsEliminated(d: Division, name: string, solve: Network -> MaxFlow): (r: Result<bool>)
    requires WellFormed(d)
    ensures r.Err? <==> name !in TeamNames(d) || LeaderName(d).None?
    ensures name !in TeamNames(d) ==> r == Err(IllegalArgument)
    ensures name in TeamNames(d) && LeaderName(d).None? ==> r == Err(NullPointer)
  {
    TeamIdDefinedOnNames(d, name);
    match TeamId(d.teams, name)
    case None => Err(IllegalArgument)
    case Some(id) =>
      match IsTriviallyEliminated(d, id)
      case Err(f) => Err(f)
      case Ok(trivial) =>
        if trivial then Ok(true)
        else
          var net := BuildNetwork(d, id);
          Ok(SourceUnsaturated(net, solve(net)))
  }

  /** With unique names every team's own name maps back to it. */
  lemma OwnNamesMapHome(teams: seq<Team>)
    ensures DistinctNames(teams) ==> forall i :: 0 <= i < |teams| ==> TeamId(teams, teams[i].name) == Some(i)
  {
    if DistinctNames(teams) {
      forall i | 0 <= i < |teams|
        ensures TeamId(teams, teams[i].name) == Some(i)
      {
        TeamIdOfOwnName(teams, i);
      }
    }
  }

  /** The names t whose `teamToId.get(t)` is on the source side of the cut:
      the source passes the raw team index to `inCut`. Team i's name is
      selected iff vertex i is on the source side (i being the index the
      name maps to, which with unique names is every team). */
  function CutTeamsByIndex(d: Division, mf: MaxFlow): (r: set<string>)
    ensures r <= TeamNames(d)
    ensures forall i :: 0 <= i < |d.teams| && TeamId(d.teams, d.teams[i].name) == Some(i) ==>
              (d.teams[i].name in r <==> mf.inCut(i))
    ensures DistinctNames(d.teams) ==>
              forall i :: 0 <= i < |d.teams| ==> (d.teams[i].name in r <==> mf.inCut(i))
  {
    OwnNamesMapHome(d.teams);
    set t | t in TeamNames(d) && TeamId(d.teams, t).Some? && mf.inCut(TeamId(d.teams, t).value)
  }

  /** `certificateOfElimination(team)`: `{leader}` on trivial elimination;
      otherwise, when some source edge is unsaturated, the names selected by
      `CutTeamsByIndex`; an empty set is returned as null. */
  function CertificateOfElimination(d: Division, name: string, solve: Network -> MaxFlow)
    : (r: Result<Option<set<string>>>)
    requires WellFormed(d)
    ensures r.Err? <==> name !in TeamNames(d) || LeaderName(d).None?
    ensures name !in TeamNames(d) ==> r == Err(IllegalArgument)
    ensures name in TeamNames(d) && LeaderName(d).None? ==> r == Err(NullPointer)
    ensures r.Ok? && r.value.Some? ==> r.value.value != {} && r.value.value <= TeamNames(d)
  {
    TeamIdDefinedOnNames(d, name);
    match TeamId(d.teams, name)
    case None => Err(IllegalArgument)
    case Some(id) =>
      match IsTriviallyEliminated(d, id)
      case Err(f) => Err(f)
      case Ok(trivial) =>
        if trivial then Ok(Some({LeaderName(d).value}))
        else
          var net := BuildNetwork(d, id);
          var mf := solve(net);
          var found := if SourceUnsaturated(net, mf) then CutTeamsByIndex(d, mf) else {};
          Ok(if found == {} then None else Some(found))
  }

  // ---------------------------------------------------------------------
  // Trivial elimination.

  /** With unique names, the cached leader is a team with the most wins, so
      the trivial check says exactly that some team has already won more
      games than the candidate can reach. */
  lemma TrivialEliminationMeaning(d: Division, id: nat)
    requires id < |d.teams| && DistinctNames(d.teams)
    requires LeaderName(d).Some?
    ensures IsTriviallyEliminated(d, id).Ok?
    ensures IsTriviallyEliminated(d, id).value
        <==> exists j :: 0 <= j < |d.teams| && d.teams[j].wins > d.teams[id].wins + d.teams[id].remaining
  {
    var l := LeaderIndex(d.teams).value;
    TeamIdOfOwnName(d.teams, l);
    assert TeamId(d.teams, LeaderName(d).value) == Some(l);
  }

  /** The team the leader's name maps to is never trivially eliminated. */
  lemma LeaderNotTriviallyEliminated(d: Division)
    requires LeaderName(d).Some?
    ensures TeamId(d.teams, LeaderName(d).value).Some?
    ensures IsTriviallyEliminated(d, TeamId(d.teams, LeaderName(d).value).value) == Ok(false)
  {
    TeamIdDefinedOnNames(d, LeaderName(d).value);
  }

  // ---------------------------------------------------------------------
  // Saturation of the source edges against their totals.

  /** Total flow on the source edges at positions k and above. */
  function SourceFlowFrom(es: seq<Edge>, flow: nat -> int, k: nat): int
    decreases |es| - k
  {
    if k >= |es| then 0
    else (if es[k].from == 0 then flow(k) else 0) + SourceFlowFrom(es, flow, k + 1)
  }

  /** Total finite capacity of the source edges at positions k and above. */
  function SourceCapacityFrom(es: seq<Edge>, k: nat): nat
    decreases |es| - k
  {
    if k >= |es| then 0
    else (if es[k].from == 0 && es[k].cap.Finite? then es[k].cap.amount else 0) + SourceCapacityFrom(es, k + 1)
  }

  /** Every source edge has a finite capacity and a flow between 0 and it. */
  predicate FlowWithinCapacity(es: seq<Edge>, flow: nat -> int) {
    forall k :: 0 <= k < |es| && es[k].from == 0 ==>
      es[k].cap.Finite? && 0 <= flow(k) <= es[k].cap.amount
  }

  /** Some source edge is below capacity iff the source flow is below the
      source capacity. */
  lemma {:induction false} UnsaturatedIffBelowCapacity(es: seq<Edge>, flow: nat -> int, k: nat)
    requires FlowWithinCapacity(es, flow)
    ensures (exists j :: k <= j < |es| && es[j].from == 0 && Unsaturated(es[j].cap, flow(j)))
        <==> SourceFlowFrom(es, flow, k) < SourceCapacityFrom(es, k)
    ensures SourceFlowFrom(es, flow, k) <= SourceCapacityFrom(es, k)
    decreases |es| - k
  {
    if k < |es| {
      UnsaturatedIffBelowCapacity(es, flow, k + 1);
      if es[k].from == 0 && Unsaturated(es[k].cap, flow(k)) {
        assert SourceFlowFrom(es, flow, k) < SourceCapacityFrom(es, k);
      }
      if exists j :: k + 1 <= j < |es| && es[j].from == 0 && Unsaturated(es[j].cap, flow(j)) {
        var j :| k + 1 <= j < |es| && es[j].from == 0 && Unsaturated(es[j].cap, flow(j));
        assert k <= j;
      }
    }
  }

  /** In the candidate's network nothing enters the source, so `adj(source)`
      holds exactly the source edges. */
  lemma SourceAdjacencyIsSourceEdges(d: Division, id: nat, mf: MaxFlow)
    requires WellFormed(d) && id < |d.teams|
    ensures var es := BuildNetwork(d, id).edges;
      SourceUnsaturated(BuildNetwork(d, id), mf) <==>
        exists j :: 0 <= j < |es| && es[j].from == 0 && Unsaturated(es[j].cap, mf.flow(j))
  {
    var es := BuildNetwork(d, id).edges;
    NetworkEdgesWellPlaced(d, id);
    forall j | 0 <= j < |es|
      ensures Incident(es[j], 0) <==> es[j].from == 0
    {
      assert es[j] in es;
    }
  }

  /** When the candidate is not trivially eliminated and the solver's flow
      respects the source capacities, `isEliminated` is exactly "the maximum
      flow is below the total number of games left among the other teams". */
  lemma EliminatedIffFlowBelowCapacity(d: Division, name: string, solve: Network -> MaxFlow)
    requires WellFormed(d) && TeamId(d.teams, name).Some?
    requires IsTriviallyEliminated(d, TeamId(d.teams, name).value) == Ok(false)
    requires FlowWithinCapacity(BuildNetwork(d, TeamId(d.teams, name).value).edges,
                                solve(BuildNetwork(d, TeamId(d.teams, name).value)).flow)
    ensures var net := BuildNetwork(d, TeamId(d.teams, name).value);
      IsEliminated(d, name, solve)
        == Ok(SourceFlowFrom(net.edges, solve(net).flow, 0) < SourceCapacityFrom(net.edges, 0))
  {
    var id := TeamId(d.teams, name).value;
    var net := BuildNetwork(d, id);
    SourceAdjacencyIsSourceEdges(d, id, solve(net));
    UnsaturatedIffBelowCapacity(net.edges, solve(net).flow, 0);
  }

  // ---------------------------------------------------------------------
  // The certificate against the decision.

  /** Both queries fail on the same inputs with the same exception; a team
      that is not eliminated has no certificate, and a certificate is only
      produced for an eliminated team. */
  lemma CertificateAgreesWithElimination(d: Division, name: string, solve: Network -> MaxFlow)
    requires WellFormed(d)
    ensures IsEliminated(d, name, solve).Err? ==> CertificateOfElimination(d, name, solve).Err?
    ensures IsEliminated(d, name, solve).Err? ==>
              CertificateOfElimination(d, name, solve).failure == IsEliminated(d, name, solve).failure
    ensures IsEliminated(d, name, solve) == Ok(false) ==> CertificateOfElimination(d, name, solve) == Ok(None)
    ensures (CertificateOfElimination(d, name, solve).Ok? && CertificateOfElimination(d, name, solve).value.Some?)
              ==> IsEliminated(d, name, solve) == Ok(true)
  {
  }

  /** On trivial elimination the certificate is the leader alone, and the
      leader's wins exceed the candidate's best final total. */
  lemma TrivialCertificateIsLeader(d: Division, name: string, solve: Network -> MaxFlow)
    requires WellFormed(d) && TeamId(d.teams, name).Some?
    requires IsTriviallyEliminated(d, TeamId(d.teams, name).value) == Ok(true)
    ensures LeaderName(d).Some?
    ensures CertificateOfElimination(d, name, solve) == Ok(Some({LeaderName(d).value}))
    ensures exists l :: 0 <= l < |d.teams| && d.teams[l].name == LeaderName(d).value
              && d.teams[l].wins > d.teams[TeamId(d.teams, name).value].wins
                                   + d.teams[TeamId(d.teams, name).value].remaining
  {
    TeamIdDefinedOnNames(d, LeaderName(d).value);
  }

  /** Off the trivial path, the certificate is the set of names whose raw
      team index the solver reports on the source side, or null when every
      source edge is saturated or that set is empty. */
  lemma CertificateFromCut(d: Division, name: string, solve: Network -> MaxFlow)
    requires WellFormed(d) && TeamId(d.teams, name).Some?
    requires IsTriviallyEliminated(d, TeamId(d.teams, name).value) == Ok(false)
    ensures var net := BuildNetwork(d, TeamId(d.teams, name).value);
      var found := CutTeamsByIndex(d, solve(net));
      && (!SourceUnsaturated(net, solve(net)) ==> CertificateOfElimination(d, name, solve) == Ok(None))
      && (SourceUnsaturated(net, solve(net)) && found == {} ==> CertificateOfElimination(d, name, solve) == Ok(None))
      && (SourceUnsaturated(net, solve(net)) && found != {} ==> CertificateOfElimination(d, name, solve) == Ok(Some(found)))
  {
  }

  // ---------------------------------------------------------------------
  // The certificate passes a team index where a vertex number is meant.
  // Team t's vertex is `numGames + t + 1`; vertex t itself is the source
  // (t = 0) or a game vertex. The corrected certificate below reads the
  // team vertex.

  /** The source is on the source side of every cut, and its number 0 is
      also team 0's index: whenever the flow check eliminates a candidate,
      team 0's name is in the certificate, even when team 0 is the candidate. */
  lemma RawIndexCertificateHoldsTeamZero(d: Division, name: string, solve: Network -> MaxFlow)
    requires WellFormed(d) && DistinctNames(d.teams) && |d.teams| > 0
    requires TeamId(d.teams, name).Some?
    requires IsTriviallyEliminated(d, TeamId(d.teams, name).value) == Ok(false)
    requires SourceUnsaturated(BuildNetwork(d, TeamId(d.teams, name).value),
                               solve(BuildNetwork(d, TeamId(d.teams, name).value)))
    requires solve(BuildNetwork(d, TeamId(d.teams, name).value)).inCut(0)
    ensures CertificateOfElimination(d, name, solve).Ok?
    ensures CertificateOfElimination(d, name, solve).value.Some?
    ensures d.teams[0].name in CertificateOfElimination(d, name, solve).value.value
  {
    TeamIdOfOwnName(d.teams, 0);
    assert d.teams[0] in d.teams;
    var net := BuildNetwork(d, TeamId(d.teams, name).value);
    assert d.teams[0].name in CutTeamsByIndex(d, solve(net));
  }

  /** Three teams: A (1 win, 2 left), B and C (2 wins each) with 3 games
      left between B and C. A can reach 3 wins, B and C can absorb only one
      more win each, so A is eliminated by {B, C}. */
  function ExampleDivision(): (d: Division)
    ensures WellFormed(d)
  {
    Division([Team("A", 1, 0, 2), Team("B", 2, 0, 4), Team("C", 2, 0, 4)],
             [[0, 1, 1], [1, 0, 3], [1, 3, 0]])
  }

  /** A maximum flow of A's network and its minimum cut. The edges are
      source->1 (3), 1->5, 1->6 (unbounded), 5->7 (1), 6->7 (1); the flow is
      2 with source side {0, 1, 5, 6}. */
  const ExampleFlow: MaxFlow := MaxFlow(k => if k == 0 then 2 else 1, v => v == 0 || v == 1 || v == 5 || v == 6)

  function ExampleSolver(net: Network): MaxFlow {
    ExampleFlow
  }

  lemma ExampleNetwork()
    ensures BuildNetwork(ExampleDivision(), 0).vertices == 8
    ensures BuildNetwork(ExampleDivision(), 0).edges
         == [Edge(0, 1, Finite(3)), Edge(1, 5, Infinite), Edge(1, 6, Infinite),
             Edge(5, 7, Finite(1)), Edge(6, 7, Finite(1))]
  {
    var d := ExampleDivision();
    assert NumGames(3) == 3;
    assert RowPairs(3, 0, 1, 2) == [(1, 2)];
    assert RowPairs(3, 0, 2, 3) == [];
    assert InnerLoop(d, 0, 1, 2, 1) == [Edge(0, 1, Finite(3)), Edge(1, 5, Infinite), Edge(1, 6, Infinite)];
    assert OuterLoop(d, 0, 2, 2) == [Edge(6, 7, Finite(1))];
  }

  /** The name table of the example. */
  lemma ExampleNames()
    ensures TeamNames(ExampleDivision()) == {"A", "B", "C"}
    ensures TeamId(ExampleDivision().teams, "A") == Some(0)
    ensures TeamId(ExampleDivision().teams, "B") == Some(1)
    ensures TeamId(ExampleDivision().teams, "C") == Some(2)
  {
    var d := ExampleDivision();
    assert d.teams[0].name == "A" && d.teams[1].name == "B" && d.teams[2].name == "C";
  }

  /** The name table, the leader and the flow outcome of the example. */
  lemma ExampleLookups()
    ensures TeamNames(ExampleDivision()) == {"A", "B", "C"}
    ensures TeamId(ExampleDivision().teams, "A") == Some(0)
    ensures TeamId(ExampleDivision().teams, "B") == Some(1)
    ensures TeamId(ExampleDivision().teams, "C") == Some(2)
    ensures IsTriviallyEliminated(ExampleDivision(), 0) == Ok(false)
    ensures SourceUnsaturated(BuildNetwork(ExampleDivision(), 0), ExampleFlow)
  {
    var d := ExampleDivision();
    ExampleNames();
    assert LeaderIndex(d.teams) == Some(1);
    ExampleNetwork();
    var net := BuildNetwork(d, 0);
    assert Incident(net.edges[0], 0) && Unsaturated(net.edges[0].cap, ExampleFlow.flow(0));
  }

  /** On the example, A's certificate as written is {A, B}: it names A
      itself and leaves out C. */
  lemma RawIndexCertificateExample()
    ensures CertificateOfElimination(ExampleDivision(), "A", ExampleSolver) == Ok(Some({"A", "B"}))
  {
    ExampleLookups();
    ExampleCutByIndex();
    CertificateFromCut(ExampleDivision(), "A", ExampleSolver);
  }

  lemma ExampleCutByIndex()
    ensures CutTeamsByIndex(ExampleDivision(), ExampleFlow) == {"A", "B"}
  {
    ExampleNames();
  }

  /** The names of the non-candidate teams whose team vertex is on the
      source side of the cut: team i's name is selected iff i is not the
      candidate and vertex `numGames + i + 1` is on the source side. */
  function CutTeamsByVertex(d: Division, id: nat, mf: MaxFlow): (r: set<string>)
    ensures r <= TeamNames(d)
    ensures forall i :: 0 <= i < |d.teams| && TeamId(d.teams, d.teams[i].name) == Some(i) ==>
              (d.teams[i].name in r <==> i != id && mf.inCut(TeamVertex(|d.teams|, i)))
    ensures DistinctNames(d.teams) ==>
              forall i :: 0 <= i < |d.teams| ==> (d.teams[i].name in r <==> i != id && mf.inCut(TeamVertex(|d.teams|, i)))
  {
    OwnNamesMapHome(d.teams);
    set t | t in TeamNames(d) && TeamId(d.teams, t).Some? && TeamId(d.teams, t).value != id
            && mf.inCut(TeamVertex(|d.teams|, TeamId(d.teams, t).value))
  }

  /** The certificate with the team vertex passed to `inCut`: every member
      is a known team other than the candidate. */
  function CertificateByTeamVertex(d: Division, name: string, solve: Network -> MaxFlow)
    : (r: Result<Option<set<string>>>)
    requires WellFormed(d)
    ensures r.Err? <==> name !in TeamNames(d) || LeaderName(d).None?
    ensures name !in TeamNames(d) ==> r == Err(IllegalArgument)
    ensures name in TeamNames(d) && LeaderName(d).None? ==> r == Err(NullPointer)
    ensures r.Ok? && r.value.Some? ==> r.value.value != {} && r.value.value <= TeamNames(d)
    ensures r.Ok? && r.value.Some? ==> name !in r.value.value
    ensures r.Ok? && r.value.Some? ==> IsEliminated(d, name, solve) == Ok(true)
    ensures IsEliminated(d, name, solve) == Ok(false) ==> r == Ok(None)
  {
    TeamIdDefinedOnNames(d, name);
    match TeamId(d.teams, name)
    case None => Err(IllegalArgument)
    case Some(id) =>
      match IsTriviallyEliminated(d, id)
      case Err(f) => Err(f)
      case Ok(trivial) =>
        if trivial then
          TeamIdDefinedOnNames(d, LeaderName(d).value);
          Ok(Some({LeaderName(d).value}))
        else
          var net := BuildNetwork(d, id);
          var mf := solve(net);
          var found := if SourceUnsaturated(net, mf) then CutTeamsByVertex(d, id, mf) else {};
          Ok(if found == {} then None else Some(found))
  }

  /** Off the trivial path, the corrected certificate is the set of
      non-candidate names whose team vertex is on the source side, or null
      when every source edge is saturated or no team is selected. */
  lemma CertificateByTeamVertexFromCut(d: Division, name: string, solve: Network -> MaxFlow)
    requires WellFormed(d) && TeamId(d.teams, name).Some?
    requires IsTriviallyEliminated(d, TeamId(d.teams, name).value) == Ok(false)
    ensures var id := TeamId(d.teams, name).value;
      var net := BuildNetwork(d, id);
      var found := CutTeamsByVertex(d, id, solve(net));
      && (!SourceUnsaturated(net, solve(net)) ==> CertificateByTeamVertex(d, name, solve) == Ok(None))
      && (SourceUnsaturated(net, solve(net)) && found == {} ==> CertificateByTeamVertex(d, name, solve) == Ok(None))
      && (SourceUnsaturated(net, solve(net)) && found != {} ==> CertificateByTeamVertex(d, name, solve) == Ok(Some(found)))
  {
  }

  /** The source side of a minimum cut as FordFulkerson leaves it: the
      vertices reachable from the source through edges with room left, so
      it holds the source and is closed along every unsaturated edge. */
  predicate ResidualClosed(net: Network, mf: MaxFlow) {
    && mf.inCut(0)
    && forall k :: 0 <= k < |net.edges| && mf.inCut(net.edges[k].from) && Unsaturated(net.edges[k].cap, mf.flow(k))
                   ==> mf.inCut(net.edges[k].to)
  }

  /** Off the trivial path, an unsaturated source edge puts its game vertex
      on the source side, and the game vertex's unbounded edges put the
      vertex of a non-candidate team there too. */
  lemma CutReachesTeam(d: Division, id: nat, mf: MaxFlow)
    requires WellFormed(d) && DistinctNames(d.teams) && id < |d.teams|
    requires ResidualClosed(BuildNetwork(d, id), mf)
    requires SourceUnsaturated(BuildNetwork(d, id), mf)
    ensures CutTeamsByVertex(d, id, mf) != {}
  {
    var n := |d.teams|;
    var es := BuildNetwork(d, id).edges;
    var ps := GamePairs(n, id, 0);
    var k :| 0 <= k < |es| && Incident(es[k], 0) && Unsaturated(es[k].cap, mf.flow(k));
    assert es[k].from == 0 by {
      NetworkEdgesWellPlaced(d, id);
      assert es[k] in es;
    }
    assert mf.inCut(es[k].to);
    var m: nat :| m < |ps| && es[k].to == m + 1 by {
      EdgesFromMembers(es, 0);
      assert es[k] in es;
      var src := EdgesFrom(es, 0);
      var m :| 0 <= m < |src| && src[m] == es[k];
      NetworkSourceEdges(d, id);
      assert es[k].to == m + 1;
    }
    var t := ps[m].0;
    var e := Edge(m + 1, TeamVertex(n, t), Infinite);
    assert e in es by {
      NetworkGameEdges(d, id);
      assert EdgesFrom(es, m + 1)[0] == e;
      EdgesFromMembers(es, m + 1);
    }
    var k' :| 0 <= k' < |es| && es[k'] == e;
    assert mf.inCut(TeamVertex(n, t));
    assert d.teams[t].name in CutTeamsByVertex(d, id, mf);
  }

  /** The corrected certificate is complete: when the solver's cut is the
      residual source side, every eliminated team gets a certificate. With
      the contract above, a certificate exists exactly when the team is
      eliminated. */
  lemma CertificateByTeamVertexComplete(d: Division, name: string, solve: Network -> MaxFlow)
    requires WellFormed(d) && DistinctNames(d.teams) && TeamId(d.teams, name).Some?
    requires ResidualClosed(BuildNetwork(d, TeamId(d.teams, name).value),
                            solve(BuildNetwork(d, TeamId(d.teams, name).value)))
    ensures IsEliminated(d, name, solve) == Ok(true) <==>
              CertificateByTeamVertex(d, name, solve).Ok? && CertificateByTeamVertex(d, name, solve).value.Some?
  {
    var id := TeamId(d.teams, name).value;
    var net := BuildNetwork(d, id);
    if IsEliminated(d, name, solve) == Ok(true) && IsTriviallyEliminated(d, id) == Ok(false) {
      CutReachesTeam(d, id, solve(net));
    }
  }

  lemma ExampleCutByTeamVertex()
    ensures CutTeamsByVertex(ExampleDivision(), 0, ExampleFlow) == {"B", "C"}
  {
    ExampleNames();
    assert NumGames(3) == 3;
    assert TeamVertex(3, 1) == 5 && TeamVertex(3, 2) == 6;
  }

  /** On the example the corrected certificate is {B, C}, and it meets the
      classical test: B and C have 2 + 2 wins and 3 games among themselves,
      more than two teams can hold below A's best total of 3. */
  lemma TeamVertexCertificateExample()
    ensures CertificateByTeamVertex(ExampleDivision(), "A", ExampleSolver) == Ok(Some({"B", "C"}))
    ensures var d := ExampleDivision();
      d.teams[1].wins + d.teams[2].wins + d.games[1][2] > 2 * (d.teams[0].wins + d.teams[0].remaining)
  {
    ExampleLookups();
    ExampleCutByTeamVertex();
    CertificateByTeamVertexFromCut(ExampleDivision(), "A", ExampleSolver);
  }
}
