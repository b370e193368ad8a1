/** The division read by the BaseballElimination constructor: teams with
    their standings, the remaining-games matrix, the name-to-index table and
    the leader chosen while reading. */
module League {
  import opened Base

  datatype Team = Team(name: string, wins: nat, losses: nat, remaining: nat)

  /** `games[i][j]` is the number of games left between team i and team j. */
  datatype Division = Division(teams: seq<Team>, games: seq<seq<nat>>)

  /** The constructor allocates an n-by-n matrix, so every row has n entries. */
  predicate WellFormed(d: Division) {
    && |d.games| == |d.teams|
    && forall i :: 0 <= i < |d.games| ==> |d.games[i]| == |d.teams|
  }

  /** Team names are unique in a well-formed input file. */
  predicate DistinctNames(teams: seq<Team>) {
    forall i, j :: 0 <= i < j < |teams| ==> teams[i].name != teams[j].name
  }

  /** The key set of `teamToId`. */
  function TeamNames(d: Division): set<string> {
    set t | t in d.teams :: t.name
  }

  /** `teamToId.get(name)`. The constructor calls `put` once per team in file
      order, so a repeated name ends up mapped to its last occurrence. */
  function TeamId(teams: seq<Team>, name: string): (r: Option<nat>)
    ensures r.None? <==> forall j :: 0 <= j < |teams| ==> teams[j].name != name
    ensures r.Some? ==> r.value < |teams| && teams[r.value].name == name
    ensures r.Some? ==> forall j :: r.value < j < |teams| ==> teams[j].name != name
  {
    if |teams| == 0 then None
    else if teams[|teams| - 1].name == name then Some(|teams| - 1)
    else TeamId(teams[..|teams| - 1], name)
  }

  /** With unique names, looking up a team's own name finds that team. */
  lemma {:induction false} TeamIdOfOwnName(teams: seq<Team>, i: nat)
    requires DistinctNames(teams)
    requires i < |teams|
    ensures TeamId(teams, teams[i].name) == Some(i)
  {
  }

  /** The name lookup succeeds exactly for the names in the key set. */
  lemma TeamIdDefinedOnNames(d: Division, name: string)
    ensures TeamId(d.teams, name).Some? <==> name in TeamNames(d)
  {
    if name in TeamNames(d) {
      var t :| t in d.teams && t.name == name;
      var k :| 0 <= k < |d.teams| && d.teams[k] == t;
      assert d.teams[k].name == name;
    }
  }

  /** The index of the leader after the constructor has read `teams`:
      `maxWins` starts at 0 and a team replaces the leader only when its wins
      strictly exceed `maxWins`. */
  function LeaderIndex(teams: seq<Team>): (r: Option<nat>)
    ensures r.None? <==> forall j :: 0 <= j < |teams| ==> teams[j].wins == 0
    ensures r.Some? ==> r.value < |teams| && teams[r.value].wins > 0
    ensures r.Some? ==> forall j :: 0 <= j < |teams| ==> teams[j].wins <= teams[r.value].wins
    ensures r.Some? ==> forall j :: 0 <= j < r.value ==> teams[j].wins < teams[r.value].wins
  {
    if |teams| == 0 then None
    else
      var before := LeaderIndex(teams[..|teams| - 1]);
      var maxWins := if before.Some? then teams[before.value].wins else 0;
      if teams[|teams| - 1].wins > maxWins then Some(|teams| - 1) else before
  }

  /** The `leader` field: a team name, or null when no team has won a game. */
  function LeaderName(d: Division): (r: Option<string>)
    ensures r.None? <==> forall j :: 0 <= j < |d.teams| ==> d.teams[j].wins == 0
    ensures r.Some? ==> r.value in TeamNames(d)
  {
    match LeaderIndex(d.teams)
    case None => None
    case Some(k) => Some(d.teams[k].name)
  }

  /** `numberOfTeams()`. */
  function NumberOfTeams(d: Division): nat {
    |d.teams|
  }

  /** With unique names, `numberOfTeams()` is the number of names that
      `teams()` returns. */
  lemma {:induction false} NumberOfTeamsCountsNames(d: Division)
    requires DistinctNames(d.teams)
    ensures NumberOfTeams(d) == |TeamNames(d)|
  {
    NamesOfDistinct(d.teams);
  }

  lemma {:induction false} NamesOfDistinct(teams: seq<Team>)
    requires DistinctNames(teams)
    ensures |set t | t in teams :: t.name| == |teams|
  {
    if |teams| > 0 {
      var m := |teams| - 1;
      var init, last := teams[..m], teams[m];
      NamesOfDistinct(init);
      var before := set t | t in init :: t.name;
      var all := set t | t in teams :: t.name;
      forall x | x in all
        ensures x in before || x == last.name
      {
        var t :| t in teams && t.name == x;
        var k :| 0 <= k < |teams| && teams[k] == t;
        if k < m {
          assert init[k] == t;
        }
      }
      forall x | x in before
        ensures x in all && x != last.name
      {
        var t :| t in init && t.name == x;
        var k :| 0 <= k < m && init[k] == t;
        assert teams[k] == t;
      }
      assert last in teams;
      assert all == before + {last.name};
    }
  }

  /** `wins(team)`: an unknown name throws IllegalArgumentException. */
  function Wins(d: Division, name: string): (r: Result<nat>)
    ensures r.Err? <==> name !in TeamNames(d)
    ensures r.Err? ==> r.failure == IllegalArgument
    ensures r.Ok? ==> exists k :: 0 <= k < |d.teams| && d.teams[k].name == name && d.teams[k].wins == r.value
  {
    TeamIdDefinedOnNames(d, name);
    match TeamId(d.teams, name)
    case None => Err(IllegalArgument)
    case Some(k) => Ok(d.teams[k].wins)
  }

  /** `losses(team)`: an unknown name throws IllegalArgumentException. */
  function Losses(d: Division, name: string): (r: Result<nat>)
    ensures r.Err? <==> name !in TeamNames(d)
    ensures r.Err? ==> r.failure == IllegalArgument
    ensures r.Ok? ==> exists k :: 0 <= k < |d.teams| && d.teams[k].name == name && d.teams[k].losses == r.value
  {
    TeamIdDefinedOnNames(d, name);
    match TeamId(d.teams, name)
    case None => Err(IllegalArgument)
    case Some(k) => Ok(d.teams[k].losses)
  }

  /** `remaining(team)`: an unknown name throws IllegalArgumentException. */
  function Remaining(d: Division, name: string): (r: Result<nat>)
    ensures r.Err? <==> name !in TeamNames(d)
    ensures r.Err? ==> r.failure == IllegalArgument
    ensures r.Ok? ==> exists k :: 0 <= k < |d.teams| && d.teams[k].name == name && d.teams[k].remaining == r.value
  {
    TeamIdDefinedOnNames(d, name);
    match TeamId(d.teams, name)
    case None => Err(IllegalArgument)
    case Some(k) => Ok(d.teams[k].remaining)
  }

  /** `against(team1, team2)`: either name unknown throws IllegalArgumentException. */
  function Against(d: Division, name1: string, name2: string): (r: Result<nat>)
    requires WellFormed(d)
    ensures r.Err? <==> name1 !in TeamNames(d) || name2 !in TeamNames(d)
    ensures r.Err? ==> r.failure == IllegalArgument
    ensures r.Ok? ==> exists i, j :: 0 <= i < |d.teams| && 0 <= j < |d.teams| && d.teams[i].name == name1
                                 && d.teams[j].name == name2 && d.games[i][j] == r.value
  {
    TeamIdDefinedOnNames(d, name1);
    TeamIdDefinedOnNames(d, name2);
    match (TeamId(d.teams, name1), TeamId(d.teams, name2))
    case (Some(i), Some(j)) => Ok(d.games[i][j])
    case _ => Err(IllegalArgument)
  }
}
