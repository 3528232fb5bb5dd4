/**
 * The volunteers' team dashboard: its counters and its search, both over
 * the team list of GET /api/teams.
 */
module TeamDashboard {
  import opened Wrappers
  import opened JsBuiltins
  import opened TeamRegistry
  import opened ClientView
  import opened AdminDashboard
  import opened TeamList

  /** `Array.isArray(res.data.data) ? res.data.data : []`. */
  function Received(data: ListInput<ClientTeam>): seq<ClientTeam> {
    if data.List? then data.items else []
  }

  datatype TeamStats = TeamStats(total: nat, valid: nat, invalid: int, lunchValid: nat, dinnerValid: nat, snacksValid: nat)

  /** `team.status !== s`. */
  function LacksStatus(s: string): ClientTeam -> bool {
    (t: ClientTeam) => t.status != Some(s)
  }

  /**
   * The dashboard's counters: valid counts the teams whose status is
   * 'valid', invalid counts every other team, and the meal counters are
   * always 0.
   */
  function Counters(data: ListInput<ClientTeam>): (s: TeamStats)
    ensures s.total == |Received(data)| && 0 <= s.valid <= s.total && 0 <= s.invalid <= s.total
    ensures s.valid == Count(Received(data), HasStatus("valid"))
    ensures s.invalid == Count(Received(data), LacksStatus("valid"))
    ensures s.valid + s.invalid == s.total
    ensures s.lunchValid == 0 && s.dinnerValid == 0 && s.snacksValid == 0
  {
    var teams := Received(data);
    var valid := Count(teams, HasStatus("valid"));
    CountSplit(teams, HasStatus("valid"), LacksStatus("valid"));
    TeamStats(|teams|, valid, |teams| - valid, 0, 0, 0)
  }

  /** A response that is not a list shows as no teams at all. */
  lemma NonListIsEmpty(data: ListInput<ClientTeam>)
    requires !data.List?
    ensures Counters(data) == TeamStats(0, 0, 0, 0, 0, 0)
  {
  }

  /**
   * When every status is 'valid' or 'invalid' the counters agree with the
   * admin dashboard's valid and invalid teams.
   */
  lemma CountersAgreeWithAdminDashboard(teams: seq<ClientTeam>)
    requires forall i :: 0 <= i < |teams| ==> teams[i].status == Some("valid") || teams[i].status == Some("invalid")
    ensures Counters(List(teams)).valid == NewStats(teams).validTeams
    ensures Counters(List(teams)).invalid == NewStats(teams).invalidTeams
  {
    CountComplement(teams, HasStatus("valid"), HasStatus("invalid"));
  }

  /** A team without a status is invalid here but counted in neither figure on the admin dashboard. */
  lemma MissingStatusCountsAsInvalid(t: ClientTeam)
    requires t.status.None?
    ensures Counters(List([t])).invalid == 1 && NewStats([t]).invalidTeams == 0 && NewStats([t]).validTeams == 0
  {
    assert Filter([t], HasStatus("valid")) == [];
    assert Filter([t], HasStatus("invalid")) == [];
  }

  /** This page's search test: name, then leader; it throws on a team without them. */
  function DashboardSearchTest(t: ClientTeam, query: string): Option<bool> {
    if t.name.None? then None
    else if MatchesQuery(t.name.value, query) then Some(true)
    else if t.leader.None? then None
    else Some(MatchesQuery(t.leader.value, query))
  }

  function DashboardTest(query: string): ClientTeam -> Option<bool> {
    (t: ClientTeam) => DashboardSearchTest(t, query)
  }

  /** filteredTeams: a team is kept exactly when its name or leader contains the query, ignoring case. */
  function FilteredDashboardTeams(teams: seq<ClientTeam>, query: string): (r: Option<seq<ClientTeam>>)
    ensures r.Some? <==> forall i :: 0 <= i < |teams| ==>
      teams[i].name.Some? && (MatchesQuery(teams[i].name.value, query) || teams[i].leader.Some?)
    ensures r.Some? ==> forall x :: x in r.value ==> x in teams
    ensures r.Some? ==> forall i :: 0 <= i < |teams| ==> (teams[i] in r.value <==>
      MatchesQuery(teams[i].name.value, query) || MatchesQuery(teams[i].leader.value, query))
    ensures r.Some? ==> r.value == Filter(teams, Accepted(DashboardTest(query)))
  {
    FilterOrThrow(teams, DashboardTest(query))
  }

  /** Whatever this page's search keeps, the admin list's search keeps too. */
  lemma DashboardSearchIsNarrower(teams: seq<ClientTeam>, query: string)
    requires forall i :: 0 <= i < |teams| ==> teams[i].name.Some? && teams[i].leader.Some? && teams[i].teamId.Some?
    ensures FilteredDashboardTeams(teams, query).Some? && FilteredTeams(teams, query).Some?
    ensures forall x :: x in FilteredDashboardTeams(teams, query).value ==> x in FilteredTeams(teams, query).value
  {
    var r := FilteredDashboardTeams(teams, query).value;
    forall x | x in r ensures x in FilteredTeams(teams, query).value {
      var i :| 0 <= i < |teams| && teams[i] == x;
    }
  }

  /** A search by teamId finds a team in the admin list but not on this page. */
  lemma TeamIdOnlyInAdminList()
    ensures var t := ClientTeam("a", Some("2501"), Some("A"), Some("B"), Some("invalid"), Some([]), None, None);
      && ListSearchTest(t, "2501") == Some(true)
      && DashboardSearchTest(t, "2501") == Some(false)
  {
    PieceMatches("2501", 0, 4);
    assert "2501"[0..4] == "2501";
    assert |ToLower("A")| == 1 && |ToLower("B")| == 1 && |ToLower("2501")| == 4;
  }
}
