/**
 * The admin dashboard's figures, computed in the browser from the team list
 * of GET /api/teams rather than from the server's statistics endpoints.
 */
module AdminDashboard {
  import opened Wrappers
  import opened JsBuiltins
  import opened TeamSchema
  import opened TeamRegistry
  import opened ClientView
  import opened AdminController

  datatype MealCount = MealCount(total: nat, valid: nat)

  datatype DashboardStats = DashboardStats(
    totalTeams: nat,
    validTeams: nat,
    invalidTeams: nat,
    totalParticipants: nat,
    lunch: MealCount,
    dinner: MealCount,
    snacks: MealCount)

  /** `team.status === s`. */
  function HasStatus(s: string): ClientTeam -> bool {
    (t: ClientTeam) => t.status == Some(s)
  }

  /** `team.foodStatus?.[meal] === 'valid'`. */
  function MealValid(m: Meal): ClientTeam -> bool {
    (t: ClientTeam) => t.foodStatus.Some? && GetMealJson(t.foodStatus.value, m) == Some("valid")
  }

  /** `team.members?.length || 0`. */
  function MemberCount(t: ClientTeam): nat {
    if t.members.Some? then |t.members.value| else 0
  }

  /** The `reduce((sum, team) => sum + (team.members?.length || 0), acc)` fold. */
  function ParticipantsFrom(acc: nat, teams: seq<ClientTeam>): nat
    decreases |teams|
  {
    if teams == [] then acc else ParticipantsFrom(acc + MemberCount(teams[0]), teams[1..])
  }

  /**
   * newStats: every meal's total is the number of teams; no team is counted
   * both valid and invalid, and no meal has more valid teams than teams.
   */
  function NewStats(teams: seq<ClientTeam>): (s: DashboardStats)
    ensures s.totalTeams == |teams|
    ensures s.lunch.total == |teams| && s.dinner.total == |teams| && s.snacks.total == |teams|
    ensures s.validTeams + s.invalidTeams <= s.totalTeams
    ensures s.lunch.valid <= s.lunch.total && s.dinner.valid <= s.dinner.total && s.snacks.valid <= s.snacks.total
  {
    CountDisjoint(teams, HasStatus("valid"), HasStatus("invalid"));
    DashboardStats(|teams|, Count(teams, HasStatus("valid")), Count(teams, HasStatus("invalid")),
                   ParticipantsFrom(0, teams),
                   MealCount(|teams|, Count(teams, MealValid(Lunch))),
                   MealCount(|teams|, Count(teams, MealValid(Dinner))),
                   MealCount(|teams|, Count(teams, MealValid(Snacks))))
  }

  /** The browser's fold over team objects adds the same member counts as the server's sum. */
  lemma {:induction false} ParticipantsAgree(acc: nat, cs: seq<ClientTeam>, ts: seq<Team>)
    requires |cs| == |ts| && forall i :: 0 <= i < |cs| ==> MemberCount(cs[i]) == |ts[i].members|
    ensures ParticipantsFrom(acc, cs) == acc + Participants(ts)
    decreases |cs|
  {
    if cs != [] {
      assert forall i :: 0 <= i < |cs| - 1 ==> cs[1..][i] == cs[i + 1] && ts[1..][i] == ts[i + 1];
      ParticipantsAgree(acc + MemberCount(cs[0]), cs[1..], ts[1..]);
    }
  }

  /** On stored teams the status tests agree with the server's, and every team is valid or invalid. */
  lemma StatusCountsAgree(docs: seq<Doc>)
    ensures var cs := ClientsOf(docs); var ts := Teams(docs);
      && Count(cs, HasStatus("valid")) + Count(cs, HasStatus("invalid")) == |docs|
      && Count(cs, HasStatus("valid")) == Count(ts, StatusIs("valid"))
      && Count(cs, HasStatus("invalid")) == Count(ts, StatusIs("invalid"))
  {
    var cs := ClientsOf(docs);
    var ts := Teams(docs);
    CountComplement(cs, HasStatus("valid"), HasStatus("invalid"));
    CountAgrees(cs, HasStatus("valid"), ts, StatusIs("valid"));
    CountAgrees(cs, HasStatus("invalid"), ts, StatusIs("invalid"));
  }

  /** On stored teams a meal's valid count is the server's served count. */
  lemma MealCountAgrees(docs: seq<Doc>, m: Meal)
    ensures Count(ClientsOf(docs), MealValid(m)) == Count(Teams(docs), ServedMeal(m))
  {
    var cs := ClientsOf(docs);
    var ts := Teams(docs);
    forall i | 0 <= i < |cs| ensures MealValid(m)(cs[i]) == ServedMeal(m)(ts[i]) {
      if ts[i].foodStatus.Some? {
        var f := ts[i].foodStatus.value;
        assert GetMealJson(FoodToJson(f), m) == Some(FlagName(f.Get(m)));
      }
    }
    CountAgrees(cs, MealValid(m), ts, ServedMeal(m));
  }

  /**
   * On the list of stored teams the dashboard agrees with the server:
   * valid and invalid teams add up to all teams, the participants are
   * getAdminStats' totalParticipants, and each meal's valid count is
   * getFoodStats' served count.
   */
  lemma StatsOfStoredTeams(docs: seq<Doc>)
    ensures var s := NewStats(ClientsOf(docs)); var ts := Teams(docs);
      && s.validTeams + s.invalidTeams == s.totalTeams == |docs|
      && s.validTeams == Count(ts, StatusIs("valid")) && s.invalidTeams == Count(ts, StatusIs("invalid"))
      && s.totalParticipants == GetAdminStats(ts).totalParticipants
      && s.lunch.valid == Count(ts, ServedMeal(Lunch))
      && s.dinner.valid == Count(ts, ServedMeal(Dinner))
      && s.snacks.valid == Count(ts, ServedMeal(Snacks))
  {
    StatusCountsAgree(docs);
    ParticipantsAgree(0, ClientsOf(docs), Teams(docs));
    MealCountAgrees(docs, Lunch);
    MealCountAgrees(docs, Dinner);
    MealCountAgrees(docs, Snacks);
  }
}
