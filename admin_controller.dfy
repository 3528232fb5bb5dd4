/**
 * The organisers' server-side counts: getAdminStats (team and participant
 * totals) and getFoodStats (per meal, how many teams have been served).
 * Both only read the teams the store returns; they take that list as a
 * value and change nothing.
 */
module AdminController {
  import opened Wrappers
  import opened JsBuiltins
  import opened TeamSchema
  import opened TeamScan

  datatype AdminStats = AdminStats(totalTeams: nat, approvedTeams: nat, pendingTeams: nat, totalParticipants: nat)

  /** The filter of `countDocuments({ status: s })`: the stored status string is `s`. */
  function StatusIs(s: string): Team -> bool {
    (t: Team) => FlagName(t.status) == s
  }

  /** The `reduce((sum, team) => sum + team.members.length, acc)` fold, left to right. */
  function SumMembersFrom(acc: nat, teams: seq<Team>): nat
    decreases |teams|
  {
    if teams == [] then acc else SumMembersFrom(acc + |teams[0].members|, teams[1..])
  }

  /** The number of participants: the member counts of all teams added up. */
  function Participants(teams: seq<Team>): nat {
    if teams == [] then 0 else |teams[0].members| + Participants(teams[1..])
  }

  /** The fold from `acc` adds the participants to `acc`. */
  lemma {:induction false} FoldIsSum(acc: nat, teams: seq<Team>)
    ensures SumMembersFrom(acc, teams) == acc + Participants(teams)
    decreases |teams|
  {
    if teams != [] {
      FoldIsSum(acc + |teams[0].members|, teams[1..]);
    }
  }

  /** A status string outside the schema's enum matches no stored team. */
  lemma StatusOutsideEnum(teams: seq<Team>, s: string)
    requires s != "valid" && s != "invalid"
    ensures Count(teams, StatusIs(s)) == 0
  {
    CountNone(teams, StatusIs(s));
  }

  /**
   * getAdminStats: 'active' and 'inactive' are not statuses the schema can
   * hold, so approvedTeams and pendingTeams are always 0.
   */
  function GetAdminStats(teams: seq<Team>): (s: AdminStats)
    ensures s.totalTeams == |teams|
    ensures s.approvedTeams == 0 && s.pendingTeams == 0
    ensures s.totalParticipants == Participants(teams)
  {
    StatusOutsideEnum(teams, "active");
    StatusOutsideEnum(teams, "inactive");
    FoldIsSum(0, teams);
    AdminStats(|teams|, Count(teams, StatusIs("active")), Count(teams, StatusIs("inactive")),
               SumMembersFrom(0, teams))
  }

  /** Participants of a store one team larger: that team's members are added. */
  lemma {:induction false} ParticipantsAppend(teams: seq<Team>, t: Team)
    ensures Participants(teams + [t]) == Participants(teams) + |t.members|
  {
    if teams == [] {
      assert teams + [t] == [t];
    } else {
      assert (teams + [t])[1..] == teams[1..] + [t];
      ParticipantsAppend(teams[1..], t);
    }
  }

  datatype MealStat = MealStat(total: nat, served: nat)

  datatype FoodStats = FoodStats(breakfast: MealStat, lunch: MealStat, dinner: MealStat, snacks: MealStat)

  /** `team.foodStatus?.[field]` as a string: undefined without a foodStatus or for a field the schema lacks. */
  function MealField(t: Team, field: string): (r: Option<string>)
    ensures ParseMeal(field).None? ==> r.None?
  {
    match t.foodStatus
    case None => None
    case Some(f) =>
      match ParseMeal(field)
      case None => None
      case Some(m) => Some(FlagName(f.Get(m)))
  }

  /** A team that has been served meal `m`: it has a foodStatus and `m` is 'valid' in it. */
  function ServedMeal(m: Meal): Team -> bool {
    (t: Team) => t.foodStatus.Some? && t.foodStatus.value.Get(m) == Valid
  }

  /** The string test of the loop agrees with the meal's flag. */
  lemma FieldTest(t: Team, m: Meal)
    ensures (MealField(t, MealName(m)) == Some("valid")) == ServedMeal(m)(t)
  {
  }

  /**
   * getFoodStats: one pass over the teams with four counters. Every bucket's
   * total is the number of teams; breakfast is never served because the
   * schema has no breakfast field; the other buckets count the teams served
   * that meal, so served never exceeds total.
   */
  method GetFoodStats(teams: seq<Team>) returns (s: FoodStats)
    ensures s.breakfast == MealStat(|teams|, 0)
    ensures s.lunch == MealStat(|teams|, Count(teams, ServedMeal(Lunch)))
    ensures s.dinner == MealStat(|teams|, Count(teams, ServedMeal(Dinner)))
    ensures s.snacks == MealStat(|teams|, Count(teams, ServedMeal(Snacks)))
    ensures s.lunch.served <= s.lunch.total && s.dinner.served <= s.dinner.total && s.snacks.served <= s.snacks.total
  {
    var breakfast, lunch, dinner, snacks := 0, 0, 0, 0;
    for i := 0 to |teams|
      invariant breakfast == 0
      invariant lunch == Count(teams[..i], ServedMeal(Lunch))
      invariant dinner == Count(teams[..i], ServedMeal(Dinner))
      invariant snacks == Count(teams[..i], ServedMeal(Snacks))
    {
      var t := teams[i];
      assert teams[..i + 1] == teams[..i] + [t];
      FieldTest(t, Lunch);
      FieldTest(t, Dinner);
      FieldTest(t, Snacks);
      CountSnoc(teams[..i], t, ServedMeal(Lunch));
      CountSnoc(teams[..i], t, ServedMeal(Dinner));
      CountSnoc(teams[..i], t, ServedMeal(Snacks));
      if MealField(t, "breakfast") == Some("valid") { breakfast := breakfast + 1; }
      if MealField(t, "lunch") == Some("valid") { lunch := lunch + 1; }
      if MealField(t, "dinner") == Some("valid") { dinner := dinner + 1; }
      if MealField(t, "snacks") == Some("valid") { snacks := snacks + 1; }
    }
    assert teams[..|teams|] == teams;
    var total := |teams|;
    s := FoodStats(MealStat(total, breakfast), MealStat(total, lunch), MealStat(total, dinner), MealStat(total, snacks));
  }

  /**
   * A meal toggle on one stored team moves that meal's served count by
   * exactly one, up when the meal becomes 'valid', and leaves the other
   * meals' counts where they were.
   */
  lemma ToggleMovesOneCount(teams: seq<Team>, k: nat, m: Meal)
    requires k < |teams|
    ensures var after := teams[k := ToggleMeal(teams[k], m)];
      && (ServedMeal(m)(teams[k]) ==> Count(after, ServedMeal(m)) + 1 == Count(teams, ServedMeal(m)))
      && (!ServedMeal(m)(teams[k]) ==> Count(after, ServedMeal(m)) == Count(teams, ServedMeal(m)) + 1)
      && forall other :: other != m ==> Count(after, ServedMeal(other)) == Count(teams, ServedMeal(other))
  {
    var u := ToggleMeal(teams[k], m);
    CountReplace(teams, k, u, ServedMeal(m));
    forall other | other != m
      ensures Count(teams[k := u], ServedMeal(other)) == Count(teams, ServedMeal(other))
    {
      CountReplace(teams, k, u, ServedMeal(other));
    }
  }
}
