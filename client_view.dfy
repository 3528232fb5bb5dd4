/**
 * The teams as the browser sees them: the JSON objects of GET /api/teams,
 * in which any field may in principle be missing, and the serialisation of
 * a stored document into such an object.
 */
module ClientView {
  import opened Wrappers
  import opened JsBuiltins
  import opened TeamSchema
  import opened TeamRegistry

  /** A team object from the API; `id` is the document's `_id`. */
  datatype ClientTeam = ClientTeam(
    id: string,
    teamId: Option<string>,
    name: Option<string>,
    leader: Option<string>,
    status: Option<string>,
    members: Option<seq<MemberJson>>,
    qrData: Option<string>,
    foodStatus: Option<FoodJson>)

  /** The JSON of a stored document: every path with a value is present, an unset teamId or foodStatus is not. */
  function ToClient(d: Doc): (c: ClientTeam)
    ensures c.id == d.id && c.teamId == d.team.teamId
    ensures c.name == Some(d.team.name) && c.leader == Some(d.team.leader)
    ensures c.status == Some(FlagName(d.team.status)) && c.qrData == Some(d.team.qrData)
    ensures c.members.Some? && |c.members.value| == |d.team.members|
    ensures forall i :: 0 <= i < |d.team.members| ==> c.members.value[i] == MemberToJson(d.team.members[i])
    ensures c.foodStatus.Some? <==> d.team.foodStatus.Some?
    ensures c.foodStatus.Some? ==> c.foodStatus.value == FoodToJson(d.team.foodStatus.value)
  {
    var t := d.team;
    ClientTeam(d.id, t.teamId, Some(t.name), Some(t.leader), Some(FlagName(t.status)),
               Some(MembersToJson(t.members)), Some(t.qrData),
               if t.foodStatus.Some? then Some(FoodToJson(t.foodStatus.value)) else None)
  }

  /** `value || fallback` for a string field. */
  function OrElse(value: Option<string>, fallback: string): (r: string)
    ensures Truthy(value) ==> r == value.value
    ensures !Truthy(value) ==> r == fallback
  {
    if Truthy(value) then value.value else fallback
  }

  /** The all-'invalid' foodStatus object the front end writes when a team has none. */
  const NoMealsJson := FoodJson(Some("invalid"), Some("invalid"), Some("invalid"))

  lemma NoMealsJsonIsDefault()
    ensures NoMealsJson == FoodToJson(NoMealsServed)
  {
  }

  /** `foodStatus[meal]` of an API object. */
  function GetMealJson(f: FoodJson, m: Meal): Option<string> {
    match m
    case Lunch => f.lunch
    case Dinner => f.dinner
    case Snacks => f.snacks
  }

  /** The body of GET /api/teams for a list of documents. */
  function ClientsOf(docs: seq<Doc>): (r: seq<ClientTeam>)
    ensures |r| == |docs| && forall i :: 0 <= i < |docs| ==> r[i] == ToClient(docs[i])
  {
    seq(|docs|, i requires 0 <= i < |docs| => ToClient(docs[i]))
  }

  /** `text.toLowerCase().includes(query.toLowerCase())`, with ASCII lowering. */
  predicate MatchesQuery(text: string, query: string) {
    Includes(ToLower(text), ToLower(query))
  }

  /** The empty query matches every text. */
  lemma EmptyQueryMatches(text: string)
    ensures MatchesQuery(text, "")
  {
    IncludesEmpty(ToLower(text));
  }

  /** A text matches every piece of itself. */
  lemma PieceMatches(text: string, i: nat, j: nat)
    requires i <= j <= |text|
    ensures MatchesQuery(text, text[i..j])
  {
    var low := ToLower(text);
    assert ToLower(text[i..j]) == low[i..j];
    assert OccursAt(low, low[i..j], i);
  }

  /** The teams a throwing test keeps: those it answers true for. */
  function Accepted(test: ClientTeam -> Option<bool>): ClientTeam -> bool {
    (t: ClientTeam) => test(t) == Some(true)
  }

  /**
   * `teams.filter(test)` where the test may throw (None) on a team: the
   * whole filter throws when the test throws for any team, and otherwise
   * keeps, in order, the teams the test accepts.
   */
  function FilterOrThrow(teams: seq<ClientTeam>, test: ClientTeam -> Option<bool>): (r: Option<seq<ClientTeam>>)
    ensures r.Some? <==> forall i :: 0 <= i < |teams| ==> test(teams[i]).Some?
    ensures r.Some? ==> |r.value| <= |teams| && forall x :: x in r.value ==> x in teams
    ensures r.Some? ==> forall i :: 0 <= i < |teams| ==> (teams[i] in r.value <==> test(teams[i]) == Some(true))
    ensures r.Some? ==> r.value == Filter(teams, Accepted(test))
  {
    if teams == [] then Some([])
    else match test(teams[0])
      case None => None
      case Some(keep) =>
        match FilterOrThrow(teams[1..], test)
        case None => None
        case Some(rest) =>
          assert forall i :: 1 <= i < |teams| ==> teams[i] == teams[1..][i - 1];
          Some((if keep then [teams[0]] else []) + rest)
  }

  /** A test that accepts every team keeps the list as it is. */
  lemma {:induction false} FilterOrThrowAll(teams: seq<ClientTeam>, test: ClientTeam -> Option<bool>)
    requires forall i :: 0 <= i < |teams| ==> test(teams[i]) == Some(true)
    ensures FilterOrThrow(teams, test) == Some(teams)
  {
    if teams != [] {
      assert forall i :: 0 <= i < |teams| - 1 ==> teams[1..][i] == teams[i + 1];
      FilterOrThrowAll(teams[1..], test);
      assert [teams[0]] + teams[1..] == teams;
    }
  }
}
