/**
 * The Team document of the registry: its fields, the enum, default,
 * required, trim and min rules the schema applies when a document is saved,
 * and its two unique indexes.
 */
module TeamSchema {
  import opened Wrappers
  import opened JsBuiltins

  /** The two-valued enum ['valid', 'invalid'] used by status, allotment and every meal. */
  datatype Flag = Valid | Invalid

  function FlagName(f: Flag): string {
    match f
    case Valid => "valid"
    case Invalid => "invalid"
  }

  /** The enum validator: only the two names are accepted. */
  function ParseFlag(s: string): (r: Option<Flag>)
    ensures r.Some? <==> s == "valid" || s == "invalid"
    ensures r.Some? ==> FlagName(r.value) == s
  {
    if s == "valid" then Some(Valid) else if s == "invalid" then Some(Invalid) else None
  }

  lemma ParseFlagName(f: Flag)
    ensures ParseFlag(FlagName(f)) == Some(f)
  {
  }

  /** A meal toggle: 'invalid' becomes 'valid' and anything else becomes 'invalid'. */
  function Flip(f: Flag): (g: Flag)
    ensures g != f
  {
    if f == Invalid then Valid else Invalid
  }

  datatype Member = Member(name: string, collegeName: string, isFromIIITS: bool)

  datatype Meal = Lunch | Dinner | Snacks

  datatype FoodStatus = FoodStatus(lunch: Flag, dinner: Flag, snacks: Flag) {
    function Get(m: Meal): Flag {
      match m
      case Lunch => lunch
      case Dinner => dinner
      case Snacks => snacks
    }
    function Set(m: Meal, f: Flag): (r: FoodStatus)
      ensures r.Get(m) == f
      ensures forall other :: other != m ==> r.Get(other) == Get(other)
    {
      match m
      case Lunch => this.(lunch := f)
      case Dinner => this.(dinner := f)
      case Snacks => this.(snacks := f)
    }
  }

  /** Every meal at its schema default. */
  const NoMealsServed := FoodStatus(Invalid, Invalid, Invalid)

  /** The property name of each meal, as used by scan actions and foodType. */
  function MealName(m: Meal): string {
    match m
    case Lunch => "lunch"
    case Dinner => "dinner"
    case Snacks => "snacks"
  }

  /** `['lunch', 'dinner', 'snacks'].includes(s)`, answering which meal. */
  function ParseMeal(s: string): (r: Option<Meal>)
    ensures r.Some? <==> s == "lunch" || s == "dinner" || s == "snacks"
    ensures r.Some? ==> MealName(r.value) == s
  {
    if s == "lunch" then Some(Lunch)
    else if s == "dinner" then Some(Dinner)
    else if s == "snacks" then Some(Snacks)
    else None
  }

  /** A stored team document. `createdAt` is a clock reading in milliseconds. */
  datatype Team = Team(
    teamId: Option<string>,
    name: string,
    leader: string,
    lunchcount: nat,
    dinnercount: nat,
    snackscount: nat,
    members: seq<Member>,
    status: Flag,
    allotment: Flag,
    foodStatus: Option<FoodStatus>,
    qrData: string,
    createdAt: nat)

  /** A member as it arrives in a JSON body: every field may be missing. */
  datatype MemberJson = MemberJson(name: Option<string>, collegeName: Option<string>, isFromIIITS: Option<bool>)

  /** A foodStatus object as it arrives in a JSON body. */
  datatype FoodJson = FoodJson(lunch: Option<string>, dinner: Option<string>, snacks: Option<string>)

  /** The values a document holds before the schema casts and validates them on save. */
  datatype TeamDraft = TeamDraft(
    teamId: Option<string>,
    name: Option<string>,
    leader: Option<string>,
    lunchcount: Option<int>,
    dinnercount: Option<int>,
    snackscount: Option<int>,
    members: seq<MemberJson>,
    status: Option<string>,
    allotment: Option<string>,
    foodStatus: Option<FoodJson>,
    qrData: Option<string>,
    createdAt: nat)

  /** A String path with `required` and `trim`: present, and not empty once trimmed. */
  function RequiredTrimmed(v: Option<string>): (r: Option<string>)
    ensures r.Some? <==> v.Some? && Trim(v.value) != ""
    ensures r.Some? ==> r.value == Trim(v.value) && IsTrimmed(r.value)
  {
    if v.Some? && Trim(v.value) != "" then Some(Trim(v.value)) else None
  }

  /** An enum path with default 'invalid'. */
  function CastFlag(v: Option<string>): (r: Option<Flag>)
    ensures v.None? ==> r == Some(Invalid)
    ensures v.Some? ==> r == ParseFlag(v.value)
  {
    if v.None? then Some(Invalid) else ParseFlag(v.value)
  }

  /** A Number path with default 0 and min 0. */
  function CastCount(v: Option<int>): (r: Option<nat>)
    ensures r.Some? <==> v.None? || v.value >= 0
    ensures r.Some? ==> r.value == v.GetOr(0)
  {
    if v.None? then Some(0) else if v.value < 0 then None else Some(v.value)
  }

  function CastMember(m: MemberJson): Option<Member> {
    var name := RequiredTrimmed(m.name);
    var college := RequiredTrimmed(m.collegeName);
    if name.Some? && college.Some? then Some(Member(name.value, college.value, m.isFromIIITS.GetOr(false)))
    else None
  }

  /** Casting the members array: it fails when any member fails. */
  function CastMembers(ms: seq<MemberJson>): (r: Option<seq<Member>>)
    ensures r.Some? <==> forall i :: 0 <= i < |ms| ==> CastMember(ms[i]).Some?
    ensures r.Some? ==> |r.value| == |ms| && forall i :: 0 <= i < |ms| ==> Some(r.value[i]) == CastMember(ms[i])
  {
    if forall i :: 0 <= i < |ms| ==> CastMember(ms[i]).Some? then
      Some(seq(|ms|, i requires 0 <= i < |ms| => CastMember(ms[i]).value))
    else None
  }

  function CastFood(f: FoodJson): Option<FoodStatus> {
    var l := CastFlag(f.lunch);
    var d := CastFlag(f.dinner);
    var s := CastFlag(f.snacks);
    if l.Some? && d.Some? && s.Some? then Some(FoodStatus(l.value, d.value, s.value)) else None
  }

  /** The single nested foodStatus path: absent stays absent, present is cast as a whole. */
  function CastOptionalFood(f: Option<FoodJson>): Option<Option<FoodStatus>> {
    if f.None? then Some(None)
    else
      var g := CastFood(f.value);
      if g.Some? then Some(Some(g.value)) else None
  }

  /** Member fields are required and trimmed. */
  predicate WellFormedMember(m: Member) {
    m.name != "" && IsTrimmed(m.name) && m.collegeName != "" && IsTrimmed(m.collegeName)
  }

  /** Everything the schema guarantees of a saved document. */
  predicate WellFormed(t: Team) {
    && t.name != "" && IsTrimmed(t.name)
    && t.leader != "" && IsTrimmed(t.leader)
    && (forall i :: 0 <= i < |t.members| ==> WellFormedMember(t.members[i]))
    && t.qrData != ""
  }

  /** The schema's casting and validation at save: a ValidationError is None. */
  function Validate(d: TeamDraft): (r: Option<Team>)
    ensures r.Some? ==> WellFormed(r.value)
    ensures r.Some? ==> r.value.teamId == d.teamId && r.value.createdAt == d.createdAt
  {
    var name := RequiredTrimmed(d.name);
    var leader := RequiredTrimmed(d.leader);
    var lc := CastCount(d.lunchcount);
    var dc := CastCount(d.dinnercount);
    var sc := CastCount(d.snackscount);
    var members := CastMembers(d.members);
    var status := CastFlag(d.status);
    var allotment := CastFlag(d.allotment);
    var food := CastOptionalFood(d.foodStatus);
    if && name.Some? && leader.Some? && lc.Some? && dc.Some? && sc.Some? && members.Some?
       && status.Some? && allotment.Some? && food.Some? && d.qrData.Some? && d.qrData.value != ""
    then
      assert forall i :: 0 <= i < |members.value| ==> WellFormedMember(members.value[i]) by {
        forall i | 0 <= i < |members.value| ensures WellFormedMember(members.value[i]) {
          assert Some(members.value[i]) == CastMember(d.members[i]);
        }
      }
      Some(Team(d.teamId, name.value, leader.value, lc.value, dc.value, sc.value, members.value,
                status.value, allotment.value, food.value, d.qrData.value, d.createdAt))
    else None
  }

  /** What a successful validation stores: each path's cast value. */
  lemma ValidateFields(d: TeamDraft)
    requires Validate(d).Some?
    ensures var t := Validate(d).value;
      && Some(t.name) == RequiredTrimmed(d.name) && Some(t.leader) == RequiredTrimmed(d.leader)
      && Some(t.lunchcount) == CastCount(d.lunchcount) && Some(t.dinnercount) == CastCount(d.dinnercount)
      && Some(t.snackscount) == CastCount(d.snackscount)
      && Some(t.members) == CastMembers(d.members)
      && Some(t.status) == CastFlag(d.status) && Some(t.allotment) == CastFlag(d.allotment)
      && Some(t.foodStatus) == CastOptionalFood(d.foodStatus) && Some(t.qrData) == d.qrData
  {
  }

  function MemberToJson(m: Member): MemberJson {
    MemberJson(Some(m.name), Some(m.collegeName), Some(m.isFromIIITS))
  }

  function FoodToJson(f: FoodStatus): FoodJson {
    FoodJson(Some(FlagName(f.lunch)), Some(FlagName(f.dinner)), Some(FlagName(f.snacks)))
  }

  /** The values of a loaded document, as the schema sees them again when it is saved. */
  function ToDraft(t: Team): TeamDraft {
    TeamDraft(t.teamId, Some(t.name), Some(t.leader), Some(t.lunchcount), Some(t.dinnercount),
              Some(t.snackscount), MembersToJson(t.members),
              Some(FlagName(t.status)), Some(FlagName(t.allotment)),
              if t.foodStatus.Some? then Some(FoodToJson(t.foodStatus.value)) else None,
              Some(t.qrData), t.createdAt)
  }

  function MembersToJson(ms: seq<Member>): seq<MemberJson> {
    seq(|ms|, i requires 0 <= i < |ms| => MemberToJson(ms[i]))
  }

  lemma CastMembersResave(ms: seq<Member>)
    requires forall i :: 0 <= i < |ms| ==> WellFormedMember(ms[i])
    ensures CastMembers(MembersToJson(ms)) == Some(ms)
  {
    var js := MembersToJson(ms);
    forall i | 0 <= i < |ms| ensures CastMember(js[i]) == Some(ms[i]) {
      TrimOfTrimmed(ms[i].name);
      TrimOfTrimmed(ms[i].collegeName);
    }
    var r := CastMembers(js);
    assert r.Some?;
    forall i | 0 <= i < |ms| ensures r.value[i] == ms[i] {
      assert Some(r.value[i]) == CastMember(js[i]);
    }
    assert r.value == ms;
  }

  /** Saving a well-formed document again changes nothing and raises no ValidationError. */
  lemma ValidateResave(t: Team)
    requires WellFormed(t)
    ensures Validate(ToDraft(t)) == Some(t)
  {
    var d := ToDraft(t);
    TrimOfTrimmed(t.name);
    TrimOfTrimmed(t.leader);
    assert RequiredTrimmed(d.name) == Some(t.name);
    assert RequiredTrimmed(d.leader) == Some(t.leader);
    CastMembersResave(t.members);
    if t.foodStatus.Some? {
      var f := t.foodStatus.value;
      ParseFlagName(f.lunch);
      ParseFlagName(f.dinner);
      ParseFlagName(f.snacks);
      assert CastFood(FoodToJson(f)) == Some(f);
    }
    assert CastOptionalFood(d.foodStatus) == Some(t.foodStatus);
    ParseFlagName(t.status);
    ParseFlagName(t.allotment);
    assert CastFlag(d.status) == Some(t.status);
    assert CastFlag(d.allotment) == Some(t.allotment);
  }

  /** The unique indexes on teamId and on name: no two documents share either. */
  ghost predicate UniqueKeys(teams: seq<Team>) {
    forall i, j :: 0 <= i < j < |teams| ==> teams[i].teamId != teams[j].teamId && teams[i].name != teams[j].name
  }

  /** A duplicate-key error (code 11000): `t` shares its teamId or its name with a stored document. */
  predicate Clashes(teams: seq<Team>, t: Team) {
    exists i | 0 <= i < |teams| :: teams[i].teamId == t.teamId || teams[i].name == t.name
  }

  /** Adding a document that raises no duplicate-key error keeps both indexes unique. */
  lemma UniqueAfterInsert(teams: seq<Team>, t: Team)
    requires UniqueKeys(teams) && !Clashes(teams, t)
    ensures UniqueKeys(teams + [t])
  {
    var s := teams + [t];
    forall i, j | 0 <= i < j < |s| ensures s[i].teamId != s[j].teamId && s[i].name != s[j].name {
      if j == |teams| {
        assert s[j] == t && s[i] == teams[i];
      }
    }
  }
}
