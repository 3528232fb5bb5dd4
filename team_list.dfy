/**
 * The admin team list: the edit dialog's working copy of a team, the
 * handlers that change it, the request it sends on save, and the search
 * over the list.
 */
module TeamList {
  import opened Wrappers
  import opened JsBuiltins
  import opened TeamSchema
  import opened TeamRegistry
  import opened ClientView

  datatype EditMember = EditMember(name: string, collegeName: string, isFromIIITS: bool)

  const BlankMember := EditMember("", "", false)

  /** The dialog's working copy of a team. */
  datatype EditForm = EditForm(
    id: string,
    teamId: Option<string>,
    name: string,
    leader: string,
    status: string,
    members: seq<EditMember>,
    qrData: Option<string>,
    foodStatus: Option<FoodJson>)

  function CopyMember(m: MemberJson): EditMember {
    EditMember(OrElse(m.name, ""), OrElse(m.collegeName, ""), ToBool(m.isFromIIITS))
  }

  /**
   * handleEditClick's copy: missing strings become '', a missing status
   * 'invalid', a missing foodStatus all-'invalid', and isFromIIITS a boolean.
   */
  function EditCopy(team: ClientTeam): (f: EditForm)
    ensures f.id == team.id && f.teamId == team.teamId && f.qrData == team.qrData
    ensures f.name == (if Truthy(team.name) then team.name.value else "")
    ensures f.leader == (if Truthy(team.leader) then team.leader.value else "")
    ensures f.status == (if Truthy(team.status) then team.status.value else "invalid")
    ensures f.foodStatus == Some(team.foodStatus.GetOr(NoMealsJson))
    ensures |f.members| == |team.members.GetOr([])|
    ensures forall i :: 0 <= i < |f.members| ==> var m := team.members.value[i];
      && f.members[i].name == (if Truthy(m.name) then m.name.value else "")
      && f.members[i].collegeName == (if Truthy(m.collegeName) then m.collegeName.value else "")
      && f.members[i].isFromIIITS == ToBool(m.isFromIIITS)
  {
    var ms := team.members.GetOr([]);
    EditForm(team.id, team.teamId, OrElse(team.name, ""), OrElse(team.leader, ""), OrElse(team.status, "invalid"),
             seq(|ms|, i requires 0 <= i < |ms| => CopyMember(ms[i])), team.qrData,
             Some(team.foodStatus.GetOr(NoMealsJson)))
  }

  /** The copy of a stored team holds its values, with a missing foodStatus as all-'invalid'. */
  lemma EditCopyOfStored(d: Doc)
    requires WellFormed(d.team)
    ensures var t := d.team; var f := EditCopy(ToClient(d));
      && f.teamId == t.teamId && f.name == t.name && f.leader == t.leader && f.status == FlagName(t.status)
      && f.qrData == Some(t.qrData)
      && f.foodStatus == Some(FoodToJson(t.foodStatus.GetOr(NoMealsServed)))
      && |f.members| == |t.members|
      && forall i :: 0 <= i < |t.members| ==>
           f.members[i] == EditMember(t.members[i].name, t.members[i].collegeName, t.members[i].isFromIIITS)
  {
    var t := d.team;
    var f := EditCopy(ToClient(d));
    forall i | 0 <= i < |t.members|
      ensures f.members[i] == EditMember(t.members[i].name, t.members[i].collegeName, t.members[i].isFromIIITS)
    {
      assert WellFormedMember(t.members[i]);
    }
  }

  /** A change event's target: its name, value, whether it is a checkbox, and whether it is checked. */
  datatype InputEvent = InputEvent(name: string, value: string, isCheckbox: bool, checked: bool)

  /** The dialog sends text events for member names and colleges and checkbox events for isFromIIITS. */
  predicate WellTyped(e: InputEvent) {
    && (e.name == "memberIsFromIIITS" ==> e.isCheckbox)
    && (e.name == "memberName" || e.name == "memberCollege" ==> !e.isCheckbox)
  }

  function CheckedFlag(checked: bool): string {
    if checked then "valid" else "invalid"
  }

  /** The meal a food checkbox controls. */
  function FoodField(name: string): Option<Meal> {
    if name == "foodLunch" then Some(Lunch)
    else if name == "foodDinner" then Some(Dinner)
    else if name == "foodSnacks" then Some(Snacks)
    else None
  }

  function SetMealJson(f: FoodJson, m: Meal, v: string): (r: FoodJson)
    ensures GetMealJson(r, m) == Some(v)
    ensures forall other :: other != m ==> GetMealJson(r, other) == GetMealJson(f, other)
  {
    match m
    case Lunch => f.(lunch := Some(v))
    case Dinner => f.(dinner := Some(v))
    case Snacks => f.(snacks := Some(v))
  }

  predicate IsMemberField(name: string) {
    name == "memberName" || name == "memberCollege" || name == "memberIsFromIIITS"
  }

  /** `updatedMember[memberFieldName] = type === 'checkbox' ? checked : value`. */
  function SetMemberField(m: EditMember, e: InputEvent): EditMember
    requires IsMemberField(e.name)
  {
    if e.name == "memberName" then m.(name := e.value)
    else if e.name == "memberCollege" then m.(collegeName := e.value)
    else m.(isFromIIITS := e.checked)
  }

  /** The precondition of a change event on the dialog: well typed, and a member index at most one past the end. */
  predicate EventFits(prev: Option<EditForm>, e: InputEvent, index: Option<nat>) {
    WellTyped(e) && (prev.Some? && index.Some? ==> index.value <= |prev.value.members|)
  }

  /** The state update of handleInputChange. */
  function InputChanged(prev: Option<EditForm>, e: InputEvent, index: Option<nat>): Option<EditForm>
    requires EventFits(prev, e, index)
  {
    match prev
    case None => None
    case Some(f) =>
      if e.name == "teamStatus" then Some(f.(status := CheckedFlag(e.checked)))
      else if e.name == "teamName" then Some(f.(name := e.value))
      else if e.name == "teamLeader" then Some(f.(leader := e.value))
      else if FoodField(e.name).Some? then
        var fs := f.foodStatus.GetOr(NoMealsJson);
        Some(f.(foodStatus := Some(SetMealJson(fs, FoodField(e.name).value, CheckedFlag(e.checked)))))
      else if index.Some? && IsMemberField(e.name) then
        var i := index.value;
        var m := SetMemberField(if i < |f.members| then f.members[i] else BlankMember, e);
        Some(f.(members := if i < |f.members| then f.members[i := m] else f.members + [m]))
      else Some(f)
  }

  /** The status checkbox sets status to 'valid' exactly when checked and changes nothing else. */
  lemma StatusCheckbox(f: EditForm, e: InputEvent, index: Option<nat>)
    requires EventFits(Some(f), e, index) && e.name == "teamStatus"
    ensures var r := InputChanged(Some(f), e, index);
      && r.Some? && r.value == f.(status := r.value.status)
      && (r.value.status == "valid" <==> e.checked)
      && (r.value.status == "invalid" <==> !e.checked)
  {
  }

  /**
   * A food checkbox sets only its own meal, to 'valid' or 'invalid' as
   * checked; the other meals keep their values, all-'invalid' when there was
   * no foodStatus.
   */
  lemma FoodCheckbox(f: EditForm, e: InputEvent, index: Option<nat>)
    requires EventFits(Some(f), e, index) && FoodField(e.name).Some?
    ensures var r := InputChanged(Some(f), e, index); var m := FoodField(e.name).value;
      && r.Some? && r.value == f.(foodStatus := r.value.foodStatus)
      && r.value.foodStatus.Some?
      && GetMealJson(r.value.foodStatus.value, m) == Some(CheckedFlag(e.checked))
      && forall other :: other != m ==>
           GetMealJson(r.value.foodStatus.value, other) == GetMealJson(f.foodStatus.GetOr(NoMealsJson), other)
  {
  }

  /**
   * A member edit at index i changes only the named field of member i;
   * every other member, the member's other fields, and the rest of the form
   * keep their values.
   */
  lemma MemberEdit(f: EditForm, e: InputEvent, i: nat)
    requires EventFits(Some(f), e, Some(i)) && IsMemberField(e.name) && i < |f.members|
    ensures var r := InputChanged(Some(f), e, Some(i));
      && r.Some? && r.value == f.(members := r.value.members)
      && |r.value.members| == |f.members|
      && (forall j :: 0 <= j < |f.members| && j != i ==> r.value.members[j] == f.members[j])
      && var before, after := f.members[i], r.value.members[i];
      && (e.name == "memberName" ==> after == before.(name := e.value))
      && (e.name == "memberCollege" ==> after == before.(collegeName := e.value))
      && (e.name == "memberIsFromIIITS" ==> after == before.(isFromIIITS := e.checked))
  {
  }

  /** An event with a name the dialog does not know, and no member index, changes nothing. */
  lemma UnknownEventIgnored(f: EditForm, e: InputEvent, index: Option<nat>)
    requires EventFits(Some(f), e, index)
    requires e.name != "teamStatus" && e.name != "teamName" && e.name != "teamLeader" && FoodField(e.name).None?
    requires index.None? || !IsMemberField(e.name)
    ensures InputChanged(Some(f), e, index) == Some(f)
  {
  }

  /** A status in the enum stays in the enum whatever the event. */
  lemma StatusStaysInEnum(f: EditForm, e: InputEvent, index: Option<nat>)
    requires EventFits(Some(f), e, index) && ParseFlag(f.status).Some?
    ensures ParseFlag(InputChanged(Some(f), e, index).value.status).Some?
  {
  }

  /** handleAddMember's update: one blank member at the end. */
  function AddMember(prev: Option<EditForm>): (r: Option<EditForm>)
    ensures prev.None? ==> r.None?
    ensures prev.Some? ==> r == Some(prev.value.(members := prev.value.members + [BlankMember]))
  {
    match prev
    case None => None
    case Some(f) => Some(f.(members := f.members + [BlankMember]))
  }

  /** handleRemoveMember's update: `splice(index, 1)` on a copy of the members. */
  function RemoveMember(prev: Option<EditForm>, index: int): (r: Option<EditForm>)
    ensures prev.None? ==> r.None?
    ensures prev.Some? ==> r == Some(prev.value.(members := Splice1(prev.value.members, index)))
  {
    match prev
    case None => None
    case Some(f) => Some(f.(members := Splice1(f.members, index)))
  }

  /** Removing a member drops exactly the one at `index` and keeps the others in order. */
  lemma RemoveExactlyOne(f: EditForm, index: nat)
    requires index < |f.members|
    ensures var r := RemoveMember(Some(f), index).value;
      && r == f.(members := r.members)
      && r.members == f.members[..index] + f.members[index + 1..]
  {
    var r := RemoveMember(Some(f), index).value;
    assert r.members == f.members[..index] + f.members[index + 1..];
  }

  /** Removing the member just added gives back the form. */
  lemma RemoveUndoesAdd(f: EditForm)
    ensures RemoveMember(AddMember(Some(f)), |f.members|) == Some(f)
  {
    var g := AddMember(Some(f)).value;
    var r := RemoveMember(Some(g), |f.members|).value;
    assert r.members == f.members;
  }

  /** Why handleUpdateTeam refuses to send. */
  datatype EditError = NoTeamData | NameRequired | LeaderRequired | MembersIncomplete | AuthRequired

  predicate IncompleteMember(m: EditMember) {
    Trim(m.name) == "" || Trim(m.collegeName) == ""
  }

  /** The body of the PUT: trimmed strings, the form's status, and its foodStatus or all-'invalid'. */
  function UpdatePayload(f: EditForm): UpdateRequest {
    UpdateRequest(Some(Trim(f.name)), Some(Trim(f.leader)), Some(f.status),
                  List(seq(|f.members|, i requires 0 <= i < |f.members| => SentItem(f.members[i]))),
                  Some(f.foodStatus.GetOr(NoMealsJson)))
  }

  /** One member of the PUT body: trimmed name and college, and the flag as it is. */
  function SentItem(m: EditMember): MemberJson {
    MemberJson(Some(Trim(m.name)), Some(Trim(m.collegeName)), Some(m.isFromIIITS))
  }

  /** The URL's id: the form's teamId, which an absent one turns into the text "undefined". */
  function PutTarget(f: EditForm): string {
    if f.teamId.Some? then f.teamId.value else "undefined"
  }

  /** handleUpdateTeam up to the request: the checks in order, then the target and body. */
  function SubmitEdit(form: Option<EditForm>, hasToken: bool): Result<(string, UpdateRequest), EditError> {
    match form
    case None => Err(NoTeamData)
    case Some(f) =>
      if Trim(f.name) == "" then Err(NameRequired)
      else if Trim(f.leader) == "" then Err(LeaderRequired)
      else if exists i | 0 <= i < |f.members| :: IncompleteMember(f.members[i]) then Err(MembersIncomplete)
      else if !hasToken then Err(AuthRequired)
      else Ok((PutTarget(f), UpdatePayload(f)))
  }

  /** What a request being sent says about the form, and the request itself. */
  lemma SubmitEditOk(f: EditForm, hasToken: bool)
    requires SubmitEdit(Some(f), hasToken).Ok?
    ensures hasToken && Trim(f.name) != "" && Trim(f.leader) != ""
    ensures forall i :: 0 <= i < |f.members| ==> !IncompleteMember(f.members[i])
    ensures SubmitEdit(Some(f), hasToken).value == (PutTarget(f), UpdatePayload(f))
  {
  }

  /**
   * A request is sent exactly when the form has a non-blank name and leader
   * and every member a non-blank name and college; its strings are trimmed.
   */
  lemma SubmitEditChecks(form: Option<EditForm>, hasToken: bool)
    ensures var r := SubmitEdit(form, hasToken);
      && (r.Ok? <==> form.Some? && hasToken && Trim(form.value.name) != "" && Trim(form.value.leader) != ""
                     && forall i :: 0 <= i < |form.value.members| ==> !IncompleteMember(form.value.members[i]))
      && (r.Ok? ==> var req := r.value.1;
            && req.name.Some? && IsTrimmed(req.name.value) && req.leader.Some? && IsTrimmed(req.leader.value)
            && req.members.List?
            && forall i :: 0 <= i < |req.members.items| ==>
                 && req.members.items[i].name.Some? && IsTrimmed(req.members.items[i].name.value)
                 && req.members.items[i].collegeName.Some? && IsTrimmed(req.members.items[i].collegeName.value))
  {
    if SubmitEdit(form, hasToken).Ok? {
      var f := form.value;
      SubmitEditOk(f, hasToken);
      var items := UpdatePayload(f).members.items;
      forall i | 0 <= i < |items|
        ensures items[i].name.Some? && IsTrimmed(items[i].name.value)
             && items[i].collegeName.Some? && IsTrimmed(items[i].collegeName.value)
      {
        assert items[i] == SentItem(f.members[i]);
      }
    } else if form.Some? && hasToken && Trim(form.value.name) != "" && Trim(form.value.leader) != "" {
      var f := form.value;
      assert exists i | 0 <= i < |f.members| :: IncompleteMember(f.members[i]);
    }
  }

  /** What the client sends passes every one of updateTeam's own checks, as long as the status is in the enum. */
  lemma SentEditPassesServerChecks(f: EditForm, hasToken: bool)
    requires SubmitEdit(Some(f), hasToken).Ok? && ParseFlag(f.status).Some?
    ensures UpdateCheck(SubmitEdit(Some(f), hasToken).value.1) == None
  {
    SubmitEditOk(f, hasToken);
    SentItemsComplete(f);
    var req := UpdatePayload(f);
    assert Truthy(req.name) && Truthy(req.leader);
  }

  /** Members with a non-blank name and college are sent with both present and non-empty. */
  lemma SentItemsComplete(f: EditForm)
    requires forall i :: 0 <= i < |f.members| ==> !IncompleteMember(f.members[i])
    ensures UpdatePayload(f).members.List? && !HasIncompleteMember(UpdatePayload(f).members.items)
  {
    var items := UpdatePayload(f).members.items;
    forall i | 0 <= i < |items| ensures Truthy(items[i].name) && Truthy(items[i].collegeName) {
      assert items[i] == SentItem(f.members[i]);
      assert !IncompleteMember(f.members[i]);
    }
  }

  /** With unique teamIds, the lookup by a stored team's teamId finds that team. */
  lemma FindStored(docs: seq<Doc>, k: nat)
    requires k < |docs| && docs[k].team.teamId.Some? && UniqueKeys(Teams(docs))
    ensures Find(docs, ByTeamId(docs[k].team.teamId.value)) == Some(k)
  {
    var key := ByTeamId(docs[k].team.teamId.value);
    assert Matches(docs[k], key);
    forall j | 0 <= j < |docs| && j != k ensures !Matches(docs[j], key) {
      assert Teams(docs)[j] == docs[j].team && Teams(docs)[k] == docs[k].team;
      if j < k {
        assert docs[j].team.teamId != docs[k].team.teamId;
      } else {
        assert docs[k].team.teamId != docs[j].team.teamId;
      }
    }
  }

  /** A team that keeps its teamId and name clashes with no other document. */
  lemma SameKeysClashWithNoOther(docs: seq<Doc>, k: nat, u: Team)
    requires k < |docs| && UniqueKeys(Teams(docs))
    requires u.teamId == docs[k].team.teamId && u.name == docs[k].team.name
    ensures !ClashesOthers(docs, k, u)
  {
    forall i | 0 <= i < |docs| && i != k
      ensures docs[i].team.teamId != u.teamId && docs[i].team.name != u.name
    {
      assert Teams(docs)[i] == docs[i].team && Teams(docs)[k] == docs[k].team;
      if i < k {
        assert docs[i].team.teamId != docs[k].team.teamId && docs[i].team.name != docs[k].team.name;
      } else {
        assert docs[k].team.teamId != docs[i].team.teamId && docs[k].team.name != docs[i].team.name;
      }
    }
  }

  /** The body sent for an unchanged copy of a stored team: its own values, with a full foodStatus. */
  lemma UnchangedPayload(d: Doc)
    requires WellFormed(d.team)
    ensures var t := d.team; var req := UpdatePayload(EditCopy(ToClient(d)));
      var u := t.(foodStatus := Some(t.foodStatus.GetOr(NoMealsServed)));
      && SubmitEdit(Some(EditCopy(ToClient(d))), true).Ok?
      && Truthy(req.status) && Patch(t, req) == ToDraft(u)
  {
    var t := d.team;
    var f := EditCopy(ToClient(d));
    EditCopyOfStored(d);
    TrimOfTrimmed(t.name);
    TrimOfTrimmed(t.leader);
    forall i | 0 <= i < |f.members| ensures !IncompleteMember(f.members[i]) && Trim(f.members[i].name) == t.members[i].name
                                              && Trim(f.members[i].collegeName) == t.members[i].collegeName {
      assert WellFormedMember(t.members[i]);
      TrimOfTrimmed(t.members[i].name);
      TrimOfTrimmed(t.members[i].collegeName);
    }
    var req := UpdatePayload(f);
    var u := t.(foodStatus := Some(t.foodStatus.GetOr(NoMealsServed)));
    assert Coerced(req.members.items) == MembersToJson(t.members);
    assert Patch(t, req) == ToDraft(u);
  }

  /**
   * Opening the dialog on a stored team and saving without a change
   * rewrites the same team, except that a missing foodStatus is now stored
   * as all-'invalid'.
   */
  lemma SaveUnchangedEdit(docs: seq<Doc>, k: nat)
    requires k < |docs| && UniqueKeys(Teams(docs))
    requires WellFormed(docs[k].team) && docs[k].team.teamId.Some?
    ensures var t := docs[k].team;
      var sent := SubmitEdit(Some(EditCopy(ToClient(docs[k]))), true);
      && sent.Ok?
      && sent.value.0 == t.teamId.value
      && UpdateResult(docs, sent.value.0, sent.value.1) == Ok(t.(foodStatus := Some(t.foodStatus.GetOr(NoMealsServed))))
  {
    var t := docs[k].team;
    var f := EditCopy(ToClient(docs[k]));
    var u := t.(foodStatus := Some(t.foodStatus.GetOr(NoMealsServed)));
    UnchangedPayload(docs[k]);
    EditCopyOfStored(docs[k]);
    var req := UpdatePayload(f);
    FindStored(docs, k);
    ParseFlagName(t.status);
    SentEditPassesServerChecks(f, true);
    ValidateResave(u);
    SameKeysClashWithNoOther(docs, k, u);
  }

  /** One team's test in the list's search; None when it reads a field the team lacks, which throws. */
  function ListSearchTest(t: ClientTeam, query: string): Option<bool> {
    if t.name.None? then None
    else if MatchesQuery(t.name.value, query) then Some(true)
    else if t.leader.None? then None
    else if MatchesQuery(t.leader.value, query) then Some(true)
    else if t.teamId.None? then None
    else Some(MatchesQuery(t.teamId.value, query))
  }

  function ListTest(query: string): ClientTeam -> Option<bool> {
    (t: ClientTeam) => ListSearchTest(t, query)
  }

  /**
   * filteredTeams: it throws when some team lacks a field the test reads;
   * otherwise a team is kept exactly when its name, leader or teamId
   * contains the query, ignoring case.
   */
  function FilteredTeams(teams: seq<ClientTeam>, query: string): (r: Option<seq<ClientTeam>>)
    ensures r.Some? <==> forall i :: 0 <= i < |teams| ==>
      teams[i].name.Some? && (MatchesQuery(teams[i].name.value, query) || teams[i].leader.Some?)
      && (MatchesQuery(teams[i].name.value, query) || MatchesQuery(teams[i].leader.value, query) || teams[i].teamId.Some?)
    ensures r.Some? ==> |r.value| <= |teams| && forall x :: x in r.value ==> x in teams
    ensures r.Some? ==> forall i :: 0 <= i < |teams| ==> (teams[i] in r.value <==>
      MatchesQuery(teams[i].name.value, query) || MatchesQuery(teams[i].leader.value, query)
      || MatchesQuery(teams[i].teamId.value, query))
    ensures r.Some? ==> r.value == Filter(teams, Accepted(ListTest(query)))
  {
    FilterOrThrow(teams, ListTest(query))
  }

  /** The search keeps a stored team exactly when its name, leader or teamId contains the query, ignoring case. */
  lemma SearchOfStoredTeam(d: Doc, query: string)
    requires d.team.teamId.Some?
    ensures ListSearchTest(ToClient(d), query) ==
      Some(MatchesQuery(d.team.name, query) || MatchesQuery(d.team.leader, query) || MatchesQuery(d.team.teamId.value, query))
  {
  }

  /** The empty query keeps every team that has a name. */
  lemma EmptyQueryKeepsAll(teams: seq<ClientTeam>)
    requires forall i :: 0 <= i < |teams| ==> teams[i].name.Some?
    ensures FilteredTeams(teams, "") == Some(teams)
  {
    forall i | 0 <= i < |teams| ensures ListTest("")(teams[i]) == Some(true) {
      EmptyQueryMatches(teams[i].name.value);
    }
    FilterOrThrowAll(teams, ListTest(""));
  }

  /** The list component's state that the edit dialog uses. */
  class EditDialog {
    var editedTeam: Option<EditForm>
    var selectedTeam: Option<ClientTeam>
    var editDialogOpen: bool

    constructor ()
      ensures editedTeam.None? && selectedTeam.None? && !editDialogOpen
    {
      editedTeam := None;
      selectedTeam := None;
      editDialogOpen := false;
    }

    /** handleEditClick: the copy with defaults becomes the working team and the dialog opens. */
    method HandleEditClick(team: ClientTeam)
      modifies this
      ensures selectedTeam == Some(team) && editedTeam == Some(EditCopy(team)) && editDialogOpen
    {
      var members := team.members.GetOr([]);
      var copied: seq<EditMember> := [];
      for i := 0 to |members|
        invariant copied == seq(i, j requires 0 <= j < i => CopyMember(members[j]))
      {
        copied := copied + [CopyMember(members[i])];
      }
      var copy := EditForm(team.id, team.teamId, OrElse(team.name, ""), OrElse(team.leader, ""),
                           OrElse(team.status, "invalid"), copied, team.qrData,
                           if team.foodStatus.Some? then team.foodStatus else Some(NoMealsJson));
      selectedTeam := Some(team);
      editedTeam := Some(copy);
      editDialogOpen := true;
    }

    /** handleInputChange: the working copy is updated field by field on a copy. */
    method HandleInputChange(e: InputEvent, index: Option<nat>)
      requires EventFits(editedTeam, e, index)
      modifies this
      ensures editedTeam == InputChanged(old(editedTeam), e, index)
      ensures selectedTeam == old(selectedTeam) && editDialogOpen == old(editDialogOpen)
    {
      if editedTeam.None? {
        return;
      }
      var updated := editedTeam.value;
      if e.name == "teamStatus" {
        updated := updated.(status := if e.checked then "valid" else "invalid");
      } else if e.name == "teamName" || e.name == "teamLeader" {
        if e.name == "teamName" {
          updated := updated.(name := e.value);
        } else {
          updated := updated.(leader := e.value);
        }
      } else if e.name == "foodLunch" || e.name == "foodDinner" || e.name == "foodSnacks" {
        if updated.foodStatus.None? {
          updated := updated.(foodStatus := Some(NoMealsJson));
        }
        var meal := FoodField(e.name);
        updated := updated.(foodStatus := Some(SetMealJson(updated.foodStatus.value, meal.value, CheckedFlag(e.checked))));
      } else if index.Some? {
        var members := updated.members;
        var i := index.value;
        var member := if i < |members| then members[i] else BlankMember;
        if IsMemberField(e.name) {
          if e.name == "memberName" {
            member := member.(name := e.value);
          } else if e.name == "memberCollege" {
            member := member.(collegeName := e.value);
          } else {
            member := member.(isFromIIITS := if e.isCheckbox then e.checked else member.isFromIIITS);
          }
          members := if i < |members| then members[i := member] else members + [member];
          updated := updated.(members := members);
        }
      }
      editedTeam := Some(updated);
    }

    /** handleAddMember. */
    method HandleAddMember()
      modifies this
      ensures editedTeam == AddMember(old(editedTeam))
      ensures selectedTeam == old(selectedTeam) && editDialogOpen == old(editDialogOpen)
    {
      if editedTeam.Some? {
        editedTeam := Some(editedTeam.value.(members := editedTeam.value.members + [BlankMember]));
      }
    }

    /** handleRemoveMember. */
    method HandleRemoveMember(index: int)
      modifies this
      ensures editedTeam == RemoveMember(old(editedTeam), index)
      ensures selectedTeam == old(selectedTeam) && editDialogOpen == old(editDialogOpen)
    {
      if editedTeam.Some? {
        var members := Splice1(editedTeam.value.members, index);
        editedTeam := Some(editedTeam.value.(members := members));
      }
    }
  }
}
