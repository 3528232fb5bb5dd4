/**
 * The volunteers' registration form: its member rows, the handlers that
 * change them, and the request the form sends to createTeam.
 */
module CreateTeamPage {
  import opened Wrappers
  import opened JsBuiltins
  import opened TeamSchema
  import opened TeamIds
  import opened QrCodec
  import opened Http
  import opened TeamRegistry
  import opened ClientView

  /** A member row of the form; the college input is called `college` here. */
  datatype FormMember = FormMember(name: string, college: string, isFromIIITS: bool)

  const BlankMember := FormMember("", "", false)

  /** What a member input reports: the name or college text, or the checkbox state. */
  datatype MemberChange = NameField(name: string) | CollegeField(college: string) | IIITSField(isFromIIITS: bool)

  /** `{ ...member, [field]: value }`. */
  function ChangeMember(m: FormMember, c: MemberChange): FormMember {
    match c
    case NameField(v) => m.(name := v)
    case CollegeField(v) => m.(college := v)
    case IIITSField(b) => m.(isFromIIITS := b)
  }

  /** handleAddMember's new rows: one blank row at the end. */
  function AddMember(ms: seq<FormMember>): (r: seq<FormMember>)
    ensures |r| == |ms| + 1 && r[..|ms|] == ms && r[|ms|] == BlankMember
  {
    ms + [BlankMember]
  }

  /** handleRemoveMember's new rows: `splice(index, 1)` on a copy. */
  function RemoveMember(ms: seq<FormMember>, index: int): seq<FormMember> {
    Splice1(ms, index)
  }

  /** handleMemberChange's new rows; the form only reports changes of rows it shows. */
  function MemberChanged(ms: seq<FormMember>, index: nat, c: MemberChange): seq<FormMember>
    requires index < |ms|
  {
    ms[index := ChangeMember(ms[index], c)]
  }

  /** A change touches one field of one row and nothing else. */
  lemma MemberChangeTouchesOneField(ms: seq<FormMember>, index: nat, c: MemberChange)
    requires index < |ms|
    ensures var r := MemberChanged(ms, index, c);
      && |r| == |ms|
      && (forall j :: 0 <= j < |ms| && j != index ==> r[j] == ms[j])
      && (c.NameField? ==> r[index].name == c.name && r[index].college == ms[index].college
                           && r[index].isFromIIITS == ms[index].isFromIIITS)
      && (c.CollegeField? ==> r[index].college == c.college && r[index].name == ms[index].name
                              && r[index].isFromIIITS == ms[index].isFromIIITS)
      && (c.IIITSField? ==> r[index].isFromIIITS == c.isFromIIITS && r[index].name == ms[index].name
                            && r[index].college == ms[index].college)
  {
  }

  /** Removing a row drops exactly that row and keeps the others in order. */
  lemma RemoveExactlyOne(ms: seq<FormMember>, index: nat)
    requires index < |ms|
    ensures RemoveMember(ms, index) == ms[..index] + ms[index + 1..]
  {
  }

  /** Removing the row just added gives back the rows. */
  lemma RemoveUndoesAdd(ms: seq<FormMember>)
    ensures RemoveMember(AddMember(ms), |ms|) == ms
  {
    assert AddMember(ms)[..|ms|] == ms;
  }

  /** Why handleSubmit refuses to send. */
  datatype FormError = NameRequired | LeaderRequired | MembersIncomplete | AuthRequired

  predicate IncompleteMember(m: FormMember) {
    Trim(m.name) == "" || Trim(m.college) == ""
  }

  /**
   * The body of the POST. createTeam reads only name, leader and members
   * (the `request`); the body's status and foodStatus are sent but never read.
   */
  datatype SubmitBody = SubmitBody(request: CreateRequest, status: string, foodStatus: FoodJson)

  /** The trimmed member the body carries, renamed to the schema's collegeName. */
  function SentMember(m: FormMember): MemberJson {
    MemberJson(Some(Trim(m.name)), Some(Trim(m.college)), Some(m.isFromIIITS))
  }

  /** handleSubmit up to the request: the checks in order, then the body. */
  function SubmitTeam(name: string, leader: string, members: seq<FormMember>, hasToken: bool): Result<SubmitBody, FormError> {
    if Trim(name) == "" then Err(NameRequired)
    else if Trim(leader) == "" then Err(LeaderRequired)
    else if |members| == 0 || exists i | 0 <= i < |members| :: IncompleteMember(members[i]) then Err(MembersIncomplete)
    else if !hasToken then Err(AuthRequired)
    else
      Ok(SubmitBody(CreateRequest(Some(Trim(name)), Some(Trim(leader)), List(SentMembers(members))), "invalid", NoMealsJson))
  }

  /**
   * The form sends exactly when name and leader are non-blank, there is at
   * least one member, and every member has a non-blank name and college;
   * the first failing check is the one reported.
   */
  lemma SubmitChecks(name: string, leader: string, members: seq<FormMember>, hasToken: bool)
    ensures var r := SubmitTeam(name, leader, members, hasToken);
      && (r.Ok? <==> hasToken && Trim(name) != "" && Trim(leader) != "" && |members| > 0
                     && forall i :: 0 <= i < |members| ==> !IncompleteMember(members[i]))
      && (Trim(name) == "" ==> r == Err(NameRequired))
      && (Trim(name) != "" && Trim(leader) == "" ==> r == Err(LeaderRequired))
      && (r.Ok? ==> r.value.status == "invalid" && r.value.foodStatus == NoMealsJson
                    && r.value.request.members.List? && |r.value.request.members.items| == |members|)
  {
  }

  /** The members the schema stores for the sent body: the form's rows trimmed. */
  function StoredMembers(members: seq<FormMember>): seq<Member> {
    seq(|members|, i requires 0 <= i < |members| => Member(Trim(members[i].name), Trim(members[i].college), members[i].isFromIIITS))
  }

  /** Complete rows, trimmed and sent, cast to exactly their trimmed values. */
  lemma SentMembersCast(members: seq<FormMember>)
    requires forall i :: 0 <= i < |members| ==> !IncompleteMember(members[i])
    ensures CastMembers(Coerced(SentMembers(members))) == Some(StoredMembers(members))
  {
    var js := Coerced(SentMembers(members));
    forall i | 0 <= i < |members| ensures CastMember(js[i]) == Some(StoredMembers(members)[i]) {
      assert !IncompleteMember(members[i]);
      TrimIdempotent(members[i].name);
      TrimIdempotent(members[i].college);
    }
    var r := CastMembers(js);
    assert r.Some?;
    forall i | 0 <= i < |members| ensures r.value[i] == StoredMembers(members)[i] {
      assert Some(r.value[i]) == CastMember(js[i]);
    }
    assert r.value == StoredMembers(members);
  }

  function SentMembers(members: seq<FormMember>): seq<MemberJson> {
    seq(|members|, i requires 0 <= i < |members| => SentMember(members[i]))
  }

  /** An accepted form's checks, unpacked. */
  lemma SubmitFacts(name: string, leader: string, members: seq<FormMember>)
    requires SubmitTeam(name, leader, members, true).Ok?
    ensures Trim(name) != "" && Trim(leader) != "" && |members| > 0
    ensures forall i :: 0 <= i < |members| ==> !IncompleteMember(members[i])
    ensures SubmitTeam(name, leader, members, true).value.request ==
      CreateRequest(Some(Trim(name)), Some(Trim(leader)), List(SentMembers(members)))
  {
  }

  /** The draft built from trimmed, non-empty values passes the schema unchanged. */
  lemma DraftValidates(n: string, l: string, members: seq<FormMember>, tid: string, now: nat, qr: string)
    requires n != "" && IsTrimmed(n) && l != "" && IsTrimmed(l) && qr != ""
    requires forall i :: 0 <= i < |members| ==> !IncompleteMember(members[i])
    ensures Validate(NewTeamDraft(tid, CreateRequest(Some(n), Some(l), List(SentMembers(members))), now, qr)) ==
      Some(Team(Some(tid), n, l, 0, 0, 0, StoredMembers(members), Invalid, Invalid, Some(NoMealsServed), qr, now))
  {
    var req := CreateRequest(Some(n), Some(l), List(SentMembers(members)));
    TrimOfTrimmed(n);
    TrimOfTrimmed(l);
    SentMembersCast(members);
    var d := NewTeamDraft(tid, req, now, qr);
    assert RequiredTrimmed(d.name) == Some(n);
    assert RequiredTrimmed(d.leader) == Some(l);
    assert CastFlag(d.status) == Some(Invalid);
    assert CastOptionalFood(d.foodStatus) == Some(Some(NoMealsServed));
  }

  /**
   * What the form sends passes createTeam's first check and the schema's
   * validation, whatever the id and QR code: the team built from it holds
   * the form's trimmed values.
   */
  lemma SentTeamIsValid(name: string, leader: string, members: seq<FormMember>, tid: string, now: nat, qr: string)
    requires SubmitTeam(name, leader, members, true).Ok? && qr != ""
    ensures var req := SubmitTeam(name, leader, members, true).value.request;
      && HasRequiredFields(req)
      && NewTeam(tid, req, now, qr) ==
           Some(Team(Some(tid), Trim(name), Trim(leader), 0, 0, 0, StoredMembers(members), Invalid, Invalid,
                     Some(NoMealsServed), qr, now))
  {
    SubmitFacts(name, leader, members);
    DraftValidates(Trim(name), Trim(leader), members, tid, now, qr);
  }

  /** An encoded QR payload is never empty: the empty text does not decode. */
  lemma EncodedNonEmpty(p: QrPayload)
    ensures Encode(p) != ""
  {
    DecodeEncode(p);
    assert Decode("") == None;
  }

  /**
   * A form createTeam receives is never refused as missing fields or as
   * invalid: the only refusals left are a full id range and a name already
   * taken.
   */
  lemma SentTeamOnlyRefusedForCapacityOrName(docs: seq<Doc>, name: string, leader: string, members: seq<FormMember>,
                                             now: nat, nowIso: string)
    requires SubmitTeam(name, leader, members, true).Ok?
    ensures var r := CreateResult(docs, SubmitTeam(name, leader, members, true).value.request, now, nowIso);
      r.Ok? || r == Err(InsufficientStorage) || r == Err(BadRequest(DuplicateKey))
  {
    var req := SubmitTeam(name, leader, members, true).value.request;
    CreateAllocates(docs, req, now, nowIso);
    var next := NextNumber(MaxTeamNumber(docs));
    if next <= Capacity {
      var tid := FormatTeamId(next);
      EncodedNonEmpty(CreatePayload(tid, req, nowIso));
      SentTeamIsValid(name, leader, members, tid, now, Encode(CreatePayload(tid, req, nowIso)));
    }
  }

  /** The registration page's state. */
  class CreateTeamForm {
    var name: string
    var leader: string
    var members: seq<FormMember>
    var registeredTeam: Option<ClientTeam>
    var success: string

    /** The initial state: empty texts, one blank member row, nothing registered. */
    constructor ()
      ensures name == "" && leader == "" && members == [BlankMember] && registeredTeam.None? && success == ""
    {
      name := "";
      leader := "";
      members := [BlankMember];
      registeredTeam := None;
      success := "";
    }

    method HandleAddMember()
      modifies this
      ensures members == AddMember(old(members))
      ensures name == old(name) && leader == old(leader) && registeredTeam == old(registeredTeam) && success == old(success)
    {
      members := members + [BlankMember];
    }

    method HandleRemoveMember(index: int)
      modifies this
      ensures members == RemoveMember(old(members), index)
      ensures name == old(name) && leader == old(leader) && registeredTeam == old(registeredTeam) && success == old(success)
    {
      var newMembers := members;
      newMembers := Splice1(newMembers, index);
      members := newMembers;
    }

    method HandleMemberChange(index: nat, c: MemberChange)
      requires index < |members|
      modifies this
      ensures members == MemberChanged(old(members), index, c)
      ensures name == old(name) && leader == old(leader) && registeredTeam == old(registeredTeam) && success == old(success)
    {
      var newMembers := members;
      var m := newMembers[index];
      match c {
        case NameField(v) => m := m.(name := v);
        case CollegeField(v) => m := m.(college := v);
        case IIITSField(b) => m := m.(isFromIIITS := b);
      }
      newMembers := newMembers[index := m];
      members := newMembers;
    }

    /** handleRegisterAnother: back to the initial state. */
    method HandleRegisterAnother()
      modifies this
      ensures name == "" && leader == "" && members == [BlankMember] && registeredTeam.None? && success == ""
    {
      name := "";
      leader := "";
      members := [BlankMember];
      registeredTeam := None;
      success := "";
    }
  }
}
