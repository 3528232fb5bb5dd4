/**
 * The team registry's pure specification: the stored documents, the lookups
 * the handlers make, teamId allocation, and the answer each of createTeam,
 * updateTeam, deleteTeam, getTeamById and getAllTeams gives for a store and a
 * request. The TeamStore class carries these out step by step.
 */
module TeamRegistry {
  import opened Wrappers
  import opened JsBuiltins
  import opened TeamSchema
  import opened TeamIds
  import opened QrCodec
  import opened Http

  /** A stored document: its internal `_id` and the team it holds. */
  datatype Doc = Doc(id: string, team: Team)

  function Teams(docs: seq<Doc>): (r: seq<Team>)
    ensures |r| == |docs|
    ensures forall i :: 0 <= i < |docs| ==> r[i] == docs[i].team
  {
    seq(|docs|, i requires 0 <= i < |docs| => docs[i].team)
  }

  predicate IsHexDigit(c: char) {
    ('0' <= c <= '9') || ('a' <= c <= 'f') || ('A' <= c <= 'F')
  }

  /**
   * The shape of an internal id that validateObjectId accepts: 24 hexadecimal
   * digits. The validator itself is not part of this model.
   */
  predicate ValidObjectId(id: string) {
    |id| == 24 && forall i :: 0 <= i < |id| ==> IsHexDigit(id[i])
  }

  /**
   * The ObjectId an id string denotes, written in canonical lower-case hex.
   * findById casts its argument to an ObjectId, and that cast ignores the
   * case of the hex letters, so two ids name the same document exactly when
   * their ObjectIds agree.
   */
  function ObjectIdOf(id: string): (o: string)
    ensures |o| == |id|
    ensures ValidObjectId(id) ==> ValidObjectId(o) && forall i :: 0 <= i < |o| ==> !('A' <= o[i] <= 'Z')
  {
    ToLower(id)
  }

  /** What a lookup is keyed by: the public teamId or the internal id. */
  datatype Key = ByTeamId(teamId: string) | ById(id: string)

  predicate Matches(d: Doc, key: Key) {
    match key
    case ByTeamId(tid) => d.team.teamId == Some(tid)
    case ById(id) => ObjectIdOf(d.id) == ObjectIdOf(id)
  }

  /** The first document at or after `from` that matches `key`. */
  function FindFrom(docs: seq<Doc>, key: Key, from: nat): (r: Option<nat>)
    requires from <= |docs|
    ensures r.Some? ==> from <= r.value < |docs| && Matches(docs[r.value], key)
    ensures r.Some? ==> forall j :: from <= j < r.value ==> !Matches(docs[j], key)
    ensures r.None? ==> forall j :: from <= j < |docs| ==> !Matches(docs[j], key)
    decreases |docs| - from
  {
    if from == |docs| then None
    else if Matches(docs[from], key) then Some(from)
    else FindFrom(docs, key, from + 1)
  }

  /** `findOne({ teamId })` or `findById(id)`: the index of the first matching document in natural order. */
  function Find(docs: seq<Doc>, key: Key): Option<nat>
    ensures Find(docs, key).Some? ==> Find(docs, key).value < |docs|
  {
    FindFrom(docs, key, 0)
  }

  /** A document whose teamId matches the 25xx pattern has a number; any other has none. */
  function NumberOf(t: Team): Option<nat> {
    if t.teamId.Some? then TeamNumber(t.teamId.value) else None
  }

  function MaxOpt(a: Option<nat>, b: Option<nat>): (r: Option<nat>)
    ensures r == a || r == b
    ensures r.None? <==> a.None? && b.None?
    ensures a.Some? ==> a.value <= r.value
    ensures b.Some? ==> b.value <= r.value
  {
    if a.None? then b else if b.None? then a else if a.value >= b.value then a else b
  }

  /** The number of the team `findOne({ teamId: /^25\d{2}$/ }).sort({ teamId: -1 })` finds, if any. */
  function MaxTeamNumber(docs: seq<Doc>): (r: Option<nat>)
    ensures r.None? <==> forall i :: 0 <= i < |docs| ==> NumberOf(docs[i].team).None?
    ensures r.Some? ==> exists i :: 0 <= i < |docs| && NumberOf(docs[i].team) == r
    ensures r.Some? ==> forall i :: 0 <= i < |docs| && NumberOf(docs[i].team).Some? ==>
                          NumberOf(docs[i].team).value <= r.value
  {
    if docs == [] then None
    else
      var init := docs[..|docs| - 1];
      var m := MaxTeamNumber(init);
      var last := NumberOf(docs[|docs| - 1].team);
      var r := MaxOpt(m, last);
      assert forall i :: 0 <= i < |init| ==> init[i] == docs[i];
      assert r.Some? ==> exists i :: 0 <= i < |docs| && NumberOf(docs[i].team) == r by {
        if r.Some? && r != last {
          var i :| 0 <= i < |init| && NumberOf(init[i].team) == m;
          assert NumberOf(docs[i].team) == r;
        } else if r.Some? {
          assert NumberOf(docs[|docs| - 1].team) == r;
        }
      }
      assert r.Some? ==> forall i :: 0 <= i < |docs| && NumberOf(docs[i].team).Some? ==>
                           NumberOf(docs[i].team).value <= r.value by {
        if r.Some? {
          forall i | 0 <= i < |docs| && NumberOf(docs[i].team).Some? ensures NumberOf(docs[i].team).value <= r.value {
            if i < |init| {
              assert NumberOf(init[i].team) == NumberOf(docs[i].team);
            }
          }
        }
      }
      assert r.None? <==> forall i :: 0 <= i < |docs| ==> NumberOf(docs[i].team).None? by {
        if r.None? {
          forall i | 0 <= i < |docs| ensures NumberOf(docs[i].team).None? {
            if i < |init| {
              assert NumberOf(init[i].team) == NumberOf(docs[i].team);
            }
          }
        }
      }
      r
  }

  /**
   * The highest number is the teamId the descending string sort puts first:
   * among 25xx ids, string order and numeric order agree.
   */
  lemma MaxIsLastInTeamIdOrder(docs: seq<Doc>, i: nat, j: nat)
    requires i < |docs| && j < |docs|
    requires NumberOf(docs[i].team) == MaxTeamNumber(docs) && NumberOf(docs[j].team).Some?
    ensures !LexLess(docs[i].team.teamId.value, docs[j].team.teamId.value)
  {
    LexOrderIsNumericOrder(docs[i].team.teamId.value, docs[j].team.teamId.value);
  }

  /**
   * The collision guard cannot fire without a concurrent insert: no stored
   * document already holds the id that allocation produces.
   */
  lemma AllocatedIdIsFree(docs: seq<Doc>)
    requires NextNumber(MaxTeamNumber(docs)) <= Capacity
    ensures Find(docs, ByTeamId(FormatTeamId(NextNumber(MaxTeamNumber(docs))))) == None
  {
    var next := NextNumber(MaxTeamNumber(docs));
    NumberOfFormat(next);
    forall j | 0 <= j < |docs| ensures !Matches(docs[j], ByTeamId(FormatTeamId(next))) {
      var t := docs[j].team;
      assert t.teamId == Some(FormatTeamId(next)) ==> NumberOf(t) == Some(next);
    }
  }

  /**
   * The i-th document holds number i + 1: the store a run of creations from
   * empty leaves.
   */
  ghost predicate Sequential(docs: seq<Doc>) {
    forall i :: 0 <= i < |docs| ==> NumberOf(docs[i].team) == Some(i + 1)
  }

  /** In a sequential store the i-th team's id is "25" followed by i + 1 in two digits. */
  lemma SequentialIds(docs: seq<Doc>)
    requires Sequential(docs)
    ensures forall i :: 0 <= i < |docs| ==> docs[i].team.teamId == Some(FormatTeamId(i + 1))
  {
    forall i | 0 <= i < |docs| ensures docs[i].team.teamId == Some(FormatTeamId(i + 1)) {
      FormatOfNumber(docs[i].team.teamId.value);
    }
  }

  lemma SequentialMax(docs: seq<Doc>)
    requires Sequential(docs)
    ensures MaxTeamNumber(docs) == if docs == [] then None else Some(|docs|)
  {
    if docs != [] {
      assert NumberOf(docs[|docs| - 1].team) == Some(|docs|);
    }
  }

  lemma SequentialAppend(docs: seq<Doc>, d: Doc)
    requires Sequential(docs) && NumberOf(d.team) == Some(|docs| + 1)
    ensures Sequential(docs + [d])
  {
    var s := docs + [d];
    forall i | 0 <= i < |s| ensures NumberOf(s[i].team) == Some(i + 1) {
      if i < |docs| { assert s[i] == docs[i]; }
    }
  }

  /** A JSON body field that should be an array: missing or falsy, some other value, or an array. */
  datatype ListInput<T> = Missing | NotAList | List(items: seq<T>)

  /** The body of a create request: `{ name, leader, members }`. */
  datatype CreateRequest = CreateRequest(name: Option<string>, leader: Option<string>, members: ListInput<MemberJson>)

  /** A string field that JavaScript treats as true: present and not "". */
  predicate Truthy(s: Option<string>) {
    s.Some? && s.value != ""
  }

  /** `!!m.isFromIIITS` and `Boolean(m.isFromIIITS)`. */
  function ToBool(b: Option<bool>): bool {
    b == Some(true)
  }

  /** The handler's first check: name and leader given and a non-empty members array. */
  predicate HasRequiredFields(req: CreateRequest) {
    Truthy(req.name) && Truthy(req.leader) && req.members.List? && |req.members.items| > 0
  }

  /** `members.map(m => ({ name, collegeName, isFromIIITS: !!m.isFromIIITS }))`. */
  function Coerced(ms: seq<MemberJson>): (r: seq<MemberJson>)
    ensures |r| == |ms|
    ensures forall i :: 0 <= i < |ms| ==>
      r[i].name == ms[i].name && r[i].collegeName == ms[i].collegeName && r[i].isFromIIITS == Some(ToBool(ms[i].isFromIIITS))
  {
    seq(|ms|, i requires 0 <= i < |ms| => MemberJson(ms[i].name, ms[i].collegeName, Some(ToBool(ms[i].isFromIIITS))))
  }

  /**
   * A member of the QR payload, copied from the request body. A missing name
   * or college becomes "" here; such a request then fails validation, so its
   * payload is never stored.
   */
  function PayloadMember(m: MemberJson): Member {
    Member(m.name.GetOr(""), m.collegeName.GetOr(""), ToBool(m.isFromIIITS))
  }

  /** The payload built once at creation, from the request's own (untrimmed) name, leader and members. */
  function CreatePayload(tid: string, req: CreateRequest, createdIso: string): QrPayload
    requires req.members.List?
  {
    var items := req.members.items;
    QrPayload(tid, req.name.GetOr(""), req.leader.GetOr(""),
              seq(|items|, i requires 0 <= i < |items| => PayloadMember(items[i])),
              Invalid, NoMealsServed, createdIso)
  }

  /** The new team document before it is saved. */
  function NewTeamDraft(tid: string, req: CreateRequest, now: nat, qr: string): TeamDraft
    requires req.members.List?
  {
    TeamDraft(Some(tid), req.name, req.leader, None, None, None, Coerced(req.members.items),
              Some("invalid"), None, Some(FoodJson(Some("invalid"), Some("invalid"), Some("invalid"))),
              Some(qr), now)
  }

  /** The new team once the schema has cast and validated it; None on a ValidationError. */
  function NewTeam(tid: string, req: CreateRequest, now: nat, qr: string): (r: Option<Team>)
    requires req.members.List?
    ensures r.Some? ==> WellFormed(r.value)
    ensures r.Some? ==> var t := r.value; var items := req.members.items;
      && t.teamId == Some(tid) && t.qrData == qr && t.createdAt == now
      && t.status == Invalid && t.allotment == Invalid && t.foodStatus == Some(NoMealsServed)
      && t.lunchcount == 0 && t.dinnercount == 0 && t.snackscount == 0
      && req.name.Some? && t.name == Trim(req.name.value)
      && req.leader.Some? && t.leader == Trim(req.leader.value)
      && |t.members| == |items|
      && forall i :: 0 <= i < |items| ==>
           && items[i].name.Some? && t.members[i].name == Trim(items[i].name.value)
           && items[i].collegeName.Some? && t.members[i].collegeName == Trim(items[i].collegeName.value)
           && t.members[i].isFromIIITS == ToBool(items[i].isFromIIITS)
  {
    NewTeamFields(tid, req, now, qr);
    Validate(NewTeamDraft(tid, req, now, qr))
  }

  /** The values a team validated from the creation draft holds. */
  lemma NewTeamFields(tid: string, req: CreateRequest, now: nat, qr: string)
    requires req.members.List?
    ensures var r := Validate(NewTeamDraft(tid, req, now, qr));
      r.Some? ==> var t := r.value; var items := req.members.items;
      && t.teamId == Some(tid) && t.qrData == qr && t.createdAt == now
      && t.status == Invalid && t.allotment == Invalid && t.foodStatus == Some(NoMealsServed)
      && t.lunchcount == 0 && t.dinnercount == 0 && t.snackscount == 0
      && req.name.Some? && t.name == Trim(req.name.value)
      && req.leader.Some? && t.leader == Trim(req.leader.value)
      && |t.members| == |items|
      && forall i :: 0 <= i < |items| ==>
           && items[i].name.Some? && t.members[i].name == Trim(items[i].name.value)
           && items[i].collegeName.Some? && t.members[i].collegeName == Trim(items[i].collegeName.value)
           && t.members[i].isFromIIITS == ToBool(items[i].isFromIIITS)
  {
    var d := NewTeamDraft(tid, req, now, qr);
    if Validate(d).Some? {
      ValidateFields(d);
      CoercedMembersCast(req.members.items, Validate(d).value.members);
    }
  }

  /** The members cast from a request's coerced list: each name and college trimmed. */
  lemma CoercedMembersCast(items: seq<MemberJson>, ms: seq<Member>)
    requires Some(ms) == CastMembers(Coerced(items))
    ensures |ms| == |items|
    ensures forall i :: 0 <= i < |items| ==>
      && items[i].name.Some? && ms[i].name == Trim(items[i].name.value)
      && items[i].collegeName.Some? && ms[i].collegeName == Trim(items[i].collegeName.value)
      && ms[i].isFromIIITS == ToBool(items[i].isFromIIITS)
  {
    forall i | 0 <= i < |items|
      ensures && items[i].name.Some? && ms[i].name == Trim(items[i].name.value)
              && items[i].collegeName.Some? && ms[i].collegeName == Trim(items[i].collegeName.value)
              && ms[i].isFromIIITS == ToBool(items[i].isFromIIITS)
    {
      assert Some(ms[i]) == CastMember(Coerced(items)[i]);
    }
  }

  /**
   * The answer of createTeam: the saved team, or the error. `now` is the
   * clock reading the schema stores as createdAt and `nowIso` the timestamp
   * written into the QR payload.
   */
  function CreateResult(docs: seq<Doc>, req: CreateRequest, now: nat, nowIso: string): Result<Team, ApiError> {
    if !HasRequiredFields(req) then Err(BadRequest(MissingFields))
    else
      var next := NextNumber(MaxTeamNumber(docs));
      if next > Capacity then Err(InsufficientStorage)
      else
        var tid := FormatTeamId(next);
        if Find(docs, ByTeamId(tid)).Some? then Err(ServerError(IdCollision))
        else
          var qr := Encode(CreatePayload(tid, req, nowIso));
          match NewTeam(tid, req, now, qr)
          case None => Err(BadRequest(ValidationFailed))
          case Some(t) => if Clashes(Teams(docs), t) then Err(BadRequest(DuplicateKey)) else Ok(t)
  }

  /** The first check answers 400 exactly when a required field is missing. */
  lemma CreateMissingFields(docs: seq<Doc>, req: CreateRequest, now: nat, nowIso: string)
    ensures CreateResult(docs, req, now, nowIso) == Err(BadRequest(MissingFields)) <==> !HasRequiredFields(req)
  {
    if HasRequiredFields(req) && NextNumber(MaxTeamNumber(docs)) <= Capacity {
      CreateSteps(docs, req, now, nowIso);
    }
  }

  /**
   * Once the highest number in use is 99 creation answers 507, however many
   * lower numbers are free.
   */
  lemma CreateExhausted(docs: seq<Doc>, req: CreateRequest, now: nat, nowIso: string)
    requires HasRequiredFields(req) && MaxTeamNumber(docs) == Some(Capacity)
    ensures CreateResult(docs, req, now, nowIso) == Err(InsufficientStorage)
  {
  }

  /** A created team gets the next number after the highest one in use, and never 500 for a collision. */
  lemma CreateAllocates(docs: seq<Doc>, req: CreateRequest, now: nat, nowIso: string)
    requires HasRequiredFields(req)
    ensures CreateResult(docs, req, now, nowIso) != Err(ServerError(IdCollision))
    ensures CreateResult(docs, req, now, nowIso).Ok? ==>
      var next := NextNumber(MaxTeamNumber(docs));
      1 <= next <= Capacity && CreateResult(docs, req, now, nowIso).value.teamId == Some(FormatTeamId(next))
  {
    if NextNumber(MaxTeamNumber(docs)) <= Capacity {
      CreateSteps(docs, req, now, nowIso);
    }
  }

  /** createTeam once the first check has passed and a number is free: validation, then the unique indexes. */
  lemma CreateSteps(docs: seq<Doc>, req: CreateRequest, now: nat, nowIso: string)
    requires HasRequiredFields(req) && NextNumber(MaxTeamNumber(docs)) <= Capacity
    ensures var tid := FormatTeamId(NextNumber(MaxTeamNumber(docs)));
      var nt := NewTeam(tid, req, now, Encode(CreatePayload(tid, req, nowIso)));
      CreateResult(docs, req, now, nowIso) ==
        if nt.None? then Err(BadRequest(ValidationFailed))
        else if Clashes(Teams(docs), nt.value) then Err(BadRequest(DuplicateKey))
        else Ok(nt.value)
  {
    AllocatedIdIsFree(docs);
  }

  /** Creating a team on a store of k sequential ids gives it id k + 1; from empty, N creations give 2501..25NN. */
  lemma CreateIsSequential(docs: seq<Doc>, req: CreateRequest, now: nat, nowIso: string, oid: string)
    requires Sequential(docs) && CreateResult(docs, req, now, nowIso).Ok?
    ensures CreateResult(docs, req, now, nowIso).value.teamId == Some(FormatTeamId(|docs| + 1))
    ensures Sequential(docs + [Doc(oid, CreateResult(docs, req, now, nowIso).value)])
  {
    CreateAllocates(docs, req, now, nowIso);
    SequentialNextNumber(docs);
    SequentialNext(docs, CreateResult(docs, req, now, nowIso).value, oid);
  }

  /** In a sequential store the next number is one more than the number of teams. */
  lemma SequentialNextNumber(docs: seq<Doc>)
    requires Sequential(docs) && NextNumber(MaxTeamNumber(docs)) <= Capacity
    ensures NextNumber(MaxTeamNumber(docs)) == |docs| + 1 <= Capacity
  {
    SequentialMax(docs);
    if docs != [] {
      assert NumberOf(docs[|docs| - 1].team) == Some(|docs|);
    }
  }

  /** A team with the id of number k + 1 extends a sequential store of k teams. */
  lemma SequentialNext(docs: seq<Doc>, t: Team, oid: string)
    requires Sequential(docs) && |docs| + 1 <= Capacity && t.teamId == Some(FormatTeamId(|docs| + 1))
    ensures Sequential(docs + [Doc(oid, t)])
  {
    NumberOfFormat(|docs| + 1);
    SequentialAppend(docs, Doc(oid, t));
  }

  /** The initial state of a created team. */
  lemma CreateInitialState(docs: seq<Doc>, req: CreateRequest, now: nat, nowIso: string)
    requires CreateResult(docs, req, now, nowIso).Ok?
    ensures var t := CreateResult(docs, req, now, nowIso).value;
      var items := req.members.items;
      && req.members.List?
      && t.status == Invalid && t.allotment == Invalid && t.foodStatus == Some(NoMealsServed)
      && t.lunchcount == 0 && t.dinnercount == 0 && t.snackscount == 0
      && t.name == Trim(req.name.value) && t.leader == Trim(req.leader.value) && t.createdAt == now
      && |t.members| == |items|
      && forall i :: 0 <= i < |items| ==>
           && items[i].name.Some? && t.members[i].name == Trim(items[i].name.value)
           && items[i].collegeName.Some? && t.members[i].collegeName == Trim(items[i].collegeName.value)
           && t.members[i].isFromIIITS == ToBool(items[i].isFromIIITS)
  {
    CreateAllocates(docs, req, now, nowIso);
    CreateSteps(docs, req, now, nowIso);
  }

  /**
   * The stored qrData decodes to the payload of the assigned teamId and the
   * request's name and leader, and a scan of it reads back that teamId.
   */
  lemma CreateQrRoundTrip(docs: seq<Doc>, req: CreateRequest, now: nat, nowIso: string)
    requires CreateResult(docs, req, now, nowIso).Ok?
    ensures var t := CreateResult(docs, req, now, nowIso).value;
      && t.teamId.Some?
      && Decode(t.qrData) == Some(CreatePayload(t.teamId.value, req, nowIso))
      && Decode(t.qrData).value.teamName == req.name.value
      && Decode(t.qrData).value.leader == req.leader.value
      && Decode(t.qrData).value.status == Invalid
      && DecodeTeamId(t.qrData) == t.teamId
  {
    CreateAllocates(docs, req, now, nowIso);
    CreateSteps(docs, req, now, nowIso);
    var tid := FormatTeamId(NextNumber(MaxTeamNumber(docs)));
    var p := CreatePayload(tid, req, nowIso);
    DecodeEncode(p);
    DecodeTeamIdOfEncode(p);
  }

  /** The body of an update request: `{ name, leader, status, members, foodStatus }`. */
  datatype UpdateRequest = UpdateRequest(
    name: Option<string>,
    leader: Option<string>,
    status: Option<string>,
    members: ListInput<MemberJson>,
    foodStatus: Option<FoodJson>)

  /** A member a request lists without a name or college. */
  predicate HasIncompleteMember(ms: seq<MemberJson>) {
    exists i | 0 <= i < |ms| :: !Truthy(ms[i].name) || !Truthy(ms[i].collegeName)
  }

  /** updateTeam's own checks on the body, in order; None when every one passes. */
  function UpdateCheck(req: UpdateRequest): Option<Reason> {
    if !Truthy(req.name) || !Truthy(req.leader) then Some(NameAndLeaderRequired)
    else if req.members.NotAList? then Some(MembersNotArray)
    else if req.members.List? && HasIncompleteMember(req.members.items) then Some(InvalidMembers)
    else if Truthy(req.status) && ParseFlag(req.status.value).None? then Some(InvalidStatus)
    else None
  }

  /** The loaded team with the request's fields assigned, as the schema sees it on save. */
  function Patch(t: Team, req: UpdateRequest): TeamDraft {
    var d := ToDraft(t);
    d.(name := req.name, leader := req.leader,
       status := if Truthy(req.status) then req.status else d.status,
       members := if req.members.List? then Coerced(req.members.items) else d.members,
       foodStatus := if req.foodStatus.Some? then req.foodStatus else d.foodStatus)
  }

  /** `t` shares its teamId or name with a stored document other than the one at `k`. */
  predicate ClashesOthers(docs: seq<Doc>, k: nat, t: Team) {
    exists i | 0 <= i < |docs| :: i != k && (docs[i].team.teamId == t.teamId || docs[i].team.name == t.name)
  }

  /** The answer of updateTeam for the team with public id `tid`. */
  function UpdateResult(docs: seq<Doc>, tid: string, req: UpdateRequest): Result<Team, ApiError> {
    match Find(docs, ByTeamId(tid))
    case None => Err(NotFound)
    case Some(k) =>
      if UpdateCheck(req).Some? then Err(BadRequest(UpdateCheck(req).value))
      else match Validate(Patch(docs[k].team, req))
        case None => Err(ServerError(SaveFailed))
        case Some(t) => if ClashesOthers(docs, k, t) then Err(ServerError(SaveFailed)) else Ok(t)
  }

  /** An unknown teamId answers 404 before any field of the body is looked at. */
  lemma UpdateNotFoundFirst(docs: seq<Doc>, tid: string, req: UpdateRequest)
    requires Find(docs, ByTeamId(tid)).None?
    ensures UpdateResult(docs, tid, req) == Err(NotFound)
  {
  }

  /** For a known team, the body's checks decide the 400s, in order; an empty members array passes them. */
  lemma UpdateChecks(docs: seq<Doc>, tid: string, req: UpdateRequest)
    requires Find(docs, ByTeamId(tid)).Some?
    ensures !Truthy(req.name) || !Truthy(req.leader) ==> UpdateResult(docs, tid, req) == Err(BadRequest(NameAndLeaderRequired))
    ensures Truthy(req.name) && Truthy(req.leader) && req.members.NotAList? ==>
              UpdateResult(docs, tid, req) == Err(BadRequest(MembersNotArray))
    ensures UpdateResult(docs, tid, req).Ok? ==>
              && Truthy(req.name) && Truthy(req.leader) && !req.members.NotAList?
              && (req.members.List? ==> forall i :: 0 <= i < |req.members.items| ==>
                    Truthy(req.members.items[i].name) && Truthy(req.members.items[i].collegeName))
              && (Truthy(req.status) ==> req.status.value == "valid" || req.status.value == "invalid")
    ensures req.members == List([]) ==> !HasIncompleteMember(req.members.items)
  {
  }

  /**
   * What a successful update `u` of `t` holds: name and leader overwritten;
   * status, members and foodStatus replaced only when the body supplies them
   * (foodStatus as a whole: a meal the object leaves out is back at
   * 'invalid'); teamId, qrData, allotment, the counters and createdAt kept.
   */
  ghost predicate UpdatedFrom(t: Team, req: UpdateRequest, u: Team) {
    && req.name.Some? && u.name == Trim(req.name.value)
    && req.leader.Some? && u.leader == Trim(req.leader.value)
    && u.teamId == t.teamId && u.qrData == t.qrData && u.allotment == t.allotment
    && u.lunchcount == t.lunchcount && u.dinnercount == t.dinnercount && u.snackscount == t.snackscount
    && u.createdAt == t.createdAt
    && (Truthy(req.status) ==> FlagName(u.status) == req.status.value)
    && (!Truthy(req.status) ==> u.status == t.status)
    && (!req.members.List? ==> u.members == t.members)
    && (req.members.List? ==> |u.members| == |req.members.items|)
    && (forall i :: req.members.List? && 0 <= i < |req.members.items| && i < |u.members| ==>
          var m := req.members.items[i];
          && m.name.Some? && m.collegeName.Some?
          && u.members[i] == Member(Trim(m.name.value), Trim(m.collegeName.value), ToBool(m.isFromIIITS)))
    && (req.foodStatus.None? ==> u.foodStatus == t.foodStatus)
    && (req.foodStatus.Some? ==> u.foodStatus.Some? && MealsReplaced(req.foodStatus.value, u.foodStatus.value))
  }

  /** A successful update is UpdatedFrom the stored team it found. */
  lemma UpdateOverwrites(docs: seq<Doc>, tid: string, req: UpdateRequest)
    requires UpdateResult(docs, tid, req).Ok?
    requires WellFormed(docs[Find(docs, ByTeamId(tid)).value].team)
    ensures UpdatedFrom(docs[Find(docs, ByTeamId(tid)).value].team, req, UpdateResult(docs, tid, req).value)
  {
    var k := Find(docs, ByTeamId(tid)).value;
    var t := docs[k].team;
    assert UpdateResult(docs, tid, req).value == Validate(Patch(t, req)).value;
    PatchKeeps(t, req);
    PatchStatus(t, req);
    PatchMembers(t, req);
    PatchFood(t, req);
  }

  lemma PatchKeeps(t: Team, req: UpdateRequest)
    requires Validate(Patch(t, req)).Some?
    ensures var u := Validate(Patch(t, req)).value;
      && req.name.Some? && u.name == Trim(req.name.value)
      && req.leader.Some? && u.leader == Trim(req.leader.value)
      && u.teamId == t.teamId && u.qrData == t.qrData && u.allotment == t.allotment
      && u.lunchcount == t.lunchcount && u.dinnercount == t.dinnercount && u.snackscount == t.snackscount
      && u.createdAt == t.createdAt
  {
    ParseFlagName(t.allotment);
  }

  lemma PatchStatus(t: Team, req: UpdateRequest)
    requires Validate(Patch(t, req)).Some?
    ensures var u := Validate(Patch(t, req)).value;
      && (Truthy(req.status) ==> FlagName(u.status) == req.status.value)
      && (!Truthy(req.status) ==> u.status == t.status)
  {
    ParseFlagName(t.status);
  }

  lemma PatchMembers(t: Team, req: UpdateRequest)
    requires Validate(Patch(t, req)).Some? && WellFormed(t)
    ensures var u := Validate(Patch(t, req)).value;
      && (!req.members.List? ==> u.members == t.members)
      && (req.members.List? ==> |u.members| == |req.members.items|)
      && (forall i :: req.members.List? && 0 <= i < |req.members.items| ==>
            var m := req.members.items[i];
            && m.name.Some? && m.collegeName.Some?
            && u.members[i] == Member(Trim(m.name.value), Trim(m.collegeName.value), ToBool(m.isFromIIITS)))
  {
    var d := Patch(t, req);
    var ms := CastMembers(d.members);
    assert ms.Some? && Validate(d).value.members == ms.value;
    if !req.members.List? {
      CastMembersResave(t.members);
    } else {
      var items := req.members.items;
      forall i | 0 <= i < |items|
        ensures items[i].name.Some? && items[i].collegeName.Some?
        ensures ms.value[i] == Member(Trim(items[i].name.value), Trim(items[i].collegeName.value), ToBool(items[i].isFromIIITS))
      {
        CastCoercedMember(items[i], Coerced(items)[i], ms.value[i]);
      }
    }
  }

  /** A member that saves after the member map keeps its trimmed name and college and the coerced flag. */
  lemma CastCoercedMember(m: MemberJson, c: MemberJson, saved: Member)
    requires c == MemberJson(m.name, m.collegeName, Some(ToBool(m.isFromIIITS)))
    requires Some(saved) == CastMember(c)
    ensures m.name.Some? && m.collegeName.Some?
    ensures saved == Member(Trim(m.name.value), Trim(m.collegeName.value), ToBool(m.isFromIIITS))
  {
  }

  lemma PatchFood(t: Team, req: UpdateRequest)
    requires Validate(Patch(t, req)).Some?
    ensures var u := Validate(Patch(t, req)).value;
      && (req.foodStatus.None? ==> u.foodStatus == t.foodStatus)
      && (req.foodStatus.Some? ==> u.foodStatus.Some? && MealsReplaced(req.foodStatus.value, u.foodStatus.value))
  {
    var d := Patch(t, req);
    ValidateFields(d);
    if req.foodStatus.None? {
      assert d.foodStatus == ToDraft(t).foodStatus;
      if t.foodStatus.Some? {
        var f := t.foodStatus.value;
        ParseFlagName(f.lunch);
        ParseFlagName(f.dinner);
        ParseFlagName(f.snacks);
        assert CastFood(FoodToJson(f)) == Some(f);
      }
    } else {
      assert d.foodStatus == req.foodStatus;
    }
  }

  /** The meals of a foodStatus object once cast: each given meal as named, each missing one 'invalid'. */
  predicate MealsReplaced(given: FoodJson, f: FoodStatus) {
    && (if given.lunch.Some? then FlagName(f.lunch) == given.lunch.value else f.lunch == Invalid)
    && (if given.dinner.Some? then FlagName(f.dinner) == given.dinner.value else f.dinner == Invalid)
    && (if given.snacks.Some? then FlagName(f.snacks) == given.snacks.value else f.snacks == Invalid)
  }

  /** `docs` without the document at `k`, the others in their order. */
  function RemoveAt(docs: seq<Doc>, k: nat): (r: seq<Doc>)
    requires k < |docs|
    ensures |r| == |docs| - 1
    ensures forall j :: 0 <= j < k ==> r[j] == docs[j]
    ensures forall j :: k <= j < |r| ==> r[j] == docs[j + 1]
  {
    docs[..k] + docs[k + 1..]
  }

  /** The answer of deleteTeam for internal id `id`: the deleted team, or the error. */
  function DeleteResult(docs: seq<Doc>, id: string): Result<Team, ApiError> {
    if !ValidObjectId(id) then Err(BadRequest(InvalidIdFormat))
    else match Find(docs, ById(id))
      case None => Err(NotFound)
      case Some(k) => Ok(docs[k].team)
  }

  /** deleteTeam fails with 400 on a malformed id and with 404 on an absent one, and succeeds otherwise. */
  lemma DeleteAnswers(docs: seq<Doc>, id: string)
    ensures DeleteResult(docs, id) == Err(BadRequest(InvalidIdFormat)) <==> !ValidObjectId(id)
    ensures DeleteResult(docs, id) == Err(NotFound) <==>
              ValidObjectId(id) && forall j :: 0 <= j < |docs| ==> ObjectIdOf(docs[j].id) != ObjectIdOf(id)
    ensures DeleteResult(docs, id).Ok? <==>
              ValidObjectId(id) && exists j :: 0 <= j < |docs| && ObjectIdOf(docs[j].id) == ObjectIdOf(id)
  {
    if ValidObjectId(id) && exists j :: 0 <= j < |docs| && ObjectIdOf(docs[j].id) == ObjectIdOf(id) {
      var j :| 0 <= j < |docs| && ObjectIdOf(docs[j].id) == ObjectIdOf(id);
      assert Matches(docs[j], ById(id));
    }
  }

  /**
   * Removing the found document removes exactly that one: every other
   * document remains, and when no two internal ids name the same ObjectId
   * that id is gone.
   */
  lemma DeleteRemovesExactlyOne(docs: seq<Doc>, id: string)
    requires Find(docs, ById(id)).Some?
    requires forall i, j :: 0 <= i < j < |docs| ==> ObjectIdOf(docs[i].id) != ObjectIdOf(docs[j].id)
    ensures var k := Find(docs, ById(id)).value;
      var rest := RemoveAt(docs, k);
      && multiset(rest) + multiset{docs[k]} == multiset(docs)
      && (forall j :: 0 <= j < |docs| && j != k ==> docs[j] in rest)
      && Find(rest, ById(id)) == None
  {
    var k := Find(docs, ById(id)).value;
    var rest := RemoveAt(docs, k);
    assert docs == docs[..k] + [docs[k]] + docs[k + 1..];
    forall j | 0 <= j < |docs| && j != k ensures docs[j] in rest {
      if j < k { assert rest[j] == docs[j]; } else { assert rest[j - 1] == docs[j]; }
    }
    forall j | 0 <= j < |rest| ensures !Matches(rest[j], ById(id)) {
      if j < k { assert rest[j] == docs[j]; } else { assert rest[j] == docs[j + 1]; }
    }
  }

  /** Lowering case keeps exactly the hexadecimal digits hexadecimal. */
  lemma LowerKeepsHex(id: string)
    ensures ValidObjectId(ObjectIdOf(id)) <==> ValidObjectId(id)
  {
    forall i | 0 <= i < |id|
      ensures IsHexDigit(ObjectIdOf(id)[i]) <==> IsHexDigit(id[i])
    {
      assert ObjectIdOf(id)[i] == LowerChar(id[i]);
    }
  }

  /**
   * Two ids that name the same ObjectId, such as one in upper-case and one
   * in lower-case hex, get the same answer from deleteTeam.
   */
  lemma SameObjectIdSameDelete(docs: seq<Doc>, a: string, b: string)
    requires ObjectIdOf(a) == ObjectIdOf(b)
    ensures DeleteResult(docs, a) == DeleteResult(docs, b)
  {
    LowerKeepsHex(a);
    LowerKeepsHex(b);
    var fa, fb := Find(docs, ById(a)), Find(docs, ById(b));
    if fa.Some? && fb.Some? {
      assert !(fa.value < fb.value) && !(fb.value < fa.value);
    }
  }

  /** The answer of getTeamById: the first team with that public id, or 404. */
  function TeamById(docs: seq<Doc>, tid: string): (r: Result<Team, ApiError>)
    ensures r.Ok? <==> exists i :: 0 <= i < |docs| && docs[i].team.teamId == Some(tid)
    ensures r.Ok? ==> r.value.teamId == Some(tid) && r.value in Teams(docs)
    ensures r.Err? ==> r.error == NotFound
  {
    match Find(docs, ByTeamId(tid))
    case None => Err(NotFound)
    case Some(k) =>
      assert Teams(docs)[k] == docs[k].team;
      Ok(docs[k].team)
  }

  /** After a successful delete, the deleted team's public id is no longer found. */
  lemma DeletedTeamIsGone(docs: seq<Doc>, id: string)
    requires DeleteResult(docs, id).Ok?
    requires UniqueKeys(Teams(docs)) && DeleteResult(docs, id).value.teamId.Some?
    ensures TeamById(RemoveAt(docs, Find(docs, ById(id)).value), DeleteResult(docs, id).value.teamId.value) == Err(NotFound)
  {
    var k := Find(docs, ById(id)).value;
    var rest := RemoveAt(docs, k);
    var tid := docs[k].team.teamId.value;
    forall i | 0 <= i < |rest| ensures rest[i].team.teamId != Some(tid) {
      if i < k {
        assert rest[i] == docs[i] && Teams(docs)[i].teamId != Teams(docs)[k].teamId;
      } else {
        assert rest[i] == docs[i + 1] && Teams(docs)[k].teamId != Teams(docs)[i + 1].teamId;
      }
    }
  }

  /** The order of `find().sort({ createdAt: -1 })`: newest first. */
  predicate NewestFirst(docs: seq<Doc>) {
    forall i, j :: 0 <= i < j < |docs| ==> docs[i].team.createdAt >= docs[j].team.createdAt
  }

  /** The newer of `d` and the first of a newest-first list. */
  function NewestTime(d: Doc, sorted: seq<Doc>): nat {
    if sorted == [] || d.team.createdAt >= sorted[0].team.createdAt then d.team.createdAt else sorted[0].team.createdAt
  }

  /** Insertion into a newest-first list: in front of the first document that is not newer. */
  function InsertNewest(d: Doc, sorted: seq<Doc>): (r: seq<Doc>)
    ensures |r| == |sorted| + 1
    ensures multiset(r) == multiset(sorted) + multiset{d}
  {
    if sorted == [] || d.team.createdAt >= sorted[0].team.createdAt then [d] + sorted
    else
      assert sorted == [sorted[0]] + sorted[1..];
      [sorted[0]] + InsertNewest(d, sorted[1..])
  }

  /** Inserting into a newest-first list keeps it newest first, and nothing in it is newer than the newer of the two. */
  lemma {:induction false} InsertNewestKeepsOrder(d: Doc, sorted: seq<Doc>)
    requires NewestFirst(sorted)
    ensures var r := InsertNewest(d, sorted);
      && NewestFirst(r)
      && forall j :: 0 <= j < |r| ==> r[j].team.createdAt <= NewestTime(d, sorted)
  {
    if sorted == [] || d.team.createdAt >= sorted[0].team.createdAt {
      assert forall j :: 0 <= j < |sorted| ==> sorted[j].team.createdAt <= sorted[0].team.createdAt;
      ConsNewest(d, sorted);
    } else {
      var rest := sorted[1..];
      assert NewestFirst(rest) by {
        forall i, j | 0 <= i < j < |rest| ensures rest[i].team.createdAt >= rest[j].team.createdAt {
          assert rest[i] == sorted[i + 1] && rest[j] == sorted[j + 1];
        }
      }
      InsertNewestKeepsOrder(d, rest);
      var tail := InsertNewest(d, rest);
      assert rest != [] ==> rest[0] == sorted[1];
      assert NewestTime(d, rest) <= sorted[0].team.createdAt;
      ConsNewest(sorted[0], tail);
      assert InsertNewest(d, sorted) == [sorted[0]] + tail;
    }
  }

  /** A document no older than any in a newest-first list can go in front of it. */
  lemma ConsNewest(d: Doc, s: seq<Doc>)
    requires NewestFirst(s) && forall j :: 0 <= j < |s| ==> s[j].team.createdAt <= d.team.createdAt
    ensures NewestFirst([d] + s)
  {
    var r := [d] + s;
    forall i, j | 0 <= i < j < |r| ensures r[i].team.createdAt >= r[j].team.createdAt {
      assert r[j] == s[j - 1];
      if i > 0 {
        assert r[i] == s[i - 1];
      }
    }
  }

  /** getAllTeams: every stored team, newest first. */
  function SortNewestFirst(docs: seq<Doc>): (r: seq<Doc>)
    ensures NewestFirst(r)
    ensures multiset(r) == multiset(docs)
    ensures |r| == |docs|
  {
    if docs == [] then []
    else
      assert docs == [docs[0]] + docs[1..];
      InsertNewestKeepsOrder(docs[0], SortNewestFirst(docs[1..]));
      InsertNewest(docs[0], SortNewestFirst(docs[1..]))
  }
}
