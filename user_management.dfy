/**
 * The staff accounts: admins create admin and volunteer accounts and list
 * them, never seeing a password. The file also holds the unrouted legacy
 * team creation, whose id rule (2501 + number of teams) predates the
 * registry's 25xx allocation.
 */
module UserManagement {
  import opened Wrappers
  import opened JsBuiltins
  import opened TeamSchema
  import opened TeamIds
  import opened TeamRegistry
  import opened Http

  datatype Role = Admin | Volunteer

  function RoleName(r: Role): string {
    match r
    case Admin => "admin"
    case Volunteer => "volunteer"
  }

  /** `['admin', 'volunteer'].includes(role)`, answering which role. */
  function ParseRole(s: Option<string>): (r: Option<Role>)
    ensures r.Some? <==> s == Some("admin") || s == Some("volunteer")
    ensures r.Some? ==> RoleName(r.value) == s.value
  {
    if s == Some("admin") then Some(Admin) else if s == Some("volunteer") then Some(Volunteer) else None
  }

  /** The authenticated account making the request (`req.user`). */
  datatype Caller = Caller(id: string, role: string)

  /** A stored account; `createdBy` is the id of the admin who created it. */
  datatype User = User(id: string, username: string, password: string, role: Role, createdBy: Option<string>)

  /** The body of createUser; a missing role is None. */
  datatype CreateUserBody = CreateUserBody(username: string, password: string, role: Option<string>)

  /** The data createUser answers with: id, username and role, and no password. */
  datatype Created = Created(id: string, username: string, role: Role)

  /** An account as `select('-password')` returns it. */
  datatype PublicUser = PublicUser(id: string, username: string, role: Role, createdBy: Option<string>)

  predicate UsernameTaken(users: seq<User>, username: string) {
    exists i | 0 <= i < |users| :: users[i].username == username
  }

  /** Usernames and ids are each held by at most one account. */
  ghost predicate UniqueUsers(users: seq<User>) {
    forall i, j :: 0 <= i < j < |users| ==> users[i].username != users[j].username && users[i].id != users[j].id
  }

  /** The account createUser stores. */
  function NewUser(caller: Caller, body: CreateUserBody, role: Role, newId: string): User {
    User(newId, body.username, body.password, role, Some(caller.id))
  }

  /** The answer of createUser: authorisation, then the role whitelist, then the duplicate check. */
  function CreateUserResult(users: seq<User>, caller: Caller, body: CreateUserBody, newId: string): Result<Created, ApiError> {
    if caller.role != "admin" then Err(Forbidden)
    else match ParseRole(body.role)
      case None => Err(BadRequest(InvalidRole))
      case Some(role) =>
        if UsernameTaken(users, body.username) then Err(BadRequest(UserExists))
        else Ok(Created(newId, body.username, role))
  }

  /**
   * The checks run in order: a non-admin gets 403 whatever the body says; an
   * admin with a role outside the whitelist gets 400 even for a taken
   * username; only then is the username checked. Success is exactly the case
   * where all three pass.
   */
  lemma CreateUserChecks(users: seq<User>, caller: Caller, body: CreateUserBody, newId: string)
    ensures var r := CreateUserResult(users, caller, body, newId);
      && (caller.role != "admin" ==> r == Err(Forbidden))
      && (caller.role == "admin" && body.role != Some("admin") && body.role != Some("volunteer") ==>
            r == Err(BadRequest(InvalidRole)))
      && (caller.role == "admin" && ParseRole(body.role).Some? && UsernameTaken(users, body.username) ==>
            r == Err(BadRequest(UserExists)))
      && (r.Ok? <==> caller.role == "admin" && ParseRole(body.role).Some? && !UsernameTaken(users, body.username))
      && (r.Ok? ==> r.value.id == newId && r.value.username == body.username && RoleName(r.value.role) == body.role.value)
  {
  }

  /** Once an account is created, creating one with the same username again is refused. */
  lemma CreateUserTwice(users: seq<User>, caller: Caller, body: CreateUserBody, newId: string,
                        caller2: Caller, body2: CreateUserBody, newId2: string)
    requires CreateUserResult(users, caller, body, newId).Ok?
    requires body2.username == body.username
    ensures var after := users + [NewUser(caller, body, CreateUserResult(users, caller, body, newId).value.role, newId)];
      CreateUserResult(after, caller2, body2, newId2).Err?
  {
    var after := users + [NewUser(caller, body, CreateUserResult(users, caller, body, newId).value.role, newId)];
    assert after[|users|].username == body2.username;
  }

  function Public(u: User): PublicUser {
    PublicUser(u.id, u.username, u.role, u.createdBy)
  }

  /** The answer of getAllUsers: 403 for a non-admin, otherwise every account without its password. */
  function AllUsers(users: seq<User>, caller: Caller): (r: Result<seq<PublicUser>, ApiError>)
    ensures r.Err? <==> caller.role != "admin"
    ensures r.Err? ==> r.error == Forbidden
    ensures r.Ok? ==> |r.value| == |users| && forall i :: 0 <= i < |users| ==>
      && r.value[i].id == users[i].id && r.value[i].username == users[i].username
      && r.value[i].role == users[i].role && r.value[i].createdBy == users[i].createdBy
  {
    if caller.role != "admin" then Err(Forbidden)
    else Ok(seq(|users|, i requires 0 <= i < |users| => Public(users[i])))
  }

  /**
   * After a successful createUser, an admin's listing is the old listing
   * plus the new account, which agrees with what createUser answered and
   * names its creator.
   */
  lemma ListingAfterCreate(users: seq<User>, caller: Caller, body: CreateUserBody, newId: string, viewer: Caller)
    requires CreateUserResult(users, caller, body, newId).Ok?
    requires viewer.role == "admin"
    ensures var c := CreateUserResult(users, caller, body, newId).value;
      var after := users + [NewUser(caller, body, c.role, newId)];
      && AllUsers(after, viewer) == Ok(AllUsers(users, viewer).value + [PublicUser(c.id, c.username, c.role, Some(caller.id))])
  {
    var c := CreateUserResult(users, caller, body, newId).value;
    var after := users + [NewUser(caller, body, c.role, newId)];
    var l := AllUsers(after, viewer).value;
    var expected := AllUsers(users, viewer).value + [PublicUser(c.id, c.username, c.role, Some(caller.id))];
    assert |l| == |expected|;
    forall i | 0 <= i < |l| ensures l[i] == expected[i] {
      if i < |users| {
        assert after[i] == users[i];
      } else {
        assert after[i] == NewUser(caller, body, c.role, newId);
      }
    }
    assert l == expected;
  }

  /** The account store; usernames and ids stay unique. */
  class UserStore {
    var users: seq<User>

    ghost predicate Valid()
      reads this
    {
      UniqueUsers(users)
    }

    constructor ()
      ensures Valid() && users == []
    {
      users := [];
    }

    /** `User.findOne({ username })`: whether an account already has this username. */
    method ExistsUsername(username: string) returns (found: bool)
      ensures found == UsernameTaken(users, username)
    {
      var i := 0;
      while i < |users|
        invariant 0 <= i <= |users|
        invariant forall j :: 0 <= j < i ==> users[j].username != username
      {
        if users[i].username == username {
          return true;
        }
        i := i + 1;
      }
      return false;
    }

    /**
     * createUser: a refused request stores nothing; an accepted one stores
     * exactly one account, with the given username, password and role,
     * created by the caller. `newId` is the id the database assigns.
     */
    method CreateUser(caller: Caller, body: CreateUserBody, newId: string) returns (r: Result<Created, ApiError>)
      requires Valid()
      requires forall i :: 0 <= i < |users| ==> users[i].id != newId
      modifies this
      ensures Valid()
      ensures r == CreateUserResult(old(users), caller, body, newId)
      ensures r.Ok? ==> users == old(users) + [NewUser(caller, body, r.value.role, newId)]
      ensures r.Err? ==> users == old(users)
    {
      if caller.role != "admin" {
        return Err(Forbidden);
      }
      var role := ParseRole(body.role);
      if role.None? {
        return Err(BadRequest(InvalidRole));
      }
      var taken := ExistsUsername(body.username);
      if taken {
        return Err(BadRequest(UserExists));
      }
      var u := NewUser(caller, body, role.value, newId);
      users := users + [u];
      r := Ok(Created(u.id, u.username, u.role));
    }
  }

  /** A member in the legacy body, whose college is called `college`. */
  datatype LegacyMemberJson = LegacyMemberJson(name: Option<string>, college: Option<string>, isFromIIITS: Option<bool>)

  datatype LegacyRequest = LegacyRequest(name: Option<string>, leader: Option<string>, members: ListInput<LegacyMemberJson>)

  /** `(2501 + count).toString()`. */
  function LegacyTeamId(count: nat): string {
    NatToString(2501 + count)
  }

  /**
   * While fewer than 99 teams exist, the legacy id is the 25xx id of the next
   * sequential number. The handler passes it as `id`, which the schema does
   * not declare, so it is dropped and never stored (see LegacyDraft).
   */
  lemma LegacyIdIsSequentialId(count: nat)
    requires count <= 98
    ensures LegacyTeamId(count) == FormatTeamId(count + 1)
  {
    var k := count + 1;
    var n := 2501 + count;
    assert n / 10 == 250 + k / 10 && n % 10 == k % 10;
    assert (n / 10) / 10 == 25 && (n / 10) % 10 == k / 10;
    assert NatToString(25) == "25";
    assert NatToString(n / 10) == "25" + [DigitChar(k / 10)];
    assert LegacyTeamId(count) == ['2', '5', DigitChar(k / 10), DigitChar(k % 10)];
    if k < 10 {
      assert NatToString(k) == [DigitChar(k)];
      assert FormatTeamId(k) == ['2', '5', '0', DigitChar(k)];
    } else {
      assert NatToString(k / 10) == [DigitChar(k / 10)];
      assert FormatTeamId(k) == ['2', '5', DigitChar(k / 10), DigitChar(k % 10)];
    }
  }

  /** `members.map(m => ({ name: m.name, collegeName: m.college, isFromIIITS: !!m.isFromIIITS }))`. */
  function LegacyMembers(ms: seq<LegacyMemberJson>): (r: seq<MemberJson>)
    ensures |r| == |ms|
    ensures forall i :: 0 <= i < |ms| ==>
      r[i].name == ms[i].name && r[i].collegeName == ms[i].college && r[i].isFromIIITS == Some(ToBool(ms[i].isFromIIITS))
  {
    seq(|ms|, i requires 0 <= i < |ms| => MemberJson(ms[i].name, ms[i].college, Some(ToBool(ms[i].isFromIIITS))))
  }

  /**
   * The document the legacy handler asks to create. `id` is not a path of
   * the schema and is dropped; no teamId and no qrData are given.
   */
  function LegacyDraft(req: LegacyRequest, ms: seq<LegacyMemberJson>, now: nat): TeamDraft {
    TeamDraft(None, req.name, req.leader, None, None, None, LegacyMembers(ms), Some("inactive"), None,
              Some(FoodJson(Some("invalid"), Some("invalid"), Some("invalid"))), None, now)
  }

  /** The legacy createTeam: `members.map` throws without an array, then the schema validates the document. */
  function LegacyCreateTeam(req: LegacyRequest, now: nat): Result<Team, ApiError> {
    match req.members
    case Missing => Err(ServerError(MissingMembers))
    case NotAList => Err(ServerError(MissingMembers))
    case List(ms) =>
      match Validate(LegacyDraft(req, ms, now))
      case None => Err(ServerError(ValidationFailed))
      case Some(t) => Ok(t)
  }

  /**
   * The legacy handler can never store a team: status 'inactive' is outside
   * the enum and qrData is required, so every request ends in a 500.
   */
  lemma LegacyCreateNeverSaves(req: LegacyRequest, now: nat)
    ensures LegacyCreateTeam(req, now).Err?
    ensures Code(LegacyCreateTeam(req, now).error) == 500
  {
    if req.members.List? {
      var d := LegacyDraft(req, req.members.items, now);
      assert CastFlag(d.status) == None;
    }
  }
}
