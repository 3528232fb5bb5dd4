/**
 * The team handlers as they run against the store: each loads documents,
 * assigns fields of the loaded team and saves or deletes it. Every method is
 * proved to give the answer of its specification function in TeamRegistry or
 * TeamScan and to leave the store exactly as that answer says.
 */
module TeamController {
  import opened Wrappers
  import opened JsBuiltins
  import opened TeamSchema
  import opened TeamIds
  import opened QrCodec
  import opened Http
  import opened TeamRegistry
  import opened TeamScan

  /** What holds of every stored team: the schema's rules, a 25xx number from 1 up, and a code naming it. */
  ghost predicate Stored(t: Team) {
    WellFormed(t) && NumberOf(t).Some? && NumberOf(t).value >= 1 && QrNamesTeam(t)
  }

  /** The unique indexes still hold when the team at `k` is replaced by one that clashes with no other. */
  lemma UniqueAfterReplace(docs: seq<Doc>, k: nat, u: Team)
    requires k < |docs| && UniqueKeys(Teams(docs)) && !ClashesOthers(docs, k, u)
    ensures UniqueKeys(Teams(docs[k := Doc(docs[k].id, u)]))
  {
    var s := Teams(docs[k := Doc(docs[k].id, u)]);
    forall i, j | 0 <= i < j < |s| ensures s[i].teamId != s[j].teamId && s[i].name != s[j].name {
      if i == k {
        assert s[j] == docs[j].team;
      } else if j == k {
        assert s[i] == docs[i].team;
      } else {
        assert s[i] == Teams(docs)[i] && s[j] == Teams(docs)[j];
      }
    }
  }

  lemma UniqueAfterRemove(docs: seq<Doc>, k: nat)
    requires k < |docs| && UniqueKeys(Teams(docs))
    ensures UniqueKeys(Teams(RemoveAt(docs, k)))
  {
    var r := RemoveAt(docs, k);
    var s := Teams(r);
    forall i, j | 0 <= i < j < |s| ensures s[i].teamId != s[j].teamId && s[i].name != s[j].name {
      var i' := if i < k then i else i + 1;
      var j' := if j < k then j else j + 1;
      assert s[i] == Teams(docs)[i'] && s[j] == Teams(docs)[j'];
    }
  }

  /** The elements of a sequence. */
  ghost function Elements(s: seq<nat>): (r: set<nat>)
    ensures forall x :: x in r <==> x in s
  {
    if s == [] then {} else {s[0]} + Elements(s[1..])
  }

  /** A sequence without repeats has as many elements as entries. */
  lemma {:induction false} DistinctElements(s: seq<nat>)
    requires forall i, j :: 0 <= i < j < |s| ==> s[i] != s[j]
    ensures |Elements(s)| == |s|
  {
    if s != [] {
      DistinctElements(s[1..]);
      assert s[0] !in s[1..];
    }
  }

  lemma {:induction false} SubsetCard(a: set<nat>, b: set<nat>)
    requires a <= b
    ensures |a| <= |b|
    decreases a
  {
    if a != {} {
      var x :| x in a;
      SubsetCard(a - {x}, b - {x});
    }
  }

  /** The numbers 1 up to n. */
  ghost function UpTo(n: nat): (r: set<nat>)
    ensures |r| == n
    ensures forall x :: x in r <==> 1 <= x <= n
  {
    if n == 0 then {} else
      var prev := UpTo(n - 1);
      assert n !in prev;
      prev + {n}
  }

  /**
   * Internal ids of the right shape naming distinct ObjectIds, the unique
   * indexes, and every team Stored.
   */
  ghost predicate ValidDocs(docs: seq<Doc>) {
    && (forall i, j :: 0 <= i < j < |docs| ==> ObjectIdOf(docs[i].id) != ObjectIdOf(docs[j].id))
    && (forall i :: 0 <= i < |docs| ==> ValidObjectId(docs[i].id))
    && UniqueKeys(Teams(docs))
    && (forall i :: 0 <= i < |docs| ==> Stored(docs[i].team))
  }

  lemma AppendKeepsValid(docs: seq<Doc>, d: Doc)
    requires ValidDocs(docs) && ValidObjectId(d.id) && Stored(d.team)
    requires (forall i :: 0 <= i < |docs| ==> ObjectIdOf(docs[i].id) != ObjectIdOf(d.id)) && !Clashes(Teams(docs), d.team)
    ensures ValidDocs(docs + [d])
  {
    UniqueAfterInsert(Teams(docs), d.team);
    assert Teams(docs + [d]) == Teams(docs) + [d.team];
    var s := docs + [d];
    assert forall i :: 0 <= i < |docs| ==> s[i] == docs[i];
  }

  /** A team that keeps its teamId and name clashes with no other stored team. */
  lemma SameKeysNoClash(docs: seq<Doc>, k: nat, u: Team)
    requires ValidDocs(docs) && k < |docs|
    requires u.teamId == docs[k].team.teamId && u.name == docs[k].team.name
    ensures !ClashesOthers(docs, k, u)
  {
    forall i | 0 <= i < |docs| && i != k
      ensures docs[i].team.teamId != u.teamId && docs[i].team.name != u.name
    {
      if i < k {
        assert Teams(docs)[i].teamId != Teams(docs)[k].teamId && Teams(docs)[i].name != Teams(docs)[k].name;
      } else {
        assert Teams(docs)[k].teamId != Teams(docs)[i].teamId && Teams(docs)[k].name != Teams(docs)[i].name;
      }
    }
  }

  lemma ReplaceKeepsValid(docs: seq<Doc>, k: nat, u: Team)
    requires ValidDocs(docs) && k < |docs| && Stored(u) && !ClashesOthers(docs, k, u)
    ensures ValidDocs(docs[k := Doc(docs[k].id, u)])
  {
    UniqueAfterReplace(docs, k, u);
  }

  lemma RemoveKeepsValid(docs: seq<Doc>, k: nat)
    requires ValidDocs(docs) && k < |docs|
    ensures ValidDocs(RemoveAt(docs, k))
  {
    UniqueAfterRemove(docs, k);
    var r := RemoveAt(docs, k);
    forall i, j | 0 <= i < j < |r| ensures ObjectIdOf(r[i].id) != ObjectIdOf(r[j].id) {
      var i' := if i < k then i else i + 1;
      var j' := if j < k then j else j + 1;
      assert r[i] == docs[i'] && r[j] == docs[j'];
    }
  }

  /** The store: every team document, in insertion (natural) order. */
  class TeamStore {
    var docs: seq<Doc>

    ghost predicate Valid()
      reads this
    {
      ValidDocs(docs)
    }

    constructor ()
      ensures Valid() && docs == []
    {
      docs := [];
    }

    /** The 25xx band holds at most 99 teams: a store never grows past that. */
    lemma AtMostCapacity()
      requires Valid()
      ensures |docs| <= Capacity
    {
      var ds := docs;
      var ns: seq<nat> := seq(|ds|, i requires 0 <= i < |ds| => NumberOf(ds[i].team).value);
      forall i, j | 0 <= i < j < |docs| ensures ns[i] != ns[j] {
        assert Teams(docs)[i].teamId != Teams(docs)[j].teamId;
        assert ns[i] == NumberOf(docs[i].team).value && ns[j] == NumberOf(docs[j].team).value;
        FormatOfNumber(docs[i].team.teamId.value);
        FormatOfNumber(docs[j].team.teamId.value);
      }
      DistinctElements(ns);
      var all := UpTo(Capacity);
      SubsetCard(Elements(ns), all);
    }

    /** A `findOne` / `findById`: the first matching document in natural order. */
    method FindTeam(key: Key) returns (r: Option<nat>)
      ensures r == Find(docs, key)
    {
      var i := 0;
      while i < |docs|
        invariant 0 <= i <= |docs|
        invariant FindFrom(docs, key, i) == Find(docs, key)
      {
        if Matches(docs[i], key) {
          return Some(i);
        }
        i := i + 1;
      }
      return None;
    }

    /** The number of the last team the descending teamId query finds. */
    method LastTeamNumber() returns (last: Option<nat>)
      ensures last == MaxTeamNumber(docs)
    {
      last := None;
      var i := 0;
      while i < |docs|
        invariant 0 <= i <= |docs|
        invariant last == MaxTeamNumber(docs[..i])
      {
        assert docs[..i + 1][..i] == docs[..i];
        last := MaxOpt(last, NumberOf(docs[i].team));
        i := i + 1;
      }
      assert docs[..|docs|] == docs;
    }

    /** createTeam: `oid` is the fresh internal id the database gives the new document. */
    method CreateTeam(req: CreateRequest, oid: string, now: nat, nowIso: string) returns (r: Result<Team, ApiError>)
      requires Valid() && ValidObjectId(oid) && forall i :: 0 <= i < |docs| ==> ObjectIdOf(docs[i].id) != ObjectIdOf(oid)
      modifies this
      ensures Valid()
      ensures r == CreateResult(old(docs), req, now, nowIso)
      ensures r.Ok? ==> docs == old(docs) + [Doc(oid, r.value)]
      ensures r.Err? ==> docs == old(docs)
    {
      if !HasRequiredFields(req) {
        return Err(BadRequest(MissingFields));
      }
      var last := LastTeamNumber();
      var next := NextNumber(last);
      if next > Capacity {
        return Err(InsufficientStorage);
      }
      var tid := FormatTeamId(next);
      var existing := FindTeam(ByTeamId(tid));
      if existing.Some? {
        return Err(ServerError(IdCollision));
      }
      var qr := Encode(CreatePayload(tid, req, nowIso));
      var saved := NewTeam(tid, req, now, qr);
      if saved.None? {
        return Err(BadRequest(ValidationFailed));
      }
      var t := saved.value;
      if Clashes(Teams(docs), t) {
        return Err(BadRequest(DuplicateKey));
      }
      NumberOfFormat(next);
      DecodeTeamIdOfEncode(CreatePayload(tid, req, nowIso));
      AppendKeepsValid(docs, Doc(oid, t));
      docs := docs + [Doc(oid, t)];
      r := Ok(t);
    }

    /** updateTeam for the team with public id `tid`: the handler's checks, the assignments, then the save. */
    method UpdateTeam(tid: string, req: UpdateRequest) returns (r: Result<Team, ApiError>)
      requires Valid()
      modifies this
      ensures Valid()
      ensures r == UpdateResult(old(docs), tid, req)
      ensures r.Ok? ==> (Find(old(docs), ByTeamId(tid)).Some? &&
        var k := Find(old(docs), ByTeamId(tid)).value;
        docs == old(docs)[k := Doc(old(docs)[k].id, r.value)])
      ensures r.Err? ==> docs == old(docs)
    {
      var found := FindTeam(ByTeamId(tid));
      if found.None? {
        return Err(NotFound);
      }
      var k := found.value;
      var check := UpdateCheck(req);
      if check.Some? {
        return Err(BadRequest(check.value));
      }
      var t := docs[k].team;
      var d := ToDraft(t);
      d := d.(name := req.name, leader := req.leader);
      if Truthy(req.status) {
        d := d.(status := req.status);
      }
      if req.members.List? {
        d := d.(members := Coerced(req.members.items));
      }
      if req.foodStatus.Some? {
        d := d.(foodStatus := req.foodStatus);
      }
      assert d == Patch(t, req);
      var saved := Validate(d);
      if saved.None? {
        return Err(ServerError(SaveFailed));
      }
      var u := saved.value;
      if ClashesOthers(docs, k, u) {
        return Err(ServerError(SaveFailed));
      }
      UpdateOverwrites(docs, tid, req);
      ReplaceKeepsValid(docs, k, u);
      docs := docs[k := Doc(docs[k].id, u)];
      r := Ok(u);
    }

    /** deleteTeam, keyed by internal id. */
    method DeleteTeam(id: string) returns (r: Result<Team, ApiError>)
      requires Valid()
      modifies this
      ensures Valid()
      ensures r == DeleteResult(old(docs), id)
      ensures r.Ok? ==> Find(old(docs), ById(id)).Some? && docs == RemoveAt(old(docs), Find(old(docs), ById(id)).value)
      ensures r.Err? ==> docs == old(docs)
    {
      if !ValidObjectId(id) {
        return Err(BadRequest(InvalidIdFormat));
      }
      var found := FindTeam(ById(id));
      if found.None? {
        return Err(NotFound);
      }
      var k := found.value;
      var t := docs[k].team;
      RemoveKeepsValid(docs, k);
      docs := RemoveAt(docs, k);
      r := Ok(t);
    }

    /**
     * scanQRCode: read the teamId from the payload, find the team, apply the
     * action to it in place and save it. Saving a well-formed team cannot
     * fail (ValidateResave), and only status and foodStatus change.
     */
    method ScanQRCode(qrData: string, action: string) returns (r: Result<Team, ApiError>)
      requires Valid()
      modifies this
      ensures Valid()
      ensures r == ScanResult(old(docs), qrData, action)
      ensures r.Ok? ==> (DecodeTeamId(qrData).Some? && Find(old(docs), ByTeamId(DecodeTeamId(qrData).value)).Some? &&
        var k := Find(old(docs), ByTeamId(DecodeTeamId(qrData).value)).value;
        docs == old(docs)[k := Doc(old(docs)[k].id, r.value)])
      ensures r.Err? ==> docs == old(docs)
    {
      var tid := DecodeTeamId(qrData);
      if tid.None? {
        return Err(BadRequest(InvalidQrData));
      }
      var found := FindTeam(ByTeamId(tid.value));
      if found.None? {
        return Err(NotFound);
      }
      var k := found.value;
      var t := docs[k].team;
      var old_t := t;
      if action == "check-in" {
        if t.status == Invalid {
          t := t.(status := Flag.Valid);
          if t.foodStatus.None? {
            t := t.(foodStatus := Some(NoMealsServed));
          }
        } else {
          return Err(BadRequest(AlreadyCheckedIn));
        }
      } else if ParseMeal(action).Some? {
        if t.status == Flag.Valid {
          if t.foodStatus.None? {
            t := t.(foodStatus := Some(NoMealsServed));
          }
          var m := ParseMeal(action).value;
          var f := t.foodStatus.value;
          t := t.(foodStatus := Some(f.Set(m, if f.Get(m) == Invalid then Flag.Valid else Invalid)));
        } else {
          return Err(BadRequest(NotCheckedIn));
        }
      } else {
        return Err(BadRequest(InvalidAction));
      }
      assert ScanTransition(old_t, action) == Ok(t);
      ScanKeepsTheRest(old_t, action);
      assert Validate(ToDraft(t)) == Some(t) by { ValidateResave(t); }
      SameKeysNoClash(docs, k, t);
      ReplaceKeepsValid(docs, k, t);
      docs := docs[k := Doc(docs[k].id, t)];
      r := Ok(t);
    }

    /** updateFoodStatus: toggle one meal of a checked-in team directly. */
    method UpdateFoodStatus(tid: string, foodType: string) returns (r: Result<Team, ApiError>)
      requires Valid()
      modifies this
      ensures Valid()
      ensures r == FoodStatusResult(old(docs), tid, foodType)
      ensures r.Ok? ==> (Find(old(docs), ByTeamId(tid)).Some? &&
        var k := Find(old(docs), ByTeamId(tid)).value;
        docs == old(docs)[k := Doc(old(docs)[k].id, r.value)])
      ensures r.Err? ==> docs == old(docs)
    {
      var meal := ParseMeal(foodType);
      if meal.None? {
        return Err(BadRequest(InvalidFoodType));
      }
      var found := FindTeam(ByTeamId(tid));
      if found.None? {
        return Err(NotFound);
      }
      var k := found.value;
      var t := docs[k].team;
      var old_t := t;
      if t.status != Flag.Valid {
        return Err(BadRequest(NotCheckedIn));
      }
      if t.foodStatus.None? {
        t := t.(foodStatus := Some(NoMealsServed));
      }
      var f := t.foodStatus.value;
      t := t.(foodStatus := Some(f.Set(meal.value, if f.Get(meal.value) == Invalid then Flag.Valid else Invalid)));
      assert t == ToggleMeal(old_t, meal.value);
      assert Validate(ToDraft(t)) == Some(t) by { ValidateResave(t); }
      SameKeysNoClash(docs, k, t);
      ReplaceKeepsValid(docs, k, t);
      docs := docs[k := Doc(docs[k].id, t)];
      r := Ok(t);
    }
  }
}
