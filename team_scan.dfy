/**
 * The check-in and meal state machine that scanQRCode and updateFoodStatus
 * drive: a one-shot check-in from 'invalid' to 'valid', then meal toggles
 * that are only allowed once the team is checked in. No transition touches
 * qrData: the printed code stays valid for the team's whole life.
 */
module TeamScan {
  import opened Wrappers
  import opened TeamSchema
  import opened QrCodec
  import opened TeamRegistry
  import opened Http

  /** The team's foodStatus, with a missing one created all-'invalid' first. */
  function FoodOrDefault(t: Team): (f: FoodStatus)
    ensures t.foodStatus.Some? ==> f == t.foodStatus.value
    ensures t.foodStatus.None? ==> f == NoMealsServed
  {
    t.foodStatus.GetOr(NoMealsServed)
  }

  /** A meal toggle: the named meal flips, and nothing else about the team changes. */
  function ToggleMeal(t: Team, m: Meal): (u: Team)
    ensures u.foodStatus.Some?
    ensures u.foodStatus.value.Get(m) == Flip(FoodOrDefault(t).Get(m))
    ensures forall other :: other != m ==> u.foodStatus.value.Get(other) == FoodOrDefault(t).Get(other)
    ensures u == t.(foodStatus := u.foodStatus)
  {
    var f := FoodOrDefault(t);
    t.(foodStatus := Some(f.Set(m, Flip(f.Get(m)))))
  }

  /** What a scan with `action` does to a found team. */
  function ScanTransition(t: Team, action: string): Result<Team, ApiError> {
    if action == "check-in" then
      if t.status == Invalid then Ok(t.(status := Valid, foodStatus := Some(FoodOrDefault(t))))
      else Err(BadRequest(AlreadyCheckedIn))
    else match ParseMeal(action)
      case Some(m) => if t.status == Valid then Ok(ToggleMeal(t, m)) else Err(BadRequest(NotCheckedIn))
      case None => Err(BadRequest(InvalidAction))
  }

  /** The answer of scanQRCode: the payload is read first, then the team it names is looked up. */
  function ScanResult(docs: seq<Doc>, qrData: string, action: string): Result<Team, ApiError> {
    match DecodeTeamId(qrData)
    case None => Err(BadRequest(InvalidQrData))
    case Some(tid) =>
      match Find(docs, ByTeamId(tid))
      case None => Err(NotFound)
      case Some(k) => ScanTransition(docs[k].team, action)
  }

  /** The answer of updateFoodStatus: the food type is checked before the lookup. */
  function FoodStatusResult(docs: seq<Doc>, tid: string, foodType: string): Result<Team, ApiError> {
    match ParseMeal(foodType)
    case None => Err(BadRequest(InvalidFoodType))
    case Some(m) =>
      match Find(docs, ByTeamId(tid))
      case None => Err(NotFound)
      case Some(k) =>
        if docs[k].team.status != Valid then Err(BadRequest(NotCheckedIn)) else Ok(ToggleMeal(docs[k].team, m))
  }

  /**
   * Check-in from 'invalid' sets status 'valid', creates an all-'invalid'
   * foodStatus only when there is none, and changes nothing else.
   */
  lemma CheckInFromInvalid(t: Team)
    requires t.status == Invalid
    ensures ScanTransition(t, "check-in").Ok?
    ensures var u := ScanTransition(t, "check-in").value;
      && u.status == Valid
      && u.foodStatus == (if t.foodStatus.Some? then t.foodStatus else Some(NoMealsServed))
      && u == t.(status := Valid, foodStatus := u.foodStatus)
  {
  }

  /** Check-in is one-shot: a checked-in team is refused with 400, and so is a second check-in. */
  lemma CheckInOnce(t: Team)
    ensures t.status == Valid ==> ScanTransition(t, "check-in") == Err(BadRequest(AlreadyCheckedIn))
    ensures ScanTransition(t, "check-in").Ok? ==>
              ScanTransition(ScanTransition(t, "check-in").value, "check-in") == Err(BadRequest(AlreadyCheckedIn))
    ensures ScanTransition(t, "check-in").Ok? <==> t.status == Invalid
  {
  }

  /** A meal scan toggles exactly the named meal of a checked-in team and is refused before check-in. */
  lemma MealScan(t: Team, m: Meal)
    ensures t.status == Valid ==> ScanTransition(t, MealName(m)) == Ok(ToggleMeal(t, m))
    ensures t.status == Invalid ==> ScanTransition(t, MealName(m)) == Err(BadRequest(NotCheckedIn))
  {
  }

  /** Every action other than check-in and the three meals is refused with 400, 'allotment' among them. */
  lemma OtherActionsRejected(t: Team, action: string)
    requires action != "check-in" && action != "lunch" && action != "dinner" && action != "snacks"
    ensures ScanTransition(t, action) == Err(BadRequest(InvalidAction))
  {
  }

  lemma AllotmentIsNotAnAction(t: Team)
    ensures ScanTransition(t, "allotment") == Err(BadRequest(InvalidAction))
  {
    OtherActionsRejected(t, "allotment");
  }

  /**
   * A scan changes only status and foodStatus: qrData, teamId, name, leader,
   * members, allotment, the counters and createdAt are kept, and a
   * well-formed team stays well-formed.
   */
  lemma ScanKeepsTheRest(t: Team, action: string)
    requires ScanTransition(t, action).Ok?
    ensures var u := ScanTransition(t, action).value;
      && u == t.(status := u.status, foodStatus := u.foodStatus)
      && u.qrData == t.qrData && u.allotment == t.allotment
      && (WellFormed(t) ==> WellFormed(u))
  {
  }

  /** A meal is 'valid' after a scan only if the team was checked in or the meal already was. */
  lemma FoodOnlyAfterCheckIn(t: Team, action: string, m: Meal)
    requires ScanTransition(t, action).Ok? && t.status == Invalid
    ensures ScanTransition(t, action).value.foodStatus.value.Get(m) == FoodOrDefault(t).Get(m)
  {
  }

  /** Toggling one meal twice gives back its value; with a foodStatus present, the whole team. */
  lemma ToggleTwice(t: Team, m: Meal)
    ensures ToggleMeal(ToggleMeal(t, m), m).foodStatus.value.Get(m) == FoodOrDefault(t).Get(m)
    ensures t.foodStatus.Some? ==> ToggleMeal(ToggleMeal(t, m), m) == t
  {
    var f := FoodOrDefault(t);
    var u := ToggleMeal(t, m);
    var w := ToggleMeal(u, m);
    assert w.foodStatus.value.Get(m) == f.Get(m);
    if t.foodStatus.Some? {
      forall other ensures w.foodStatus.value.Get(other) == f.Get(other) {
      }
      assert w.foodStatus.value == f by {
        assert w.foodStatus.value.Get(Lunch) == f.Get(Lunch);
        assert w.foodStatus.value.Get(Dinner) == f.Get(Dinner);
        assert w.foodStatus.value.Get(Snacks) == f.Get(Snacks);
      }
    }
  }

  /** An unreadable payload is refused with 400 whatever the store holds. */
  lemma UnreadableQrRejected(docs: seq<Doc>, qrData: string, action: string)
    requires DecodeTeamId(qrData).None?
    ensures ScanResult(docs, qrData, action) == Err(BadRequest(InvalidQrData))
  {
  }

  /** A food type outside lunch, dinner and snacks is refused with 400 whatever the store holds. */
  lemma UnknownFoodTypeRejected(docs: seq<Doc>, tid: string, foodType: string)
    requires foodType != "lunch" && foodType != "dinner" && foodType != "snacks"
    ensures FoodStatusResult(docs, tid, foodType) == Err(BadRequest(InvalidFoodType))
  {
  }

  /** updateFoodStatus succeeds exactly for a known, checked-in team, and then toggles the meal. */
  lemma DirectToggle(docs: seq<Doc>, tid: string, m: Meal)
    ensures var r := FoodStatusResult(docs, tid, MealName(m));
      && (r.Ok? <==> Find(docs, ByTeamId(tid)).Some? && docs[Find(docs, ByTeamId(tid)).value].team.status == Valid)
      && (r.Ok? ==> r.value == ToggleMeal(docs[Find(docs, ByTeamId(tid)).value].team, m))
  {
  }

  /** For a meal, a scan and a direct update give the same answer. */
  lemma ScanAgreesWithDirectUpdate(docs: seq<Doc>, qrData: string, m: Meal)
    requires DecodeTeamId(qrData).Some?
    ensures ScanResult(docs, qrData, MealName(m)) == FoodStatusResult(docs, DecodeTeamId(qrData).value, MealName(m))
  {
  }

  /** Replacing a document by one with the same teamId leaves lookups by that teamId where they were. */
  lemma FindAfterReplace(docs: seq<Doc>, tid: string, d: Doc)
    requires Find(docs, ByTeamId(tid)).Some?
    requires d.team.teamId == Some(tid)
    ensures Find(docs[Find(docs, ByTeamId(tid)).value := d], ByTeamId(tid)) == Find(docs, ByTeamId(tid))
  {
    var k := Find(docs, ByTeamId(tid)).value;
    var s := docs[k := d];
    var r := Find(s, ByTeamId(tid));
    assert Matches(s[k], ByTeamId(tid));
    assert forall j :: 0 <= j < k ==> s[j] == docs[j];
    assert r.Some? && r.value <= k;
    assert r.value == k;
  }

  /** Applying updateFoodStatus twice restores the meal's original value. */
  lemma DirectToggleTwice(docs: seq<Doc>, tid: string, foodType: string)
    requires FoodStatusResult(docs, tid, foodType).Ok?
    ensures var k := Find(docs, ByTeamId(tid)).value;
      var u := FoodStatusResult(docs, tid, foodType).value;
      var again := FoodStatusResult(docs[k := Doc(docs[k].id, u)], tid, foodType);
      && again.Ok?
      && again.value.foodStatus.value.Get(ParseMeal(foodType).value) == FoodOrDefault(docs[k].team).Get(ParseMeal(foodType).value)
  {
    var m := ParseMeal(foodType).value;
    var k := Find(docs, ByTeamId(tid)).value;
    var u := FoodStatusResult(docs, tid, foodType).value;
    assert u == ToggleMeal(docs[k].team, m);
    FindAfterReplace(docs, tid, Doc(docs[k].id, u));
    ToggleTwice(docs[k].team, m);
  }

  /** The payload printed for a team names that team: its qrData reads back its own teamId. */
  ghost predicate QrNamesTeam(t: Team) {
    t.teamId.Some? && DecodeTeamId(t.qrData) == t.teamId
  }

  /**
   * Scanning the printed code of a stored team reaches that team, when
   * teamIds are unique and every code names its own team.
   */
  lemma ScanOfStoredCode(docs: seq<Doc>, k: nat, action: string)
    requires k < |docs| && QrNamesTeam(docs[k].team)
    requires forall i, j :: 0 <= i < j < |docs| ==> docs[i].team.teamId != docs[j].team.teamId
    ensures ScanResult(docs, docs[k].team.qrData, action) == ScanTransition(docs[k].team, action)
  {
    var tid := docs[k].team.teamId.value;
    assert Matches(docs[k], ByTeamId(tid));
    var r := Find(docs, ByTeamId(tid));
    assert r.Some?;
    assert docs[r.value].team.teamId == docs[k].team.teamId;
    assert r.value == k;
  }
}
