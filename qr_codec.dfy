/**
 * The QR payload: the snapshot of a team that createTeam serialises once,
 * stores as qrData and prints, and that a scan decodes to find the team
 * again. JSON text is replaced by a simpler text format with the same role:
 * each field is escaped ('\' and ';' get a '\' in front) and ended by ';'.
 */
module QrCodec {
  import opened Wrappers
  import opened TeamSchema

  /** The object createTeam serialises: teamId, teamName, leader, members, status, foodStatus, createdAt. */
  datatype QrPayload = QrPayload(
    teamId: string,
    teamName: string,
    leader: string,
    members: seq<Member>,
    status: Flag,
    foodStatus: FoodStatus,
    createdAt: string)

  function EscapeChar(c: char): string {
    if c == '\\' || c == ';' then ['\\', c] else [c]
  }

  function Escape(s: string): string {
    if s == [] then [] else EscapeChar(s[0]) + Escape(s[1..])
  }

  /** Every field, escaped and terminated. */
  function Join(fields: seq<string>): string {
    if fields == [] then [] else Escape(fields[0]) + ";" + Join(fields[1..])
  }

  /** Reads one field up to its unescaped terminator; None when there is none or an escape is cut off. */
  function ReadField(s: string): (r: Option<(string, string)>)
    ensures r.Some? ==> |r.value.1| < |s|
  {
    if s == [] then None
    else if s[0] == ';' then Some(([], s[1..]))
    else if s[0] == '\\' then
      if |s| < 2 then None
      else match ReadField(s[2..])
        case None => None
        case Some(p) => Some(([s[1]] + p.0, p.1))
    else match ReadField(s[1..])
      case None => None
      case Some(p) => Some(([s[0]] + p.0, p.1))
  }

  /** Splits a whole payload into its fields; None when any field is malformed. */
  function Split(s: string): Option<seq<string>>
    decreases |s|
  {
    if s == [] then Some([])
    else match ReadField(s)
      case None => None
      case Some(p) =>
        match Split(p.1)
        case None => None
        case Some(fs) => Some([p.0] + fs)
  }

  /** Reading an escaped, terminated field gives back the field and what follows it. */
  lemma {:induction false} ReadEscaped(f: string, rest: string)
    ensures ReadField(Escape(f) + ";" + rest) == Some((f, rest))
  {
    if f != [] {
      var t := Escape(f[1..]) + ";" + rest;
      ReadEscaped(f[1..], rest);
      assert Escape(f) + ";" + rest == EscapeChar(f[0]) + t;
      var s := EscapeChar(f[0]) + t;
      if f[0] == '\\' || f[0] == ';' {
        assert s[2..] == t;
      } else {
        assert s[1..] == t;
      }
      assert [f[0]] + f[1..] == f;
    }
  }

  /** Splitting joined fields gives back the fields. */
  lemma {:induction false} SplitJoin(fields: seq<string>)
    ensures Split(Join(fields)) == Some(fields)
  {
    if fields != [] {
      var s := Join(fields);
      var rest := Join(fields[1..]);
      assert s == Escape(fields[0]) + ";" + rest;
      ReadEscaped(fields[0], rest);
      SplitJoin(fields[1..]);
      assert [fields[0]] + fields[1..] == fields;
    } else {
      assert Join(fields) == [];
    }
  }

  /** A text with no ';' at all holds no complete field. */
  lemma {:induction false} NoTerminatorNoField(s: string)
    requires forall i :: 0 <= i < |s| ==> s[i] != ';'
    ensures ReadField(s) == None
    decreases |s|
  {
    if s != [] {
      if s[0] == '\\' {
        if |s| >= 2 {
          NoTerminatorNoField(s[2..]);
        }
      } else {
        NoTerminatorNoField(s[1..]);
      }
    }
  }

  function BoolName(b: bool): string {
    if b then "true" else "false"
  }

  function ParseBool(s: string): Option<bool> {
    if s == "true" then Some(true) else if s == "false" then Some(false) else None
  }

  function MemberFields(ms: seq<Member>): seq<string> {
    if ms == [] then []
    else [ms[0].name, ms[0].collegeName, BoolName(ms[0].isFromIIITS)] + MemberFields(ms[1..])
  }

  function ParseMembers(fs: seq<string>): Option<seq<Member>>
    decreases |fs|
  {
    if fs == [] then Some([])
    else if |fs| < 3 then None
    else
      var flag := ParseBool(fs[2]);
      var tail := ParseMembers(fs[3..]);
      if flag.Some? && tail.Some? then Some([Member(fs[0], fs[1], flag.value)] + tail.value) else None
  }

  /** The payload's fields in order: the seven scalar fields, then three per member. */
  function Fields(p: QrPayload): seq<string> {
    [p.teamId, p.teamName, p.leader, FlagName(p.status),
     FlagName(p.foodStatus.lunch), FlagName(p.foodStatus.dinner), FlagName(p.foodStatus.snacks),
     p.createdAt] + MemberFields(p.members)
  }

  function FromFields(fs: seq<string>): Option<QrPayload> {
    if |fs| < 8 then None
    else
      var status := ParseFlag(fs[3]);
      var lunch := ParseFlag(fs[4]);
      var dinner := ParseFlag(fs[5]);
      var snacks := ParseFlag(fs[6]);
      var members := ParseMembers(fs[8..]);
      if status.Some? && lunch.Some? && dinner.Some? && snacks.Some? && members.Some? then
        Some(QrPayload(fs[0], fs[1], fs[2], members.value, status.value,
                       FoodStatus(lunch.value, dinner.value, snacks.value), fs[7]))
      else None
  }

  /** `JSON.stringify(qrDataObject)`. */
  function Encode(p: QrPayload): string {
    Join(Fields(p))
  }

  /** `JSON.parse(qrData)` read back as a whole payload. */
  function Decode(s: string): Option<QrPayload> {
    match Split(s)
    case None => None
    case Some(fs) => FromFields(fs)
  }

  /** What a scan reads: only the teamId, the first field; every other embedded field is ignored. */
  function DecodeTeamId(s: string): Option<string> {
    match Split(s)
    case Some(fs) => if |fs| >= 1 then Some(fs[0]) else None
    case None => None
  }

  lemma {:induction false} ParseMemberFields(ms: seq<Member>)
    ensures ParseMembers(MemberFields(ms)) == Some(ms)
  {
    if ms != [] {
      var fs := MemberFields(ms);
      assert fs[3..] == MemberFields(ms[1..]);
      ParseMemberFields(ms[1..]);
      assert ParseBool(fs[2]) == Some(ms[0].isFromIIITS);
      assert [Member(fs[0], fs[1], ms[0].isFromIIITS)] + ms[1..] == ms;
    }
  }

  /** Decoding an encoded payload gives back the whole payload. */
  lemma DecodeEncode(p: QrPayload)
    ensures Decode(Encode(p)) == Some(p)
  {
    var fs := Fields(p);
    SplitJoin(fs);
    assert fs[8..] == MemberFields(p.members);
    ParseMemberFields(p.members);
    ParseFlagName(p.status);
    ParseFlagName(p.foodStatus.lunch);
    ParseFlagName(p.foodStatus.dinner);
    ParseFlagName(p.foodStatus.snacks);
  }

  /** A scan of an encoded payload recovers exactly the teamId it was made with. */
  lemma DecodeTeamIdOfEncode(p: QrPayload)
    ensures DecodeTeamId(Encode(p)) == Some(p.teamId)
  {
    SplitJoin(Fields(p));
  }

  /** Whenever the whole payload decodes, the teamId a scan reads is the payload's teamId. */
  lemma DecodeTeamIdAgrees(s: string)
    requires Decode(s).Some?
    ensures DecodeTeamId(s) == Some(Decode(s).value.teamId)
  {
  }

  /** Text without any field terminator is rejected as invalid QR data. */
  lemma UnterminatedRejected(s: string)
    requires s != [] && forall i :: 0 <= i < |s| ==> s[i] != ';'
    ensures DecodeTeamId(s) == None && Decode(s) == None
  {
    NoTerminatorNoField(s);
  }
}
