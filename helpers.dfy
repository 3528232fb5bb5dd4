/** The front end's small string and form helpers. */
module Helpers {
  import opened Wrappers
  import opened JsBuiltins

  /** A UTF-16 code unit: what a JavaScript string's `length` counts and `slice` cuts. */
  newtype CodeUnit = x: int | 0 <= x < 0x1_0000

  /** A JavaScript string: a sequence of UTF-16 code units. */
  type JsString = seq<CodeUnit>

  /** The UTF-16 form of one character: one unit below U+10000, otherwise a surrogate pair. */
  function EncodeChar(c: char): (u: JsString)
    ensures 1 <= |u| <= 2
  {
    var v := c as int;
    if v < 0x1_0000 then [v as CodeUnit]
    else [(0xD800 + (v - 0x1_0000) / 0x400) as CodeUnit, (0xDC00 + (v - 0x1_0000) % 0x400) as CodeUnit]
  }

  /** The JavaScript string holding the characters of `s`. */
  function Utf16(s: string): (u: JsString)
    ensures |s| <= |u| <= 2 * |s|
  {
    if s == [] then [] else EncodeChar(s[0]) + Utf16(s[1..])
  }

  /** '...' */
  const Ellipsis: JsString := [46, 46, 46]

  /** truncateText's default maxLength. */
  const DefaultMaxLength: nat := 100

  /**
   * `truncateText(text, maxLength)`: '' for a missing or empty text, the
   * text itself when it fits, otherwise its first maxLength code units and
   * an ellipsis.
   */
  function TruncateText(text: Option<JsString>, maxLength: nat): (r: JsString)
    ensures text.None? || text == Some([]) ==> r == []
    ensures text.Some? && |text.value| <= maxLength ==> r == text.value
    ensures text.Some? && |text.value| > maxLength ==>
      |r| == maxLength + 3 && r[..maxLength] == text.value[..maxLength] && r[maxLength..] == Ellipsis
  {
    if text.None? || text.value == [] then []
    else if |text.value| <= maxLength then text.value
    else text.value[..maxLength] + Ellipsis
  }

  /** The result never exceeds maxLength + 3, and what it keeps of the text is a prefix of it. */
  lemma TruncateBounds(text: Option<JsString>, maxLength: nat)
    ensures var r := TruncateText(text, maxLength);
      && |r| <= maxLength + 3
      && (text.Some? ==> exists n :: 0 <= n <= |text.value| && (r == text.value[..n] || r == text.value[..n] + Ellipsis))
  {
    var r := TruncateText(text, maxLength);
    if text.Some? {
      if text.value == [] {
        assert r == text.value[..0];
      } else if |text.value| <= maxLength {
        assert r == text.value[..|text.value|];
      } else {
        assert r == text.value[..maxLength] + Ellipsis;
      }
    }
  }

  /** Truncating a truncated text again changes nothing. */
  lemma TruncateIdempotent(text: Option<JsString>, maxLength: nat)
    ensures TruncateText(Some(TruncateText(text, maxLength)), maxLength) == TruncateText(text, maxLength)
  {
    var r := TruncateText(text, maxLength);
    if text.Some? && text.value != [] && |text.value| > maxLength {
      assert r[..maxLength] + Ellipsis == r;
    }
  }

  /**
   * Lengths are counted in code units, so a text of two emoji is four long
   * and a cut at 3 falls between the two halves of the second one.
   */
  lemma TruncateCountsCodeUnits()
    ensures Utf16("\U{1F600}\U{1F600}") == [0xD83D, 0xDE00, 0xD83D, 0xDE00]
    ensures TruncateText(Some(Utf16("\U{1F600}\U{1F600}")), 3) == [0xD83D, 0xDE00, 0xD83D] + Ellipsis
  {
    assert EncodeChar('\U{1F600}') == [0xD83D, 0xDE00];
    assert Utf16("\U{1F600}\U{1F600}") == EncodeChar('\U{1F600}') + Utf16("\U{1F600}");
  }

  /** A string with no whitespace and no '@': every character is in [^\s@]. */
  predicate Plain(s: string) {
    forall k :: 0 <= k < |s| ==> !IsWhitespace(s[k]) && s[k] != '@'
  }

  /**
   * The language of /^[^\s@]+@[^\s@]+\.[^\s@]+$/: an '@' at i and a '.' at
   * j split the text into three non-empty runs of [^\s@].
   */
  ghost predicate EmailShape(s: string) {
    exists i, j :: ShapeAt(s, i, j)
  }

  /** The '@' is at i and the '.' at j, and the three runs around them are non-empty and plain. */
  predicate ShapeAt(s: string, i: int, j: int) {
    && 0 < i && i + 1 < j && j + 1 < |s| && s[i] == '@' && s[j] == '.'
    && Plain(s[..i]) && Plain(s[i + 1..j]) && Plain(s[j + 1..])
  }

  /** `s.indexOf(c)`: the first position of `c`. */
  function IndexOf(s: string, c: char): (r: Option<nat>)
    ensures r.Some? ==> r.value < |s| && s[r.value] == c && forall k :: 0 <= k < r.value ==> s[k] != c
    ensures r.None? ==> forall k :: 0 <= k < |s| ==> s[k] != c
  {
    if s == [] then None
    else if s[0] == c then Some(0)
    else match IndexOf(s[1..], c)
      case None => None
      case Some(k) => Some(k + 1)
  }

  /**
   * `isValidEmail(email)`, decided in one pass: the first '@' starts the
   * domain; the local part must be non-empty, nothing may be whitespace, no
   * second '@' may follow, and the domain needs a '.' that is neither its
   * first nor its last character.
   */
  function IsValidEmail(email: string): bool {
    match IndexOf(email, '@')
    case None => false
    case Some(i) =>
      var domain := email[i + 1..];
      && i > 0 && Plain(email[..i]) && Plain(domain) && |domain| >= 3
      && IndexOf(domain[1..|domain| - 1], '.').Some?
  }

  /** A piece of a plain string is plain. */
  lemma PlainSlice(s: string, a: nat, b: nat)
    requires Plain(s) && a <= b <= |s|
    ensures Plain(s[a..b])
  {
    forall k | 0 <= k < b - a ensures !IsWhitespace(s[a..b][k]) && s[a..b][k] != '@' {
      assert s[a..b][k] == s[a + k];
    }
  }

  /** Everything the scan accepts has the shape of the regular expression. */
  lemma AcceptedHasShape(email: string)
    requires IsValidEmail(email)
    ensures EmailShape(email)
  {
    var i := IndexOf(email, '@').value;
    var domain := email[i + 1..];
    var p := IndexOf(domain[1..|domain| - 1], '.').value;
    var j := i + 2 + p;
    assert email[j] == domain[p + 1] == '.';
    assert email[i + 1..j] == domain[..p + 1];
    assert email[j + 1..] == domain[p + 2..];
    PlainSlice(domain, 0, p + 1);
    PlainSlice(domain, p + 2, |domain|);
    assert ShapeAt(email, i, j);
  }

  /** Two plain strings joined by a '.' are plain. */
  lemma PlainJoin(host: string, tld: string)
    requires Plain(host) && Plain(tld)
    ensures Plain(host + "." + tld)
  {
    var d := host + "." + tld;
    forall k | 0 <= k < |d| ensures !IsWhitespace(d[k]) && d[k] != '@' {
      if k < |host| {
        assert d[k] == host[k];
      } else if k > |host| {
        assert d[k] == tld[k - |host| - 1];
      }
    }
  }

  /** With a plain text before it, an '@' is the first one. */
  lemma FirstAt(email: string, i: nat)
    requires i < |email| && email[i] == '@' && Plain(email[..i])
    ensures IndexOf(email, '@') == Some(i)
  {
    forall k | 0 <= k < i ensures email[k] != '@' {
      assert email[..i][k] == email[k];
    }
  }

  /** Everything of the regular expression's shape is accepted by the scan. */
  lemma ShapeIsAccepted(email: string, i: int, j: int)
    requires ShapeAt(email, i, j)
    ensures IsValidEmail(email)
  {
    FirstAt(email, i);
    var domain := email[i + 1..];
    assert domain == email[i + 1..j] + "." + email[j + 1..];
    PlainJoin(email[i + 1..j], email[j + 1..]);
    var inner := domain[1..|domain| - 1];
    assert inner[j - i - 2] == '.';
  }

  /** The scan accepts exactly the language of the regular expression. */
  lemma IsValidEmailMatchesRegex(email: string)
    ensures IsValidEmail(email) <==> EmailShape(email)
  {
    if IsValidEmail(email) {
      AcceptedHasShape(email);
    }
    if EmailShape(email) {
      var i, j :| ShapeAt(email, i, j);
      ShapeIsAccepted(email, i, j);
    }
  }

  /** A value a form object may hold under a key. */
  datatype JsValue = Undefined | Null | Str(s: string) | Num(n: int) | Bool(b: bool)

  /** `value !== undefined && value !== null && value !== ''`; a missing key reads as undefined. */
  predicate Filled(obj: map<string, JsValue>, field: string) {
    field in obj && obj[field] != Undefined && obj[field] != Null && obj[field] != Str("")
  }

  /** `areRequiredFieldsFilled(obj, requiredFields)`: every listed field is filled; true for an empty list. */
  function AreRequiredFieldsFilled(obj: map<string, JsValue>, requiredFields: seq<string>): (r: bool)
    ensures r <==> forall i :: 0 <= i < |requiredFields| ==> Filled(obj, requiredFields[i])
  {
    if requiredFields == [] then true
    else Filled(obj, requiredFields[0]) && AreRequiredFieldsFilled(obj, requiredFields[1..])
  }

  /** Checking two lists of fields is checking their concatenation. */
  lemma {:induction false} RequiredFieldsAppend(obj: map<string, JsValue>, a: seq<string>, b: seq<string>)
    ensures AreRequiredFieldsFilled(obj, a + b) == (AreRequiredFieldsFilled(obj, a) && AreRequiredFieldsFilled(obj, b))
  {
    if a == [] {
      assert a + b == b;
    } else {
      assert (a + b)[1..] == a[1..] + b;
      RequiredFieldsAppend(obj, a[1..], b);
    }
  }

  /** Filling one more field with a non-empty string never makes a check fail. */
  lemma FillingKeepsFilled(obj: map<string, JsValue>, requiredFields: seq<string>, field: string, value: string)
    requires value != "" && AreRequiredFieldsFilled(obj, requiredFields)
    ensures AreRequiredFieldsFilled(obj[field := Str(value)], requiredFields)
  {
    forall i | 0 <= i < |requiredFields| ensures Filled(obj[field := Str(value)], requiredFields[i]) {
      assert Filled(obj, requiredFields[i]);
    }
  }

  /** `formatTeamStatus(status)`: a label for approved, pending and rejected, 'Unknown' for anything else. */
  function FormatTeamStatus(status: string): (r: string)
    ensures r == "Unknown" <==> status != "approved" && status != "pending" && status != "rejected"
  {
    match status
    case "approved" => "Approved"
    case "pending" => "Pending Approval"
    case "rejected" => "Rejected"
    case _ => "Unknown"
  }

  /** The three known statuses get three different labels. */
  lemma FormatTeamStatusDistinguishes(a: string, b: string)
    requires FormatTeamStatus(a) != "Unknown"
    requires FormatTeamStatus(a) == FormatTeamStatus(b)
    ensures a == b
  {
  }

  /** Neither status the schema stores, 'valid' nor 'invalid', has a label. */
  lemma StoredStatusesAreUnknown()
    ensures FormatTeamStatus("valid") == "Unknown" && FormatTeamStatus("invalid") == "Unknown"
  {
  }
}
