/**
 * Sequential team IDs of the form "25" followed by a two-digit, zero-padded
 * number, as createTeam formats them and as its teamId query matches them.
 */
module TeamIds {
  import opened Wrappers
  import opened JsBuiltins

  /** The highest number the 25xx band can hold. */
  const Capacity: nat := 99

  /** `25${n.toString().padStart(2, '0')}`. */
  function FormatTeamId(n: nat): string {
    "25" + PadStart(NatToString(n), 2, '0')
  }

  /** The query pattern /^25\d{2}$/. */
  predicate MatchesPattern(id: string) {
    |id| == 4 && id[0] == '2' && id[1] == '5' && IsDigit(id[2]) && IsDigit(id[3])
  }

  /** parseInt(teamId.substring(2)) of an id that matches the pattern; None for any other id. */
  function TeamNumber(id: string): (r: Option<nat>)
    ensures r.Some? <==> MatchesPattern(id)
    ensures r.Some? ==> r.value <= Capacity
  {
    if MatchesPattern(id) then Some(10 * DigitValue(id[2]) + DigitValue(id[3])) else None
  }

  /** A formatted number (at most two digits) matches the pattern and parses back to itself. */
  lemma NumberOfFormat(n: nat)
    requires n <= Capacity
    ensures MatchesPattern(FormatTeamId(n))
    ensures TeamNumber(FormatTeamId(n)) == Some(n)
  {
    if n < 10 {
      assert NatToString(n) == [DigitChar(n)];
      assert FormatTeamId(n) == ['2', '5', '0', DigitChar(n)];
    } else {
      assert NatToString(n / 10) == [DigitChar(n / 10)];
      assert FormatTeamId(n) == ['2', '5', DigitChar(n / 10), DigitChar(n % 10)];
    }
  }

  /** Every id the pattern matches is the formatting of its own number. */
  lemma FormatOfNumber(id: string)
    requires MatchesPattern(id)
    ensures FormatTeamId(TeamNumber(id).value) == id
  {
    var a, b := DigitValue(id[2]), DigitValue(id[3]);
    var n := 10 * a + b;
    if a == 0 {
      assert NatToString(n) == [DigitChar(b)];
      assert FormatTeamId(n) == ['2', '5', '0', DigitChar(b)];
    } else {
      assert n / 10 == a && n % 10 == b;
      assert NatToString(n / 10) == [DigitChar(a)];
      assert FormatTeamId(n) == ['2', '5', DigitChar(a), DigitChar(b)];
    }
    assert id == ['2', '5', id[2], id[3]];
  }

  /** A number of three or more digits gives an id that the pattern does not match. */
  lemma WideNumberUnmatched(n: nat)
    requires n > Capacity
    ensures !MatchesPattern(FormatTeamId(n))
  {
    assert NatToString(n) == NatToString(n / 10) + [DigitChar(n % 10)];
    assert NatToString(n / 10) == NatToString(n / 100) + [DigitChar((n / 10) % 10)];
    assert |FormatTeamId(n)| >= 5;
  }

  /** Different numbers give different ids. */
  lemma FormatInjective(m: nat, n: nat)
    requires m <= Capacity && n <= Capacity && FormatTeamId(m) == FormatTeamId(n)
    ensures m == n
  {
    NumberOfFormat(m);
    NumberOfFormat(n);
  }

  /** String comparison, as the query's sort on teamId uses it. */
  predicate LexLess(a: string, b: string) {
    if a == [] then b != []
    else if b == [] then false
    else a[0] < b[0] || (a[0] == b[0] && LexLess(a[1..], b[1..]))
  }

  /**
   * Among ids that match the pattern, sorting by teamId as strings orders them
   * by their numbers, so the query's "last" team holds the highest number.
   */
  lemma LexOrderIsNumericOrder(a: string, b: string)
    requires MatchesPattern(a) && MatchesPattern(b)
    ensures LexLess(a, b) <==> TeamNumber(a).value < TeamNumber(b).value
  {
    assert a[1..][1..] == a[2..] && b[1..][1..] == b[2..];
    assert a[2..][1..] == a[3..] && b[2..][1..] == b[3..];
    assert a[3..][1..] == [] && b[3..][1..] == [];
    assert LexLess(a[3..][1..], b[3..][1..]) == false;
    assert LexLess(a[3..], b[3..]) <==> a[3] < b[3];
    assert LexLess(a[2..], b[2..]) <==> a[2] < b[2] || (a[2] == b[2] && a[3] < b[3]);
    assert LexLess(a, b) == LexLess(a[2..], b[2..]);
    var x2, x3, y2, y3 := DigitValue(a[2]), DigitValue(a[3]), DigitValue(b[2]), DigitValue(b[3]);
    assert a[2] < b[2] <==> x2 < y2;
    assert a[3] < b[3] <==> x3 < y3;
    assert a[2] == b[2] <==> x2 == y2;
  }

  /** `nextTeamIdNumber`: one past the number of the last team found, or 1 when there is none. */
  function NextNumber(last: Option<nat>): (n: nat)
    ensures n >= 1
    ensures last.Some? && last.value <= Capacity ==> n == last.value + 1
  {
    if last.Some? && 0 <= last.value <= Capacity then last.value + 1 else 1
  }
}
