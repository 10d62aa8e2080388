/** The acceptance rules of the prompt routines in main.c, one pass of each
    retry loop at a time: `getInput` (filter and fallback), `getInputPhone`
    (the phone alphabet and the leading '+') and `getInputDate` (the
    calendar rule). The line a pass works on is what `fgets` read, with its
    newline already cut off. */
module Validation {
  import opened Util
  import opened Records

  const DigitFilter: string := "0123456789"
  const SexFilter: string := "lpLP"
  const PhoneFilter: string := "+0987654321"

  /** `strspn(s, accept)`: the length of the longest prefix of `s` made of
      characters of `accept`. */
  function Span(s: string, accept: string): (n: nat)
    ensures n <= |s|
    ensures forall i :: 0 <= i < n ==> s[i] in accept
    ensures n < |s| ==> s[n] !in accept
  {
    if s == [] || s[0] !in accept then 0 else 1 + Span(s[1..], accept)
  }

  /** `strchr(s, c)`: the index of the first `c` in `s`, if any. */
  function IndexOf(s: string, c: char): (r: Option<nat>)
    ensures r.None? <==> c !in s
    ensures r.Some? ==> r.value < |s| && s[r.value] == c && c !in s[..r.value]
  {
    if s == [] then None
    else if s[0] == c then Some(0)
    else match IndexOf(s[1..], c)
      case None => None
      case Some(i) => assert s[1..][..i] == s[1..i + 1]; Some(i + 1)
  }

  /** One pass of `getInput`: the value copied to the output (at most
      `maxLength` characters), or None when the loop reads another line.
      An empty line takes the fallback if there is one; a line is otherwise
      accepted when it is non-empty and, with a filter, made only of the
      filter's characters. */
  function Accept(line: string, filter: Option<string>, fallback: Option<string>, maxLength: nat): (r: Option<string>)
    ensures |line| == 0 && fallback.Some? ==> r == Some(Take(fallback.value, maxLength))
    ensures |line| == 0 && fallback.None? ==> r == None
    ensures |line| > 0 ==>
      (r.Some? <==> (filter.None? || forall i :: 0 <= i < |line| ==> line[i] in filter.value))
    ensures |line| > 0 && r.Some? ==> r.value == Take(line, maxLength)
  {
    if fallback.Some? && |line| == 0 then
      Some(Take(fallback.value, maxLength))
    else
      // With a filter and an empty line neither branch of the source runs
      // and `success` keeps its value 0 from before the loop.
      var success :=
        if filter.Some? && |line| > 0 then Span(line, filter.value) == |line|
        else if filter.None? then |line| > 0
        else false;
      if success then Some(Take(line, maxLength)) else None
  }

  /** A phone number as `getInputPhone` lets it through: 1 to 31 characters
      from "+0123456789", with '+' at most as the first character. */
  predicate IsPhone(p: string) {
    && 1 <= |p| <= PhoneWidth
    && (forall i :: 0 <= i < |p| ==> p[i] in PhoneFilter)
    && (forall i :: 1 <= i < |p| ==> p[i] != '+')
  }

  /** One pass of `getInputPhone` with the fallback "-" that every call
      site passes: `getInput` with the phone alphabet, then the check that
      no '+' follows the first character of the (truncated) buffer. */
  function AcceptPhone(line: string): (r: Option<string>)
    ensures |line| == 0 ==> r == Some(Absent)
    ensures r.Some? ==> r.value == Absent || IsPhone(r.value)
    ensures |line| > 0 ==>
      (r.Some? <==> (forall i :: 0 <= i < |line| ==> line[i] in PhoneFilter)
                    && (forall i :: 1 <= i < Min(|line|, PhoneWidth) ==> line[i] != '+'))
    ensures |line| > 0 && r.Some? ==> r.value == Take(line, PhoneWidth)
  {
    match Accept(line, Some(PhoneFilter), Some(Absent), PhoneWidth)
    case None => None
    case Some(buffer) =>
      if buffer == Absent then Some(buffer)
      else if IndexOf(buffer[1..], '+').None? then Some(buffer)
      else None
  }

  /** A NISN accepted by its prompt is 1 to 10 decimal digits. */
  lemma AcceptedNisnIsDigits(line: string, nisn: string)
    requires Accept(line, Some(DigitFilter), None, NisnWidth) == Some(nisn)
    ensures 1 <= |nisn| <= NisnWidth
    ensures forall i :: 0 <= i < |nisn| ==> IsDigit(nisn[i])
  {
    assert |line| > 0;
    forall i | 0 <= i < |nisn|
      ensures IsDigit(nisn[i])
    {
      assert nisn[i] == line[i];
      assert line[i] in DigitFilter;
    }
  }

  /** The sex letter accepted by its prompt and upper-cased by `addStudent`
      is 'L' or 'P'. */
  lemma StoredSexIsLOrP(line: string, answer: string)
    requires Accept(line, Some(SexFilter), None, 1) == Some(answer)
    ensures |answer| == 1
    ensures ToUpper(answer[0]) == 'L' || ToUpper(answer[0]) == 'P'
  {
    assert |line| > 0;
    assert answer[0] == line[0];
    assert line[0] in SexFilter;
  }

  /** `max_day` after one pass of `getInputDate`, starting from the value
      the previous pass left: months 4, 6, 9 and 11 set the length of their
      month, February sets 28 or 29, and every other month leaves it as it
      was. */
  function MaxDayAfter(maxDay: int, month: int, year: int): (md: int)
    ensures month in {2, 4, 6, 9, 11} ==> md == DaysInMonth(month, year)
    ensures month !in {2, 4, 6, 9, 11} ==> md == maxDay
  {
    LeapRuleAgrees(year);
    if month == 4 || month == 6 || month == 9 || month == 11 then 30
    else if month == 2 then
      (if year % 4 == 0 && (year % 400 == 0 || year % 100 != 0) then 29 else 28)
    else maxDay
  }

  /** The leap-year test of `getInputDate` is the Gregorian rule. It only
      asks whether a remainder is zero, which is the same for C's truncating
      `%` and Dafny's Euclidean one. */
  lemma LeapRuleAgrees(year: int)
    ensures (year % 4 == 0 && (year % 400 == 0 || year % 100 != 0)) == IsLeapYear(year)
  {
    if year % 400 == 0 {
      assert year % 4 == 0 by {
        assert year == 4 * (100 * (year / 400));
      }
    }
  }

  /** One pass of `getInputDate` as written: whether the date is taken, and
      the `max_day` the next pass starts from. The limit is the month's
      length only for the months that set it; the others keep the limit of
      the pass before, so only a pass starting from 31 decides by the
      calendar. */
  function DateAttemptAsWritten(maxDay: int, day: int, month: int, year: int): (r: (bool, int))
    ensures month in {2, 4, 6, 9, 11} ==> r.1 == DaysInMonth(month, year)
    ensures month !in {2, 4, 6, 9, 11} ==> r.1 == maxDay
    ensures maxDay == 31 ==> (r.0 <==> IsCalendarDate(day, month, year))
  {
    var md := MaxDayAfter(maxDay, month, year);
    (month < 13 && month > 0 && day <= md && day > 0, md)
  }

  /** The date rule with `max_day` starting at 31, as on the first pass. */
  predicate DateAccepted(day: int, month: int, year: int) {
    DateAttemptAsWritten(31, day, month, year).0
  }

  /** Reference Gregorian calendar, written independently of the source. */
  predicate IsLeapYear(year: int) {
    (year % 4 == 0 && year % 100 != 0) || year % 400 == 0
  }

  function DaysInMonth(month: int, year: int): (n: int)
    requires 1 <= month <= 12
    ensures 28 <= n <= 31
  {
    [31, if IsLeapYear(year) then 29 else 28, 31, 30, 31, 30, 31, 31, 30, 31, 30, 31][month - 1]
  }

  predicate IsCalendarDate(day: int, month: int, year: int) {
    1 <= month <= 12 && 1 <= day <= DaysInMonth(month, year)
  }

  /** A first pass accepts exactly the Gregorian calendar dates. */
  lemma DateAcceptedIsCalendarDate(day: int, month: int, year: int)
    ensures DateAccepted(day, month, year) <==> IsCalendarDate(day, month, year)
  {
  }

  /** The boundary dates of the month lengths and the leap-year rule. */
  lemma LeapYearExamples()
    ensures DateAccepted(29, 2, 2000) && DateAccepted(29, 2, 2024)
    ensures !DateAccepted(29, 2, 1900) && !DateAccepted(29, 2, 2023)
    ensures DateAccepted(30, 4, 2023) && !DateAccepted(31, 4, 2023)
    ensures DateAccepted(31, 1, 2023) && !DateAccepted(0, 1, 2023) && !DateAccepted(1, 13, 2023)
  {
  }

  /** `max_day` is not reset between passes: after "31-4-2023" is refused,
      the valid date "31-1-2023" is refused too. */
  lemma MaxDayCarriesOver()
    ensures DateAttemptAsWritten(31, 31, 4, 2023) == (false, 30)
    ensures DateAttemptAsWritten(30, 31, 1, 2023).0 == false
    ensures IsCalendarDate(31, 1, 2023) && DateAccepted(31, 1, 2023)
  {
  }
}
