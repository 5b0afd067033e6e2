/** Lenient date and time parsing for the schedule feed, and the display format.
    A point in time is kept as the fields handed to the `Date` constructor
    (year, zero-based month, day, hour, minute), ordered lexicographically; the
    current year, read from the clock by the original, is a parameter. */
module Dates {
  import opened Options
  import opened Text

  /** The arguments of `new Date(year, month, day, hour, minute)`, month counted from 0. */
  datatype DateTime = DateTime(year: int, month: int, day: int, hour: int, minute: int)

  /** a is at or before b. */
  predicate NotAfter(a: DateTime, b: DateTime) {
    if a.year != b.year then a.year < b.year
    else if a.month != b.month then a.month < b.month
    else if a.day != b.day then a.day < b.day
    else if a.hour != b.hour then a.hour < b.hour
    else a.minute <= b.minute
  }

  /** a is strictly before b. */
  predicate Before(a: DateTime, b: DateTime) {
    !NotAfter(b, a)
  }

  /** NotAfter is a total order on points in time. */
  lemma NotAfterIsTotalOrder(a: DateTime, b: DateTime, c: DateTime)
    ensures NotAfter(a, a)
    ensures NotAfter(a, b) && NotAfter(b, a) ==> a == b
    ensures NotAfter(a, b) && NotAfter(b, c) ==> NotAfter(a, c)
    ensures NotAfter(a, b) || NotAfter(b, a)
  {
  }

  // ---------------------------------------------------------------------------------------
  // The day/month[/year][ time] patterns

  /** The separators `[\/.-]` allowed between day, month and year. */
  predicate IsDateSep(c: char) {
    c == '/' || c == '.' || c == '-'
  }

  /** The separators `[:.]` allowed between hour and minute. */
  predicate IsTimeSep(c: char) {
    c == ':' || c == '.'
  }

  /** s cut after its leading run of decimal digits `\d`: the run and what follows it. */
  function SplitDigits(s: string): (p: (string, string))
    ensures p.0 + p.1 == s && AllDigits(p.0) && (p.1 == [] || !IsDigit(p.1[0]))
  {
    if s != [] && IsDigit(s[0]) then
      var (ds, rest) := SplitDigits(s[1..]);
      assert [s[0]] + ds + rest == s;
      ([s[0]] + ds, rest)
    else ([], s)
  }

  /** s cut after its leading run of white space `\s`: the run and what follows it. */
  function SplitSpaces(s: string): (p: (string, string))
    ensures p.0 + p.1 == s && AllSpace(p.0) && (p.1 == [] || !IsSpace(p.1[0]))
  {
    if s != [] && IsSpace(s[0]) then
      var (ws, rest) := SplitSpaces(s[1..]);
      assert [s[0]] + ws + rest == s;
      ([s[0]] + ws, rest)
    else ([], s)
  }

  /** What `(\d{1,2})[\/.-](\d{1,2})(?:[\/.-](\d{2,4}))?` captures at the start of a string,
      and the text after it. */
  datatype DateMatch = DateMatch(day: string, month: string, year: Option<string>, rest: string)

  /** The day/month[/year] prefix. Every digit group has to take its whole run of digits, since
      what follows it in the pattern is never a digit, so taking maximal runs decides the match
      as the regular expression does. A third group that is not 2 to 4 digits leaves the
      separator in rest, where neither continuation of the pattern accepts it. */
  function MatchDate(s: string): (r: Option<DateMatch>)
    ensures r.Some? ==> 1 <= |r.value.day| <= 2 && AllDigits(r.value.day)
    ensures r.Some? ==> 1 <= |r.value.month| <= 2 && AllDigits(r.value.month)
    ensures r.Some? && r.value.year.Some? ==> 2 <= |r.value.year.value| <= 4 && AllDigits(r.value.year.value)
  {
    var (d, r1) := SplitDigits(s);
    if !(1 <= |d| <= 2 && r1 != [] && IsDateSep(r1[0])) then None
    else
      var (m, r2) := SplitDigits(r1[1..]);
      if !(1 <= |m| <= 2) then None
      else if r2 != [] && IsDateSep(r2[0]) && 2 <= |SplitDigits(r2[1..]).0| <= 4 then
        var (y, r3) := SplitDigits(r2[1..]);
        Some(DateMatch(d, m, Some(y), r3))
      else Some(DateMatch(d, m, None, r2))
  }

  /** What `\s+(\d{1,2})[:.](\d{2})$` captures: hour and minute digits. */
  function MatchTime(s: string): (r: Option<(string, string)>)
    ensures r.Some? ==> 1 <= |r.value.0| <= 2 && AllDigits(r.value.0)
    ensures r.Some? ==> |r.value.1| == 2 && AllDigits(r.value.1)
  {
    var (ws, r1) := SplitSpaces(s);
    if ws == [] then None
    else
      var (h, r2) := SplitDigits(r1);
      if !(1 <= |h| <= 2 && r2 != [] && IsTimeSep(r2[0])) then None
      else
        var mm := r2[1..];
        if |mm| == 2 && IsDigit(mm[0]) && IsDigit(mm[1]) then Some((h, mm)) else None
  }

  /** The year rule: no year is the current year, two digits are years 2000 to 2099, three or
      four digits are the year as written. */
  function YearOf(y: Option<string>, currentYear: int): (r: int)
    requires y.Some? ==> AllDigits(y.value)
    ensures y.None? ==> r == currentYear
    ensures y.Some? && |y.value| == 2 ==> 2000 <= r < 2100
    ensures y.Some? && 3 <= |y.value| <= 4 ==> 0 <= r < 10000
  {
    match y
    case None => currentYear
    case Some(ds) =>
      DigitsBound(ds);
      if |ds| == 2 then 2000 + Number(ds) else Number(ds)
  }

  /** The year rule case by case: the current year, 2000 + yy, or the year as written. */
  lemma YearRule(year: Option<string>, currentYear: int)
    requires year.Some? ==> AllDigits(year.value)
    ensures year.None? ==> YearOf(year, currentYear) == currentYear
    ensures year.Some? && |year.value| == 2 ==> YearOf(year, currentYear) == 2000 + Number(year.value)
    ensures year.Some? && 3 <= |year.value| ==> YearOf(year, currentYear) == Number(year.value)
  {
  }

  /** `parseDMY`: `d[d]{/.-}m[m][{/.-}yy..yyyy]` and nothing else; midnight of that day. */
  function ParseDMY(s: string, currentYear: int): (r: Option<DateTime>)
    ensures r.Some? ==> r.value.hour == 0 && r.value.minute == 0
    ensures r.Some? ==> 0 <= r.value.day < 100 && -1 <= r.value.month < 99
    ensures r.Some? ==> r.value.year == currentYear || 0 <= r.value.year < 10000
  {
    match MatchDate(s)
    case None => None
    case Some(m) =>
      if m.rest != [] then None
      else
        DigitsBound(m.day);
        DigitsBound(m.month);
        DigitsBound(m.year.GetOr([]));
        Some(DayOf(m, currentYear))
  }

  /** `parseDMYTime`: the same date, white space, then `h[h]{:.}mm` to the end. */
  function ParseDMYTime(s: string, currentYear: int): (r: Option<DateTime>)
    ensures r.Some? ==> 0 <= r.value.day < 100 && -1 <= r.value.month < 99
    ensures r.Some? ==> 0 <= r.value.hour < 100 && 0 <= r.value.minute < 100
    ensures r.Some? ==> r.value.year == currentYear || 0 <= r.value.year < 10000
  {
    match MatchDate(s)
    case None => None
    case Some(m) =>
      match MatchTime(m.rest)
      case None => None
      case Some((hh, mm)) =>
        DigitsBound(m.day);
        DigitsBound(m.month);
        DigitsBound(hh);
        DigitsBound(mm);
        DigitsBound(m.year.GetOr([]));
        Some(MomentOf(m, hh, mm, currentYear))
  }

  /** Midnight of the matched day: `new Date(year, mo - 1, d)`. */
  function DayOf(m: DateMatch, currentYear: int): (r: DateTime)
    requires AllDigits(m.day) && AllDigits(m.month) && (m.year.Some? ==> AllDigits(m.year.value))
  {
    DateTime(YearOf(m.year, currentYear), Number(m.month) - 1, Number(m.day), 0, 0)
  }

  /** The matched day at hh:mm: `new Date(year, mo - 1, d, hh, mm)`. */
  function MomentOf(m: DateMatch, hh: string, mm: string, currentYear: int): (r: DateTime)
    requires AllDigits(m.day) && AllDigits(m.month) && (m.year.Some? ==> AllDigits(m.year.value))
    requires AllDigits(hh) && AllDigits(mm)
  {
    DateTime(YearOf(m.year, currentYear), Number(m.month) - 1, Number(m.day), Number(hh), Number(mm))
  }

  function Pow10(n: nat): (r: nat) {
    if n == 0 then 1 else 10 * Pow10(n - 1)
  }

  /** A string of k digits denotes a number below 10^k. */
  lemma {:induction false} NumberBelowPow10(s: string)
    requires AllDigits(s)
    ensures Number(s) < Pow10(|s|)
  {
    if s != [] {
      NumberBelowPow10(s[..|s| - 1]);
    }
  }

  /** Up to two digits are below 100, up to four below 10000. */
  lemma DigitsBound(s: string)
    requires AllDigits(s)
    ensures |s| <= 2 ==> Number(s) < 100
    ensures |s| <= 4 ==> Number(s) < 10000
  {
    NumberBelowPow10(s);
    assert Pow10(0) == 1 && Pow10(1) == 10 && Pow10(2) == 100 && Pow10(3) == 1000 && Pow10(4) == 10000;
  }

  // ---------------------------------------------------------------------------------------
  // What the patterns accept

  /** The cut after the digit run is the only one that leaves no digit behind it. */
  lemma {:induction false} SplitDigitsOf(ds: string, t: string)
    requires AllDigits(ds) && (t == [] || !IsDigit(t[0]))
    ensures SplitDigits(ds + t) == (ds, t)
  {
    if ds != [] {
      assert (ds + t)[1..] == ds[1..] + t;
      SplitDigitsOf(ds[1..], t);
      assert [ds[0]] + ds[1..] == ds;
    } else {
      assert ds + t == t;
    }
  }

  /** The cut after the space run is the only one that leaves no space behind it. */
  lemma {:induction false} SplitSpacesOf(ws: string, t: string)
    requires AllSpace(ws) && (t == [] || !IsSpace(t[0]))
    ensures SplitSpaces(ws + t) == (ws, t)
  {
    if ws != [] {
      assert (ws + t)[1..] == ws[1..] + t;
      SplitSpacesOf(ws[1..], t);
      assert [ws[0]] + ws[1..] == ws;
    } else {
      assert ws + t == t;
    }
  }

  /** day, sep1 and month, then sep2 and year when there is one. */
  function DateText(day: string, sep1: char, month: string, sep2: char, year: Option<string>): (r: string) {
    day + [sep1] + month + (if year.Some? then [sep2] + year.value else [])
  }

  /** Day and month of one or two digits, separators from `[\/.-]`, and a year of two to four
      digits when there is one. */
  predicate IsDateParts(day: string, sep1: char, month: string, sep2: char, year: Option<string>) {
    && 1 <= |day| <= 2 && AllDigits(day) && 1 <= |month| <= 2 && AllDigits(month)
    && IsDateSep(sep1) && IsDateSep(sep2)
    && (year.Some? ==> 2 <= |year.value| <= 4 && AllDigits(year.value))
  }

  /** A written day/month[/year] is matched with exactly its digit groups. */
  lemma MatchDateOf(day: string, sep1: char, month: string, sep2: char, year: Option<string>, rest: string)
    requires 1 <= |day| <= 2 && AllDigits(day) && 1 <= |month| <= 2 && AllDigits(month)
    requires IsDateSep(sep1) && IsDateSep(sep2)
    requires year.Some? ==> 2 <= |year.value| <= 4 && AllDigits(year.value)
    requires rest == [] || (!IsDigit(rest[0]) && (year.None? ==> !IsDateSep(rest[0])))
    ensures MatchDate(DateText(day, sep1, month, sep2, year) + rest) == Some(DateMatch(day, month, year, rest))
  {
    var tail := if year.Some? then [sep2] + (year.value + rest) else rest;
    var r1 := [sep1] + (month + tail);
    assert DateText(day, sep1, month, sep2, year) + rest == day + r1;
    SplitDigitsOf(day, r1);
    assert r1[1..] == month + tail;
    SplitDigitsOf(month, tail);
    if year.Some? {
      assert tail[1..] == year.value + rest;
      SplitDigitsOf(year.value, rest);
      MatchDateWithYear(day + r1, r1, tail, day, month, year.value, rest);
    } else {
      MatchDateWithoutYear(day + r1, r1, day, month, rest);
    }
  }

  /** How MatchDate decides once the digit runs are known: with a third group. */
  lemma MatchDateWithYear(s: string, r1: string, r2: string, day: string, month: string, year: string, rest: string)
    requires SplitDigits(s) == (day, r1) && 1 <= |day| <= 2 && r1 != [] && IsDateSep(r1[0])
    requires SplitDigits(r1[1..]) == (month, r2) && 1 <= |month| <= 2
    requires r2 != [] && IsDateSep(r2[0]) && SplitDigits(r2[1..]) == (year, rest) && 2 <= |year| <= 4
    ensures MatchDate(s) == Some(DateMatch(day, month, Some(year), rest))
  {
  }

  /** White space, hour, sep and minute. */
  function TimeText(ws: string, hour: string, sep: char, minute: string): (r: string) {
    ws + hour + [sep] + minute
  }

  /** White space, an hour of one or two digits, a separator from `[:.]` and two minute digits. */
  predicate IsTimeParts(ws: string, hour: string, sep: char, minute: string) {
    && ws != [] && AllSpace(ws) && 1 <= |hour| <= 2 && AllDigits(hour)
    && IsTimeSep(sep) && |minute| == 2 && AllDigits(minute)
  }

  /** Written white space, hour, separator and minute are matched as that hour and minute. */
  lemma MatchTimeOf(ws: string, hour: string, sep: char, minute: string)
    requires ws != [] && AllSpace(ws) && 1 <= |hour| <= 2 && AllDigits(hour)
    requires IsTimeSep(sep) && |minute| == 2 && AllDigits(minute)
    ensures MatchTime(TimeText(ws, hour, sep, minute)) == Some((hour, minute))
  {
    var r2 := [sep] + minute;
    var r1 := hour + r2;
    assert TimeText(ws, hour, sep, minute) == ws + r1;
    assert !IsSpace(hour[0]);
    SplitSpacesOf(ws, r1);
    SplitDigitsOf(hour, r2);
    assert r2[1..] == minute;
  }

  // ---------------------------------------------------------------------------------------
  // What the patterns accept, and nothing else

  /** A day/month[/year] match is the digit groups of s, with a separator between them, followed
      by the rest of s; the rest does not start with a digit. */
  lemma MatchDateShape(s: string)
    requires MatchDate(s).Some?
    ensures var m := MatchDate(s).value;
      exists sep1, sep2 :: IsDateSep(sep1) && IsDateSep(sep2) && s == DateText(m.day, sep1, m.month, sep2, m.year) + m.rest
    ensures var m := MatchDate(s).value; m.rest == [] || !IsDigit(m.rest[0])
  {
    var (d, r1) := SplitDigits(s);
    var (mo, r2) := SplitDigits(r1[1..]);
    if r2 != [] && IsDateSep(r2[0]) && 2 <= |SplitDigits(r2[1..]).0| <= 4 {
      var (y, r3) := SplitDigits(r2[1..]);
      MatchDateWithYear(s, r1, r2, d, mo, y, r3);
      DateTextWithYear(s, d, r1, mo, r2, y, r3);
    } else {
      MatchDateWithoutYear(s, r1, d, mo, r2);
      DateTextWithoutYear(s, d, r1, mo, r2);
    }
  }

  /** How MatchDate decides once the digit runs are known: without a third group. */
  lemma MatchDateWithoutYear(s: string, r1: string, day: string, month: string, rest: string)
    requires SplitDigits(s) == (day, r1) && 1 <= |day| <= 2 && r1 != [] && IsDateSep(r1[0])
    requires SplitDigits(r1[1..]) == (month, rest) && 1 <= |month| <= 2
    requires !(rest != [] && IsDateSep(rest[0]) && 2 <= |SplitDigits(rest[1..]).0| <= 4)
    ensures MatchDate(s) == Some(DateMatch(day, month, None, rest))
  {
  }

  /** s put back together from its digit runs and separators, with a year. */
  lemma DateTextWithYear(s: string, day: string, r1: string, month: string, r2: string, year: string, rest: string)
    requires s == day + r1 && r1 != [] && r1[1..] == month + r2 && r2 != [] && r2[1..] == year + rest
    ensures s == DateText(day, r1[0], month, r2[0], Some(year)) + rest
  {
    assert r2 == [r2[0]] + (year + rest);
    assert r1 == [r1[0]] + (month + ([r2[0]] + (year + rest)));
  }

  /** s put back together from its digit runs and separator, without a year. */
  lemma DateTextWithoutYear(s: string, day: string, r1: string, month: string, rest: string)
    requires s == day + r1 && r1 != [] && r1[1..] == month + rest
    ensures s == DateText(day, r1[0], month, r1[0], None) + rest
  {
    assert r1 == [r1[0]] + (month + rest);
  }

  /** A time match is white space, the hour, a separator and the minute, and nothing more. */
  lemma MatchTimeShape(s: string)
    requires MatchTime(s).Some?
    ensures exists ws, sep :: IsTimeParts(ws, MatchTime(s).value.0, sep, MatchTime(s).value.1)
                              && s == TimeText(ws, MatchTime(s).value.0, sep, MatchTime(s).value.1)
  {
    var (ws, r1) := SplitSpaces(s);
    var (h, r2) := SplitDigits(r1);
    var mm := r2[1..];
    assert MatchTime(s) == Some((h, mm));
    assert r2 == [r2[0]] + mm;
    assert s == TimeText(ws, h, r2[0], mm);
    assert IsTimeParts(ws, h, r2[0], mm);
  }

  /** `parseDMY` accepts only a written day/month[/year]. */
  lemma ParseDMYAccepts(s: string, currentYear: int)
    requires ParseDMY(s, currentYear).Some?
    ensures exists day, sep1, month, sep2, year ::
      IsDateParts(day, sep1, month, sep2, year) && s == DateText(day, sep1, month, sep2, year)
  {
    var m := MatchDate(s).value;
    MatchDateShape(s);
    var sep1, sep2 :| IsDateSep(sep1) && IsDateSep(sep2) && s == DateText(m.day, sep1, m.month, sep2, m.year) + m.rest;
    assert m.rest == [];
    assert s == DateText(m.day, sep1, m.month, sep2, m.year);
    assert IsDateParts(m.day, sep1, m.month, sep2, m.year);
  }

  /** `parseDMYTime` accepts only a written day/month[/year] followed by a written time. */
  lemma ParseDMYTimeAccepts(s: string, currentYear: int)
    requires ParseDMYTime(s, currentYear).Some?
    ensures exists day, sep1, month, sep2, year, ws, hour, sep3, minute ::
      && IsDateParts(day, sep1, month, sep2, year) && IsTimeParts(ws, hour, sep3, minute)
      && s == DateText(day, sep1, month, sep2, year) + TimeText(ws, hour, sep3, minute)
  {
    var m := MatchDate(s).value;
    MatchDateShape(s);
    var sep1, sep2 :| IsDateSep(sep1) && IsDateSep(sep2) && s == DateText(m.day, sep1, m.month, sep2, m.year) + m.rest;
    var t := MatchTime(m.rest).value;
    MatchTimeShape(m.rest);
    var ws, sep3 :| IsTimeParts(ws, t.0, sep3, t.1) && m.rest == TimeText(ws, t.0, sep3, t.1);
    assert IsDateParts(m.day, sep1, m.month, sep2, m.year);
  }

  /** The year rule seen from the input: `d/m/yy` is in 2000 + yy, `d/m/yyy[y]` is in the year
      as written, `d/m` is in the current year; the month is taken from 1-based to 0-based. */
  lemma ParseDMYOf(day: string, sep1: char, month: string, sep2: char, year: Option<string>, currentYear: int)
    requires IsDateParts(day, sep1, month, sep2, year)
    ensures ParseDMY(DateText(day, sep1, month, sep2, year), currentYear)
      == Some(DateTime(YearOf(year, currentYear), Number(month) - 1, Number(day), 0, 0))
    ensures year.None? ==> YearOf(year, currentYear) == currentYear
    ensures year.Some? && |year.value| == 2 ==> YearOf(year, currentYear) == 2000 + Number(year.value)
    ensures year.Some? && 3 <= |year.value| ==> YearOf(year, currentYear) == Number(year.value)
  {
    ReadDateText(day, sep1, month, sep2, year, currentYear);
    YearRule(year, currentYear);
  }

  /** The same with a time: hour and minute are taken as written. */
  lemma ParseDMYTimeOf(day: string, sep1: char, month: string, sep2: char, year: Option<string>,
                       ws: string, hour: string, sep3: char, minute: string, currentYear: int)
    requires IsDateParts(day, sep1, month, sep2, year) && IsTimeParts(ws, hour, sep3, minute)
    ensures ParseDMYTime(DateText(day, sep1, month, sep2, year) + TimeText(ws, hour, sep3, minute), currentYear)
      == Some(DateTime(YearOf(year, currentYear), Number(month) - 1, Number(day), Number(hour), Number(minute)))
    ensures year.None? ==> YearOf(year, currentYear) == currentYear
    ensures year.Some? && |year.value| == 2 ==> YearOf(year, currentYear) == 2000 + Number(year.value)
    ensures year.Some? && 3 <= |year.value| ==> YearOf(year, currentYear) == Number(year.value)
  {
    ReadDateTimeText(day, sep1, month, sep2, year, ws, hour, sep3, minute, currentYear);
    YearRule(year, currentYear);
  }

  /** A written date is read as its fields. */
  lemma ReadDateText(day: string, sep1: char, month: string, sep2: char, year: Option<string>, currentYear: int)
    requires IsDateParts(day, sep1, month, sep2, year)
    ensures ParseDMY(DateText(day, sep1, month, sep2, year), currentYear)
      == Some(DateTime(YearOf(year, currentYear), Number(month) - 1, Number(day), 0, 0))
  {
    var s := DateText(day, sep1, month, sep2, year);
    var m := DateMatch(day, month, year, []);
    MatchDateOf(day, sep1, month, sep2, year, []);
    assert s + [] == s;
    assert ParseDMY(s, currentYear) == Some(DayOf(m, currentYear));
    DayOfFields(m, currentYear);
  }

  lemma DayOfFields(m: DateMatch, currentYear: int)
    requires AllDigits(m.day) && AllDigits(m.month) && (m.year.Some? ==> AllDigits(m.year.value))
    ensures DayOf(m, currentYear) == DateTime(YearOf(m.year, currentYear), Number(m.month) - 1, Number(m.day), 0, 0)
  {
  }

  /** A written date-time is read as its fields. */
  lemma ReadDateTimeText(day: string, sep1: char, month: string, sep2: char, year: Option<string>,
                       ws: string, hour: string, sep3: char, minute: string, currentYear: int)
    requires IsDateParts(day, sep1, month, sep2, year) && IsTimeParts(ws, hour, sep3, minute)
    ensures ParseDMYTime(DateText(day, sep1, month, sep2, year) + TimeText(ws, hour, sep3, minute), currentYear)
      == Some(DateTime(YearOf(year, currentYear), Number(month) - 1, Number(day), Number(hour), Number(minute)))
  {
    var rest := TimeText(ws, hour, sep3, minute);
    assert !IsDigit(rest[0]) && !IsDateSep(rest[0]);
    MatchDateOf(day, sep1, month, sep2, year, rest);
    MatchTimeOf(ws, hour, sep3, minute);
    ParseDMYTimeOfMatches(DateText(day, sep1, month, sep2, year) + rest, day, month, year, rest, hour, minute, currentYear);
  }

  /** ParseDMYTime puts together what the two matchers captured. */
  lemma ParseDMYTimeOfMatches(s: string, day: string, month: string, year: Option<string>, rest: string,
                              hour: string, minute: string, currentYear: int)
    requires MatchDate(s) == Some(DateMatch(day, month, year, rest)) && MatchTime(rest) == Some((hour, minute))
    ensures AllDigits(day) && AllDigits(month) && AllDigits(hour) && AllDigits(minute)
    ensures year.Some? ==> AllDigits(year.value)
    ensures ParseDMYTime(s, currentYear)
      == Some(DateTime(YearOf(year, currentYear), Number(month) - 1, Number(day), Number(hour), Number(minute)))
  {
    MomentOfParts(s, DateMatch(day, month, year, rest), hour, minute, currentYear);
    MomentOfFields(day, month, year, rest, hour, minute, currentYear);
  }

  lemma MomentOfParts(s: string, m: DateMatch, hour: string, minute: string, currentYear: int)
    requires MatchDate(s) == Some(m) && MatchTime(m.rest) == Some((hour, minute))
    ensures AllDigits(m.day) && AllDigits(m.month) && (m.year.Some? ==> AllDigits(m.year.value))
    ensures AllDigits(hour) && AllDigits(minute)
    ensures ParseDMYTime(s, currentYear) == Some(MomentOf(m, hour, minute, currentYear))
  {
  }

  lemma MomentOfFields(day: string, month: string, year: Option<string>, rest: string,
                       hour: string, minute: string, currentYear: int)
    requires AllDigits(day) && AllDigits(month) && (year.Some? ==> AllDigits(year.value))
    requires AllDigits(hour) && AllDigits(minute)
    ensures MomentOf(DateMatch(day, month, year, rest), hour, minute, currentYear)
      == DateTime(YearOf(year, currentYear), Number(month) - 1, Number(day), Number(hour), Number(minute))
  {
  }

  // ---------------------------------------------------------------------------------------
  // Display format

  /** `pad2`: `String(n).padStart(2, '0')`. */
  function Pad2(n: int): (r: string)
    ensures |r| >= 2
    ensures 0 <= n < 100 ==> |r| == 2 && AllDigits(r) && Number(r) == n
  {
    var s := IntToString(n);
    if |s| < 2 then
      NatToStringLength(n);
      var r := "0" + s;
      assert r[..1] == "0";
      r
    else
      NatToStringLength(if n >= 0 then n else -n);
      s
  }

  /** `formatDateTime`: `DD/MM/YYYY HH:MM`, the year unpadded. */
  function FormatDateTime(dt: DateTime): (r: string)
    ensures |r| >= 13
  {
    DateCell(dt) + " " + TimeCell(dt)
  }

  /** The date half of the display format, `DD/MM/YYYY`. */
  function DateCell(dt: DateTime): (r: string) {
    Pad2(dt.day) + "/" + Pad2(dt.month + 1) + "/" + IntToString(dt.year)
  }

  /** The time half of the display format, `HH:MM`. */
  function TimeCell(dt: DateTime): (r: string) {
    Pad2(dt.hour) + ":" + Pad2(dt.minute)
  }

  /** Formatting and reading back with the date-and-time pattern gives the same point in time,
      for every year from 100 to 9999 and all fields that print as two digits. */
  lemma FormatParseRoundTrip(dt: DateTime, currentYear: int)
    requires 100 <= dt.year < 10000 && 0 <= dt.month + 1 < 100 && 0 <= dt.day < 100
    requires 0 <= dt.hour < 100 && 0 <= dt.minute < 100
    ensures ParseDMYTime(FormatDateTime(dt), currentYear) == Some(dt)
  {
    var d, m, h, mi := Pad2(dt.day), Pad2(dt.month + 1), Pad2(dt.hour), Pad2(dt.minute);
    var y := IntToString(dt.year);
    YearCell(dt.year, currentYear);
    assert AllSpace(" ");
    ReadDateTimeText(d, '/', m, '/', Some(y), " ", h, ':', mi, currentYear);
    FormatIsPieces(dt);
    ReadBack(FormatDateTime(dt), DateText(d, '/', m, '/', Some(y)) + TimeText(" ", h, ':', mi), dt, currentYear,
             YearOf(Some(y), currentYear), Number(m) - 1, Number(d), Number(h), Number(mi));
  }

  /** A year from 100 to 9999 prints as three or four digits that the year rule reads back. */
  lemma YearCell(year: int, currentYear: int)
    requires 100 <= year < 10000
    ensures 3 <= |IntToString(year)| <= 4 && AllDigits(IntToString(year))
    ensures YearOf(Some(IntToString(year)), currentYear) == year
  {
    NatToStringLength(year);
  }

  /** What is read from text equal to s is what is read from s. */
  lemma ReadBack(s: string, t: string, dt: DateTime, currentYear: int,
                 year: int, month: int, day: int, hour: int, minute: int)
    requires s == t && ParseDMYTime(t, currentYear) == Some(DateTime(year, month, day, hour, minute))
    requires year == dt.year && month == dt.month && day == dt.day && hour == dt.hour && minute == dt.minute
    ensures ParseDMYTime(s, currentYear) == Some(dt)
  {
  }

  /** The display format is a date text followed by a time text. */
  lemma FormatIsPieces(dt: DateTime)
    ensures FormatDateTime(dt) == DateText(Pad2(dt.day), '/', Pad2(dt.month + 1), '/', Some(IntToString(dt.year)))
                                  + TimeText(" ", Pad2(dt.hour), ':', Pad2(dt.minute))
  {
    FormatPieces(Pad2(dt.day), Pad2(dt.month + 1), IntToString(dt.year), Pad2(dt.hour), Pad2(dt.minute));
  }

  lemma FormatPieces(d: string, m: string, y: string, h: string, mi: string)
    ensures (d + "/" + m + "/" + y) + " " + (h + ":" + mi) == DateText(d, '/', m, '/', Some(y)) + TimeText(" ", h, ':', mi)
  {
    assert DateText(d, '/', m, '/', Some(y)) == d + "/" + m + ("/" + y);
  }

  // ---------------------------------------------------------------------------------------
  // Trying the interpreters

  /** A date interpreter: a point in time, or None for no match or an invalid date. */
  type Interpreter = string -> Option<DateTime>

  /** The interpreters in the order they are tried: date with time, date alone, and the
      runtime's own date-string parser, which is given as a parameter. */
  function Interpreters(currentYear: int, fallback: Interpreter): (r: seq<Interpreter>) {
    [s => ParseDMYTime(s, currentYear), s => ParseDMY(s, currentYear), fallback]
  }

  /** The strings tried: "date time" when both are non-empty after trimming, then the date
      alone when it is non-empty. */
  function Candidates(date: string, time: string): (cs: seq<string>)
    ensures Trim(date) == [] <==> cs == []
  {
    var d, t := Trim(date), Trim(time);
    (if d != [] && t != [] then [d + " " + t] else []) + (if d != [] then [d] else [])
  }

  /** The first result of the interpreters on s that is a point in time. */
  function FirstInterpretation(fs: seq<Interpreter>, s: string): (r: Option<DateTime>)
    ensures r.None? <==> forall k :: 0 <= k < |fs| ==> fs[k](s).None?
  {
    if fs == [] then None
    else if fs[0](s).Some? then fs[0](s)
    else FirstInterpretation(fs[1..], s)
  }

  /** A point in time found is the result of the first interpreter that gives one. */
  lemma {:induction false} FirstInterpretationIsFirst(fs: seq<Interpreter>, s: string)
    requires FirstInterpretation(fs, s).Some?
    ensures exists k :: 0 <= k < |fs| && fs[k](s) == FirstInterpretation(fs, s)
                        && forall j :: 0 <= j < k ==> fs[j](s).None?
  {
    if fs[0](s).None? {
      FirstInterpretationIsFirst(fs[1..], s);
      var r := FirstInterpretation(fs, s);
      var k :| 0 <= k < |fs[1..]| && fs[1..][k](s) == r && forall j :: 0 <= j < k ==> fs[1..][j](s).None?;
      assert fs[k + 1](s) == r;
      forall j | 0 <= j < k + 1 ensures fs[j](s).None? {
        if j > 0 { assert fs[j] == fs[1..][j - 1]; }
      }
    } else {
      assert fs[0](s) == FirstInterpretation(fs, s);
    }
  }

  /** The first point in time found, candidate by candidate. */
  function FirstParse(cands: seq<string>, fs: seq<Interpreter>): (r: Option<DateTime>)
    ensures r.None? <==> forall c, k :: 0 <= c < |cands| && 0 <= k < |fs| ==> fs[k](cands[c]).None?
  {
    if cands == [] then None
    else
      var r := FirstInterpretation(fs, cands[0]);
      if r.Some? then r
      else
        var r' := FirstParse(cands[1..], fs);
        assert forall c :: 0 < c < |cands| ==> cands[c] == cands[1..][c - 1];
        r'
  }

  /** A point in time found is the first interpretation of the first candidate that has one:
      every interpreter fails on every earlier candidate. */
  lemma {:induction false} FirstParseIsFirst(cands: seq<string>, fs: seq<Interpreter>)
    requires FirstParse(cands, fs).Some?
    ensures exists c :: 0 <= c < |cands| && FirstParse(cands, fs) == FirstInterpretation(fs, cands[c])
                        && forall b :: 0 <= b < c ==> FirstInterpretation(fs, cands[b]).None?
  {
    var r := FirstParse(cands, fs);
    if FirstInterpretation(fs, cands[0]).None? {
      FirstParseIsFirst(cands[1..], fs);
      var c :| 0 <= c < |cands[1..]| && r == FirstInterpretation(fs, cands[1..][c])
               && forall b :: 0 <= b < c ==> FirstInterpretation(fs, cands[1..][b]).None?;
      assert cands[c + 1] == cands[1..][c];
      forall b | 0 <= b < c + 1 ensures FirstInterpretation(fs, cands[b]).None? {
        if b > 0 { assert cands[b] == cands[1..][b - 1]; }
      }
    } else {
      assert r == FirstInterpretation(fs, cands[0]);
    }
  }

  /** The point in time of a date and time cell, or None. */
  function ParseDate(date: string, time: string, currentYear: int, fallback: Interpreter): (r: Option<DateTime>) {
    FirstParse(Candidates(date, time), Interpreters(currentYear, fallback))
  }

  /** `tryParseDate`: builds the candidates, then tries every interpreter on each candidate in
      order and returns the first point in time. */
  method TryParseDate(dateStr: string, timeStr: string, currentYear: int, fallback: Interpreter)
    returns (r: Option<DateTime>)
    ensures r == ParseDate(dateStr, timeStr, currentYear, fallback)
    ensures Trim(dateStr) == [] ==> r == None
  {
    var cleanDate := Trim(dateStr);
    var cleanTime := Trim(timeStr);
    var candidates := [];
    if cleanDate != [] && cleanTime != [] {
      candidates := candidates + [cleanDate + " " + cleanTime];
    }
    if cleanDate != [] {
      candidates := candidates + [cleanDate];
    }
    assert candidates == Candidates(dateStr, timeStr);
    var fmts := Interpreters(currentYear, fallback);
    var c := 0;
    while c < |candidates|
      invariant 0 <= c <= |candidates|
      invariant FirstParse(candidates[c..], fmts) == FirstParse(candidates, fmts)
    {
      var cand := candidates[c];
      assert candidates[c..][1..] == candidates[c + 1..];
      var k := 0;
      while k < |fmts|
        invariant 0 <= k <= |fmts|
        invariant FirstInterpretation(fmts[k..], cand) == FirstInterpretation(fmts, cand)
      {
        var d := fmts[k](cand);
        assert fmts[k..][1..] == fmts[k + 1..];
        if d.Some? {
          return d;
        }
        k := k + 1;
      }
      c := c + 1;
    }
    return None;
  }

  /** The date-with-time reading of "date time" wins over every other reading. */
  lemma CombinedCandidateFirst(date: string, time: string, currentYear: int, fallback: Interpreter)
    requires Trim(date) != [] && Trim(time) != []
    requires ParseDMYTime(Trim(date) + " " + Trim(time), currentYear).Some?
    ensures ParseDate(date, time, currentYear, fallback) == ParseDMYTime(Trim(date) + " " + Trim(time), currentYear)
  {
    var cands := Candidates(date, time);
    assert cands[0] == Trim(date) + " " + Trim(time);
  }

  /** With no time, the date alone is read with time first, then without, then by the fallback. */
  lemma DateOnlyCandidate(date: string, time: string, currentYear: int, fallback: Interpreter)
    requires Trim(date) != [] && Trim(time) == []
    ensures ParseDate(date, time, currentYear, fallback) ==
      if ParseDMYTime(Trim(date), currentYear).Some? then ParseDMYTime(Trim(date), currentYear)
      else if ParseDMY(Trim(date), currentYear).Some? then ParseDMY(Trim(date), currentYear)
      else fallback(Trim(date))
  {
    var fs := Interpreters(currentYear, fallback);
    var d := Trim(date);
    assert Candidates(date, time) == [d];
    assert ParseDate(date, time, currentYear, fallback) == FirstInterpretation(fs, d);
    assert fs[0](d) == ParseDMYTime(d, currentYear);
    assert fs[1..][0](d) == ParseDMY(d, currentYear);
    assert fs[1..][1..] == [fallback];
    assert FirstInterpretation(fs[1..][1..], d) == fallback(d);
  }

  /** A date cell and a time cell in the display format are read back as the point in time they
      show, whatever the fallback does. */
  lemma FormattedCellsRoundTrip(dt: DateTime, currentYear: int, fallback: Interpreter)
    requires 100 <= dt.year < 10000 && 0 <= dt.month + 1 < 100 && 0 <= dt.day < 100
    requires 0 <= dt.hour < 100 && 0 <= dt.minute < 100
    ensures ParseDate(DateCell(dt), TimeCell(dt), currentYear, fallback) == Some(dt)
  {
    CellsAreTrimmed(dt);
    FormatParseRoundTrip(dt, currentYear);
    CombinedCandidateFirst(DateCell(dt), TimeCell(dt), currentYear, fallback);
  }

  /** The display cells start and end with a digit, so trimming leaves them as they are. */
  lemma CellsAreTrimmed(dt: DateTime)
    requires 0 <= dt.year && 0 <= dt.day < 100 && 0 <= dt.hour < 100 && 0 <= dt.minute < 100
    ensures Trim(DateCell(dt)) == DateCell(dt) && Trim(TimeCell(dt)) == TimeCell(dt)
  {
    DateCellIsTrimmed(dt);
    DigitsAroundAreTrimmed(Pad2(dt.hour), ":", Pad2(dt.minute));
  }

  lemma DateCellIsTrimmed(dt: DateTime)
    requires 0 <= dt.year && 0 <= dt.day < 100
    ensures Trim(DateCell(dt)) == DateCell(dt)
  {
    var a, m, b := Pad2(dt.day), Pad2(dt.month + 1), IntToString(dt.year);
    Regroup(a, m, b);
    assert a != [] && IsDigit(a[0]) && b != [] && IsDigit(b[|b| - 1]);
    DigitsAroundAreTrimmed(a, "/" + m + "/", b);
  }

  lemma Regroup(a: string, m: string, b: string)
    ensures a + "/" + m + "/" + b == a + ("/" + m + "/") + b
  {
  }

  /** A string that starts and ends with a digit is its own trim. */
  lemma DigitsAroundAreTrimmed(a: string, mid: string, b: string)
    requires a != [] && b != [] && IsDigit(a[0]) && IsDigit(b[|b| - 1])
    ensures Trim(a + mid + b) == a + mid + b
  {
    var s := a + mid + b;
    assert s[0] == a[0] && s[|s| - 1] == b[|b| - 1];
    TrimUnchanged(s);
  }

  /** A non-empty text whose first and last characters are not white space is its own trim. */
  lemma TrimUnchanged(s: string)
    requires s != [] && !IsSpace(s[0]) && !IsSpace(s[|s| - 1])
    ensures Trim(s) == s
  {
  }
}
