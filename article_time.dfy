/**
 * `datetime.strptime(value, '%a %b %d %H:%M:%S %Y')` in the C locale, as
 * `fetch_article_datetime` (utils.py) applies it to an article's header
 * time, with the result placed at UTC+8 (`TAIPEI_TZ`). A timestamp is an
 * integer number of seconds of UTC+8 civil time counted from
 * 0001-01-01 00:00:00; all times the program compares carry that zone.
 */
module ArticleTime {
  import opened Wrappers
  import opened PyStrings

  // ---------------------------------------------------------------------------
  // Civil time at UTC+8 and its seconds
  // ---------------------------------------------------------------------------

  datatype CivilTime = CivilTime(year: int, month: int, day: int, hour: int, minute: int, second: int)

  predicate IsLeapYear(y: int)
  {
    y % 4 == 0 && (y % 100 != 0 || y % 400 == 0)
  }

  function DaysInYear(y: int): nat
  {
    if IsLeapYear(y) then 366 else 365
  }

  function DaysInMonth(y: int, m: int): nat
    requires 1 <= m <= 12
  {
    if m == 2 then (if IsLeapYear(y) then 29 else 28)
    else if m == 4 || m == 6 || m == 9 || m == 11 then 30
    else 31
  }

  /** The ranges `datetime(...)` accepts: years 1 to 9999, real days, seconds below 60. */
  predicate Valid(t: CivilTime)
  {
    && 1 <= t.year <= 9999
    && 1 <= t.month <= 12
    && 1 <= t.day <= DaysInMonth(t.year, t.month)
    && 0 <= t.hour < 24 && 0 <= t.minute < 60 && 0 <= t.second < 60
  }

  function DaysBeforeMonth(y: int, m: int): nat
    requires 1 <= m <= 12
  {
    [0, 31, 59, 90, 120, 151, 181, 212, 243, 273, 304, 334][m - 1]
    + (if m > 2 && IsLeapYear(y) then 1 else 0)
  }

  function DaysBeforeYear(y: int): nat
    requires y >= 1
  {
    if y == 1 then 0 else DaysBeforeYear(y - 1) + DaysInYear(y - 1)
  }

  function DayNumber(t: CivilTime): nat
    requires Valid(t)
  {
    DaysBeforeYear(t.year) + DaysBeforeMonth(t.year, t.month) + t.day - 1
  }

  /** Seconds of UTC+8 civil time since 0001-01-01 00:00:00. */
  function ToSeconds(t: CivilTime): int
    requires Valid(t)
  {
    DayNumber(t) * 86400 + t.hour * 3600 + t.minute * 60 + t.second
  }

  /** How `datetime` orders two values: field by field, most significant first. */
  predicate Before(a: CivilTime, b: CivilTime)
  {
    if a.year != b.year then a.year < b.year
    else if a.month != b.month then a.month < b.month
    else if a.day != b.day then a.day < b.day
    else if a.hour != b.hour then a.hour < b.hour
    else if a.minute != b.minute then a.minute < b.minute
    else a.second < b.second
  }

  lemma MonthsFitYear(y: int, m: int)
    requires 1 <= m <= 12
    ensures DaysBeforeMonth(y, m) + DaysInMonth(y, m) <= DaysInYear(y)
    ensures m < 12 ==> DaysBeforeMonth(y, m + 1) == DaysBeforeMonth(y, m) + DaysInMonth(y, m)
  {
  }

  lemma {:induction false} DaysBeforeMonthGrows(y: int, m1: int, m2: int)
    requires 1 <= m1 < m2 <= 12
    ensures DaysBeforeMonth(y, m1) + DaysInMonth(y, m1) <= DaysBeforeMonth(y, m2)
    decreases m2 - m1
  {
    MonthsFitYear(y, m1);
    if m1 + 1 < m2 {
      DaysBeforeMonthGrows(y, m1 + 1, m2);
    }
  }

  lemma {:induction false} DaysBeforeYearGrows(y1: int, y2: int)
    requires 1 <= y1 < y2
    ensures DaysBeforeYear(y1) + DaysInYear(y1) <= DaysBeforeYear(y2)
    decreases y2 - y1
  {
    if y1 + 1 < y2 {
      DaysBeforeYearGrows(y1 + 1, y2);
    }
  }

  lemma DayNumberOrder(a: CivilTime, b: CivilTime)
    requires Valid(a) && Valid(b)
    requires a.year < b.year || (a.year == b.year && (a.month < b.month || (a.month == b.month && a.day < b.day)))
    ensures DayNumber(a) < DayNumber(b)
  {
    MonthsFitYear(a.year, a.month);
    if a.year < b.year {
      DaysBeforeYearGrows(a.year, b.year);
    } else if a.month < b.month {
      DaysBeforeMonthGrows(a.year, a.month, b.month);
    }
  }

  lemma BeforeIncreasesSeconds(a: CivilTime, b: CivilTime)
    requires Valid(a) && Valid(b) && Before(a, b)
    ensures ToSeconds(a) < ToSeconds(b)
  {
    if a.year != b.year || a.month != b.month || a.day != b.day {
      DayNumberOrder(a, b);
    }
  }

  /**
   * Comparing the seconds of two valid times is comparing the times:
   * the integer timestamps order instants exactly as `datetime` does.
   */
  lemma ToSecondsOrder(a: CivilTime, b: CivilTime)
    requires Valid(a) && Valid(b)
    ensures Before(a, b) <==> ToSeconds(a) < ToSeconds(b)
    ensures a == b <==> ToSeconds(a) == ToSeconds(b)
  {
    if Before(a, b) {
      BeforeIncreasesSeconds(a, b);
    } else if a != b {
      assert Before(b, a);
      BeforeIncreasesSeconds(b, a);
    }
  }

  // ---------------------------------------------------------------------------
  // '%a %b %d %H:%M:%S %Y'
  // ---------------------------------------------------------------------------

  const WeekdayNames: seq<string> := ["Mon", "Tue", "Wed", "Thu", "Fri", "Sat", "Sun"]
  const MonthNames: seq<string> :=
    ["Jan", "Feb", "Mar", "Apr", "May", "Jun", "Jul", "Aug", "Sep", "Oct", "Nov", "Dec"]

  /** The first of `names` equal to `s` ignoring case, searching from position `from`. */
  function NameIndex(names: seq<string>, s: string, from: nat): (r: Option<nat>)
    ensures r.Some? ==> from <= r.value < |names| && Lower(names[r.value]) == Lower(s)
    ensures r.Some? ==> forall j :: from <= j < r.value ==> Lower(names[j]) != Lower(s)
    ensures r.None? ==> forall j :: from <= j < |names| ==> Lower(names[j]) != Lower(s)
    decreases |names| - from
  {
    if from >= |names| then None
    else if Lower(names[from]) == Lower(s) then Some(from)
    else NameIndex(names, s, from + 1)
  }

  /** `%a` or `%b`: one of three-letter `names`, any case; yields its index. */
  function ParseName(s: string, names: seq<string>): Option<(nat, string)>
  {
    if |s| < 3 then None
    else
      var i :- NameIndex(names, s[..3], 0);
      Some((i, s[3..]))
  }

  /** Whitespace in the format: one or more whitespace characters, all consumed. */
  function ParseSpaces(s: string): Option<string>
  {
    if s != [] && IsSpace(s[0]) then Some(LStrip(s)) else None
  }

  function ParseChar(s: string, c: char): Option<string>
  {
    if s != [] && s[0] == c then Some(s[1..]) else None
  }

  /** The number of ASCII digits `s` starts with. */
  function DigitRun(s: string): (n: nat)
    ensures n <= |s| && AllDigits(s[..n])
    ensures n == |s| || !IsDigit(s[n])
    decreases |s|
  {
    if s != [] && IsDigit(s[0]) then
      var m := DigitRun(s[1..]);
      assert s[..m + 1] == [s[0]] + s[1..][..m];
      m + 1
    else 0
  }

  /**
   * `%d`, `%H`, `%M`, `%S`: one or two digits whose value lies in `lo..hi`
   * (the directive's regular expression), not followed by a further digit.
   */
  function ParseField(s: string, lo: int, hi: int): Option<(int, string)>
  {
    var n := DigitRun(s);
    if 1 <= n <= 2 && lo <= DecimalValue(s[..n]) <= hi then Some((DecimalValue(s[..n]), s[n..]))
    else None
  }

  /** `%Y` at the end of the text: exactly four digits and nothing after them. */
  function ParseYear(s: string): Option<int>
  {
    if |s| == 4 && AllDigits(s) then Some(DecimalValue(s)) else None
  }

  /**
   * `datetime.strptime(s, '%a %b %d %H:%M:%S %Y')`. The weekday is read and
   * then ignored; the day may be space padded (`%d` accepts ' 3'); values
   * the directives accept but `datetime` does not (February 30, second 60
   * or 61, year 0) yield `None`, as the `ValueError` does.
   */
  function ParseTimestamp(s: string): (r: Option<CivilTime>)
    ensures r.Some? ==> Valid(r.value)
  {
    var wd :- ParseName(s, WeekdayNames);
    var s1 :- ParseSpaces(wd.1);
    ParseFromMonth(s1)
  }

  /** The rest of the format after the weekday and its whitespace: `%b %d %H:%M:%S %Y`. */
  function ParseFromMonth(s: string): (r: Option<CivilTime>)
    ensures r.Some? ==> Valid(r.value)
  {
    var mo :- ParseName(s, MonthNames);
    var s1 :- ParseSpaces(mo.1);
    ParseFromDay(mo.0 + 1, s1)
  }

  /**
   * The rest of the format after the month: `%d %H:%M:%S %Y`, then the
   * check `datetime` makes of the assembled fields.
   */
  function ParseFromDay(month: int, s: string): (r: Option<CivilTime>)
    ensures r.Some? ==> Valid(r.value) && r.value.month == month
  {
    var day :- ParseField(s, 1, 31);
    var s1 :- ParseSpaces(day.1);
    var clock :- ParseClockAndYear(s1);
    var t := CivilTime(clock.3, month, day.0, clock.0, clock.1, clock.2);
    if Valid(t) then Some(t) else None
  }

  /** `%H:%M:%S %Y`, to the end of the text: hour, minute, second and year. */
  function ParseClockAndYear(s: string): Option<(int, int, int, int)>
  {
    var hour :- ParseField(s, 0, 23);
    var s1 :- ParseChar(hour.1, ':');
    var minute :- ParseField(s1, 0, 59);
    var s2 :- ParseChar(minute.1, ':');
    var second :- ParseField(s2, 0, 61);
    var s3 :- ParseSpaces(second.1);
    var year :- ParseYear(s3);
    Some((hour.0, minute.0, second.0, year))
  }

  // ---------------------------------------------------------------------------
  // The header line as PTT writes it, read back
  // ---------------------------------------------------------------------------

  /** Zero-padded two digits, as PTT writes hours, minutes and seconds. */
  function TwoDigits(v: nat): string
    requires v < 100
  {
    [DigitChar(v / 10), DigitChar(v % 10)]
  }

  /** The day of the month space-padded to two characters (` 3`, `13`). */
  function PaddedDay(d: nat): string
    requires 1 <= d < 100
  {
    if d < 10 then [' ', DigitChar(d)] else TwoDigits(d)
  }

  /** Field values the directives of the format accept, with a four-digit year. */
  predicate InDirectiveRanges(t: CivilTime)
  {
    && 1000 <= t.year <= 9999 && 1 <= t.month <= 12 && 1 <= t.day <= 31
    && 0 <= t.hour <= 23 && 0 <= t.minute <= 59 && 0 <= t.second <= 61
  }

  /** The `時間` value of a PTT article header, e.g. `Mon Feb  3 12:34:56 2026`. */
  function FormatPttTime(t: CivilTime, weekday: nat): string
    requires InDirectiveRanges(t) && weekday < 7
  {
    WeekdayNames[weekday] + (" " + (MonthNames[t.month - 1] + (" " + (PaddedDay(t.day) + (" " + FormatClock(t))))))
  }

  /** `HH:MM:SS YYYY`. */
  function FormatClock(t: CivilTime): string
    requires InDirectiveRanges(t)
  {
    TwoDigits(t.hour) + (":" + (TwoDigits(t.minute) + (":" + (TwoDigits(t.second) + (" " + NatToStr(t.year))))))
  }

  /** Two strings whose lower cases differ at one position differ in lower case. */
  lemma LowerDiffers(a: string, b: string, k: nat)
    requires k < |a| && k < |b| && LowerChar(a[k]) != LowerChar(b[k])
    ensures Lower(a) != Lower(b)
  {
    assert Lower(a)[k] != Lower(b)[k];
  }

  lemma NamesDistinct()
    ensures forall i :: 0 <= i < |WeekdayNames| ==> |WeekdayNames[i]| == 3
    ensures forall i :: 0 <= i < |MonthNames| ==> |MonthNames[i]| == 3
    ensures forall i, j :: 0 <= j < i < |WeekdayNames| ==> Lower(WeekdayNames[j]) != Lower(WeekdayNames[i])
    ensures forall i, j :: 0 <= j < i < |MonthNames| ==> Lower(MonthNames[j]) != Lower(MonthNames[i])
  {
    forall i, j | 0 <= j < i < |WeekdayNames|
      ensures Lower(WeekdayNames[j]) != Lower(WeekdayNames[i])
    {
      var a, b := WeekdayNames[j], WeekdayNames[i];
      if LowerChar(a[0]) != LowerChar(b[0]) { LowerDiffers(a, b, 0); } else { LowerDiffers(a, b, 1); }
    }
    forall i, j | 0 <= j < i < |MonthNames|
      ensures Lower(MonthNames[j]) != Lower(MonthNames[i])
    {
      var a, b := MonthNames[j], MonthNames[i];
      if LowerChar(a[0]) != LowerChar(b[0]) { LowerDiffers(a, b, 0); }
      else if LowerChar(a[1]) != LowerChar(b[1]) { LowerDiffers(a, b, 1); }
      else { LowerDiffers(a, b, 2); }
    }
  }

  lemma ParseNameOf(names: seq<string>, i: nat, rest: string)
    requires i < |names| && |names[i]| == 3
    requires forall j :: 0 <= j < i ==> Lower(names[j]) != Lower(names[i])
    ensures ParseName(names[i] + rest, names) == Some((i, rest))
  {
    var s := names[i] + rest;
    assert s[..3] == names[i] && s[3..] == rest;
    var r := NameIndex(names, names[i], 0);
    assert r == Some(i);
  }

  lemma {:induction false} LeadingSpacesOf(sp: string, rest: string)
    requires forall k :: 0 <= k < |sp| ==> IsSpace(sp[k])
    requires rest == [] || !IsSpace(rest[0])
    ensures LeadingSpaces(sp + rest) == |sp|
    decreases |sp|
  {
    if sp != [] {
      assert (sp + rest)[1..] == sp[1..] + rest;
      LeadingSpacesOf(sp[1..], rest);
    } else {
      assert sp + rest == rest;
    }
  }

  lemma ParseSpacesOf(sp: string, rest: string)
    requires sp != [] && forall k :: 0 <= k < |sp| ==> IsSpace(sp[k])
    requires rest == [] || !IsSpace(rest[0])
    ensures ParseSpaces(sp + rest) == Some(rest)
  {
    LeadingSpacesOf(sp, rest);
    assert (sp + rest)[|sp|..] == rest;
  }

  lemma {:induction false} DigitRunOf(ds: string, rest: string)
    requires AllDigits(ds)
    requires rest == [] || !IsDigit(rest[0])
    ensures DigitRun(ds + rest) == |ds|
    decreases |ds|
  {
    if ds != [] {
      assert (ds + rest)[1..] == ds[1..] + rest;
      DigitRunOf(ds[1..], rest);
    } else {
      assert ds + rest == rest;
    }
  }

  lemma ParseFieldOf(ds: string, rest: string, lo: int, hi: int)
    requires 1 <= |ds| <= 2 && AllDigits(ds)
    requires rest == [] || !IsDigit(rest[0])
    ensures ParseField(ds + rest, lo, hi) ==
      if lo <= DecimalValue(ds) <= hi then Some((DecimalValue(ds), rest)) else None
  {
    DigitRunOf(ds, rest);
    assert (ds + rest)[..|ds|] == ds && (ds + rest)[|ds|..] == rest;
  }

  lemma TwoDigitsValue(v: nat)
    requires v < 100
    ensures AllDigits(TwoDigits(v)) && DecimalValue(TwoDigits(v)) == v
  {
    var s := TwoDigits(v);
    assert s[..|s| - 1] == [DigitChar(v / 10)];
    assert [DigitChar(v / 10)][..0] == [];
    assert DecimalValue([DigitChar(v / 10)]) == v / 10;
    assert DecimalValue(s) == (v / 10) * 10 + v % 10;
  }

  lemma FourDigitYear(y: nat)
    requires 1000 <= y <= 9999
    ensures |NatToStr(y)| == 4
  {
    assert |NatToStr(y / 1000)| == 1;
    assert |NatToStr(y / 100)| == 2;
    assert |NatToStr(y / 10)| == 3;
  }

  /** The clock and year as PTT writes them read back as themselves. */
  lemma ParseFormattedClock(t: CivilTime)
    requires InDirectiveRanges(t)
    ensures ParseClockAndYear(FormatClock(t)) == Some((t.hour, t.minute, t.second, t.year))
  {
    var yearText := NatToStr(t.year);
    var r6 := " " + yearText;
    var r4 := ":" + (TwoDigits(t.second) + r6);
    var r2 := ":" + (TwoDigits(t.minute) + r4);
    assert ParseYear(yearText) == Some(t.year) by {
      FourDigitYear(t.year);
      NatToStrValue(t.year);
    }
    ParseSpacesOf(" ", yearText);
    TwoDigitsValue(t.second);
    ParseFieldOf(TwoDigits(t.second), r6, 0, 61);
    TwoDigitsValue(t.minute);
    ParseFieldOf(TwoDigits(t.minute), r4, 0, 59);
    TwoDigitsValue(t.hour);
    ParseFieldOf(TwoDigits(t.hour), r2, 0, 23);
    ClockAndYearSteps(FormatClock(t), r2, TwoDigits(t.minute) + r4, r4, TwoDigits(t.second) + r6, r6, yearText,
                      t.hour, t.minute, t.second, t.year);
  }

  lemma ClockAndYearSteps(s: string, s1: string, s2: string, s3: string, s4: string, s5: string, s6: string,
                          hour: int, minute: int, second: int, year: int)
    requires ParseField(s, 0, 23) == Some((hour, s1))
    requires ParseChar(s1, ':') == Some(s2)
    requires ParseField(s2, 0, 59) == Some((minute, s3))
    requires ParseChar(s3, ':') == Some(s4)
    requires ParseField(s4, 0, 61) == Some((second, s5))
    requires ParseSpaces(s5) == Some(s6)
    requires ParseYear(s6) == Some(year)
    ensures ParseClockAndYear(s) == Some((hour, minute, second, year))
  {
  }

  /**
   * Reading back a PTT header time: a time whose fields the directives accept
   * parses to itself exactly when `datetime` accepts it, and to `None`
   * otherwise (February 30, second 60 or 61). The weekday written is ignored.
   */
  lemma ParseFormatted(t: CivilTime, weekday: nat)
    requires InDirectiveRanges(t) && weekday < 7
    ensures ParseTimestamp(FormatPttTime(t, weekday)) == if Valid(t) then Some(t) else None
  {
    var m0 := " " + (PaddedDay(t.day) + (" " + FormatClock(t)));
    var w0 := " " + (MonthNames[t.month - 1] + m0);
    WeekdayOf(t, weekday, w0);
    ParseSpacesOf(" ", MonthNames[t.month - 1] + m0);
    ParseFromMonthOf(t, m0);
    ParseTimestampSteps(FormatPttTime(t, weekday), weekday, w0, MonthNames[t.month - 1] + m0);
  }

  lemma WeekdayOf(t: CivilTime, weekday: nat, w0: string)
    requires InDirectiveRanges(t) && weekday < 7
    requires w0 == " " + (MonthNames[t.month - 1] + (" " + (PaddedDay(t.day) + (" " + FormatClock(t)))))
    ensures ParseName(FormatPttTime(t, weekday), WeekdayNames) == Some((weekday, w0))
  {
    NamesDistinct();
    ParseNameOf(WeekdayNames, weekday, w0);
  }

  lemma ParseTimestampSteps(s: string, weekday: nat, w0: string, m: string)
    requires ParseName(s, WeekdayNames) == Some((weekday, w0))
    requires ParseSpaces(w0) == Some(m)
    ensures ParseTimestamp(s) == ParseFromMonth(m)
  {
  }

  lemma ParseFromMonthOf(t: CivilTime, m0: string)
    requires InDirectiveRanges(t)
    requires m0 == " " + (PaddedDay(t.day) + (" " + FormatClock(t)))
    ensures ParseFromMonth(MonthNames[t.month - 1] + m0) == if Valid(t) then Some(t) else None
  {
    NamesDistinct();
    var d0 := " " + FormatClock(t);
    var dayDigits := if t.day < 10 then [DigitChar(t.day)] else TwoDigits(t.day);
    var dayPad := if t.day < 10 then "  " else " ";
    assert m0 == dayPad + (dayDigits + d0);
    ParseSpacesOf(dayPad, dayDigits + d0);
    ParseFromDayOf(t, dayDigits, d0);
    ParseNameOf(MonthNames, t.month - 1, m0);
  }

  lemma ParseFromDayOf(t: CivilTime, dayDigits: string, d0: string)
    requires InDirectiveRanges(t)
    requires dayDigits == if t.day < 10 then [DigitChar(t.day)] else TwoDigits(t.day)
    requires d0 == " " + FormatClock(t)
    ensures ParseFromDay(t.month, dayDigits + d0) == if Valid(t) then Some(t) else None
  {
    ParseFormattedClock(t);
    ParseSpacesOf(" ", FormatClock(t));
    if t.day >= 10 { TwoDigitsValue(t.day); }
    ParseFieldOf(dayDigits, d0, 1, 31);
  }

  /** The example from the source's docstring. */
  lemma ParsesHeaderExample()
    ensures ParseTimestamp("Mon Feb  3 12:34:56 2026") == Some(CivilTime(2026, 2, 3, 12, 34, 56))
  {
    Feb3Text();
    ParseFormatted(CivilTime(2026, 2, 3, 12, 34, 56), 0);
  }

  /** A day the month does not have is rejected. */
  lemma RejectsFebruary30()
    ensures ParseTimestamp("Mon Feb 30 12:34:56 2026") == None
  {
    Feb30Text();
    assert !IsLeapYear(2026);
    ParseFormatted(CivilTime(2026, 2, 30, 12, 34, 56), 0);
  }

  /** A leap second passes the `%S` pattern but not `datetime`. */
  lemma RejectsSecond60()
    ensures ParseTimestamp("Mon Feb  3 12:34:60 2026") == None
  {
    Second60Text();
    ParseFormatted(CivilTime(2026, 2, 3, 12, 34, 60), 0);
  }

  /**
   * The header text of 3 February 2026, 12:34:56, written with the weekday
   * name `Mon`. That day is a Tuesday, but `strptime` only matches `%a`
   * against the names and does not check the weekday against the date, so
   * the text still parses.
   */
  lemma Feb3Text()
    ensures FormatPttTime(CivilTime(2026, 2, 3, 12, 34, 56), 0) == "Mon Feb  3 12:34:56 2026"
  {
  }

  /** The header text PTT would write for 30 February 2026. */
  lemma Feb30Text()
    ensures FormatPttTime(CivilTime(2026, 2, 30, 12, 34, 56), 0) == "Mon Feb 30 12:34:56 2026"
  {
  }

  /** The header text with a leap second. */
  lemma Second60Text()
    ensures FormatPttTime(CivilTime(2026, 2, 3, 12, 34, 60), 0) == "Mon Feb  3 12:34:60 2026"
  {
  }
}
