/** Calendar dates as the data flow reads them: `YYYY-MM-DD` strings, month
  * labels, and the month stepping done by `Date.prototype.setMonth`. */
module DateHelpers {
  import opened Wrappers
  import opened DecimalText

  /** A calendar month, January = 1 (`getMonth() + 1`). */
  type Month = m: int | 1 <= m <= 12 witness 1

  const MonthLabels: seq<string> :=
    ["Jan", "Feb", "Mar", "Apr", "May", "Jun", "Jul", "Aug", "Sep", "Oct", "Nov", "Dec"]

  /** `getMonthLabel`: the three-letter abbreviation of a month. */
  function MonthLabel(month: Month): (text: string)
    ensures |text| == 3
  {
    MonthLabels[month - 1]
  }

  /** No two months share an abbreviation. */
  lemma MonthLabelInjective(a: Month, b: Month)
    requires MonthLabel(a) == MonthLabel(b)
    ensures a == b
  {
    var la, lb := MonthLabel(a), MonthLabel(b);
    assert la[0] == lb[0] && la[1] == lb[1] && la[2] == lb[2];
  }

  /** `monthLabels[month - 1] + " " + year`, the label of a forecast item. */
  function MonthYearLabel(month: Month, year: int): (text: string)
    ensures |text| >= 5
  {
    MonthLabel(month) + " " + IntToString(year)
  }

  /** A label is the month abbreviation, a space, and the year's digits. */
  lemma MonthYearLabelParts(month: Month, year: int)
    ensures var text := MonthYearLabel(month, year);
      text[..3] == MonthLabel(month) && text[3] == ' ' && text[4..] == IntToString(year)
  {
  }

  /** Month and year can be read back from a label: different months or years
    * never share one. */
  lemma MonthYearLabelInjective(m1: Month, y1: int, m2: Month, y2: int)
    requires MonthYearLabel(m1, y1) == MonthYearLabel(m2, y2)
    ensures m1 == m2 && y1 == y2
  {
    MonthYearLabelParts(m1, y1);
    MonthYearLabelParts(m2, y2);
    MonthLabelInjective(m1, m2);
    IntToStringInjective(y1, y2);
  }

  datatype CalendarDate = CalendarDate(year: int, month: Month, day: int)

  /** Proleptic Gregorian leap years, as ECMAScript's `DaysInYear` defines them. */
  predicate IsLeapYear(year: int)
  {
    (year % 4 == 0 && year % 100 != 0) || year % 400 == 0
  }

  function DaysInMonth(year: int, month: Month): (days: int)
    ensures 28 <= days <= 31
    ensures month == 2 ==> (days == 29 <==> IsLeapYear(year))
    ensures month != 2 ==> (days == 30 <==> month in {4, 6, 9, 11})
  {
    if month == 2 then (if IsLeapYear(year) then 29 else 28)
    else if month in {4, 6, 9, 11} then 30
    else 31
  }

  ghost predicate ValidDate(d: CalendarDate)
  {
    1 <= d.day <= DaysInMonth(d.year, d.month)
  }

  /** The year, month and day of a `YYYY-MM-DD` string that names a real calendar
    * day; None for any other string. */
  function ParseIsoDate(s: string): (r: Option<CalendarDate>)
    ensures r.Some? ==> ValidDate(r.value) && 0 <= r.value.year <= 9999
  {
    if |s| == 10 && s[4] == '-' && s[7] == '-'
       && AllDigits(s[..4]) && AllDigits(s[5..7]) && AllDigits(s[8..])
    then
      var year, month, day := DigitsValue(s[..4]), DigitsValue(s[5..7]), DigitsValue(s[8..]);
      if 1 <= month <= 12 && 1 <= day <= DaysInMonth(year, month)
      then Some(CalendarDate(year, month, day))
      else None
    else None
  }

  /** The `YYYY-MM-DD` spelling of a date with a four-digit year. */
  function FormatIsoDate(d: CalendarDate): (s: string)
    requires ValidDate(d) && 0 <= d.year <= 9999
    ensures |s| == 10 && s[4] == '-' && s[7] == '-'
  {
    assert Pow10(4) == 10000 && Pow10(2) == 100;
    PadDigits(d.year, 4) + "-" + PadDigits(d.month, 2) + "-" + PadDigits(d.day, 2)
  }

  /** Formatting a date and parsing it back gives the same date. */
  lemma ParseFormatIsoDate(d: CalendarDate)
    requires ValidDate(d) && 0 <= d.year <= 9999
    ensures ParseIsoDate(FormatIsoDate(d)) == Some(d)
  {
    var s := FormatIsoDate(d);
    assert Pow10(4) == 10000 && Pow10(2) == 100;
    assert s[..4] == PadDigits(d.year, 4);
    assert s[5..7] == PadDigits(d.month, 2);
    assert s[8..] == PadDigits(d.day, 2);
    PadDigitsValue(d.year, 4);
    PadDigitsValue(d.month, 2);
    PadDigitsValue(d.day, 2);
  }

  lemma ParsedFields(s: string)
    requires ParseIsoDate(s).Some?
    ensures |s| == 10 && s[4] == '-' && s[7] == '-'
    ensures AllDigits(s[..4]) && AllDigits(s[5..7]) && AllDigits(s[8..])
    ensures var d := ParseIsoDate(s).value;
      d.year == DigitsValue(s[..4]) && d.month == DigitsValue(s[5..7]) && d.day == DigitsValue(s[8..])
  {
  }

  lemma JoinIsoFields(s: string)
    requires |s| == 10 && s[4] == '-' && s[7] == '-'
    ensures s == s[..4] + "-" + s[5..7] + "-" + s[8..]
  {
  }

  /** A string that parses is exactly the formatting of what it parses to. */
  lemma FormatParseIsoDate(s: string)
    requires ParseIsoDate(s).Some?
    ensures FormatIsoDate(ParseIsoDate(s).value) == s
  {
    ParsedFields(s);
    PadDigitsOfValue(s[..4]);
    PadDigitsOfValue(s[5..7]);
    PadDigitsOfValue(s[8..]);
    JoinIsoFields(s);
  }

  /** A number that orders dates chronologically (the role of `getTime()`). */
  function DateKey(d: CalendarDate): int
  {
    d.year * 372 + (d.month - 1) * 31 + (d.day - 1)
  }

  /** Keys of valid dates compare as the dates do: by year, then month, then day. */
  lemma DateKeyOrder(a: CalendarDate, b: CalendarDate)
    requires ValidDate(a) && ValidDate(b)
    ensures DateKey(a) < DateKey(b) <==>
      a.year < b.year || (a.year == b.year && (a.month < b.month || (a.month == b.month && a.day < b.day)))
    ensures DateKey(a) == DateKey(b) <==> a == b
  {
  }

  /** The (year, month) after the given one. */
  function FollowingMonth(year: int, month: Month): (r: (int, Month))
    ensures month < 12 ==> r == (year, month + 1)
    ensures month == 12 ==> r == (year + 1, 1)
  {
    if month == 12 then (year + 1, 1) else (year, month + 1)
  }

  /** The (year, month) `k` months after the given one. */
  function AddMonths(year: int, month: Month, k: nat): (int, Month)
  {
    if k == 0 then (year, month)
    else
      var prev := AddMonths(year, month, k - 1);
      FollowingMonth(prev.0, prev.1)
  }

  /** `k` months later is `k` further on the month count. */
  lemma {:induction false} AddMonthsIndex(year: int, month: Month, k: nat)
    ensures var r := AddMonths(year, month, k);
      MonthIndex(r.0, r.1) == MonthIndex(year, month) + k
  {
    if k > 0 {
      AddMonthsIndex(year, month, k - 1);
    }
  }

  /** `d.setMonth(d.getMonth() + 1)`: the same day of the next month; a day past
    * that month's end runs on into the month after it. */
  function NextMonthDate(d: CalendarDate): CalendarDate
  {
    var next := FollowingMonth(d.year, d.month);
    var days := DaysInMonth(next.0, next.1);
    if d.day <= days then CalendarDate(next.0, next.1, d.day)
    else
      var after := FollowingMonth(next.0, next.1);
      CalendarDate(after.0, after.1, d.day - days)
  }

  /** A valid date steps to a valid date: the same day of the next month, or,
    * past that month's end, day 1 to 3 of the month after. */
  lemma NextMonthDateValid(d: CalendarDate)
    requires ValidDate(d)
    ensures var r := NextMonthDate(d);
      var next := FollowingMonth(d.year, d.month);
      ValidDate(r) &&
      if d.day <= DaysInMonth(next.0, next.1)
      then (r.year, r.month) == next && r.day == d.day
      else (r.year, r.month) == FollowingMonth(next.0, next.1) &&
           r.day == d.day - DaysInMonth(next.0, next.1) && 1 <= r.day <= 3
  {
  }

  /** The date after `k` successive `setMonth(getMonth() + 1)` calls. */
  function DateAfter(d: CalendarDate, k: nat): CalendarDate
  {
    if k == 0 then d else NextMonthDate(DateAfter(d, k - 1))
  }

  /** Stepping once and then `k` times is stepping `k + 1` times. */
  lemma {:induction false} DateAfterShift(d: CalendarDate, k: nat)
    ensures DateAfter(NextMonthDate(d), k) == DateAfter(d, k + 1)
  {
    if k > 0 {
      DateAfterShift(d, k - 1);
    }
  }

  lemma {:induction false} DateAfterValid(d: CalendarDate, k: nat)
    requires ValidDate(d)
    ensures ValidDate(DateAfter(d, k))
  {
    if k > 0 {
      DateAfterValid(d, k - 1);
      NextMonthDateValid(DateAfter(d, k - 1));
    }
  }

  /** From a day of month up to 28 the stepping never overflows: the k-th date is
    * `k` calendar months on, on the same day. */
  lemma {:induction false} DateAfterEarlyDay(d: CalendarDate, k: nat)
    requires ValidDate(d) && d.day <= 28
    ensures (DateAfter(d, k).year, DateAfter(d, k).month) == AddMonths(d.year, d.month, k)
    ensures DateAfter(d, k).day == d.day
  {
    if k > 0 {
      DateAfterEarlyDay(d, k - 1);
      DateAfterValid(d, k - 1);
      NextMonthDateValid(DateAfter(d, k - 1));
    }
  }

  /** Month number counted from January of year 0. */
  function MonthIndex(year: int, month: Month): int
  {
    year * 12 + month - 1
  }

  /** Two months fewer than twelve months apart are different months. */
  lemma MonthIndexCloseDistinct(year1: int, month1: Month, year2: int, month2: Month)
    requires 0 < MonthIndex(year2, month2) - MonthIndex(year1, month1) < 12
    ensures month1 != month2
  {
  }

  /** A day past 28 makes the stepping skip one month at most, after which the
    * day is at most 3 and never overflows again. */
  lemma {:induction false} DateAfterSkipsAtMostOnce(d: CalendarDate, k: nat)
    requires ValidDate(d)
    ensures var r := DateAfter(d, k);
      (MonthIndex(r.year, r.month) == MonthIndex(d.year, d.month) + k && r.day == d.day) ||
      (d.day > 28 && MonthIndex(r.year, r.month) == MonthIndex(d.year, d.month) + k + 1 && r.day <= 3)
  {
    if k > 0 {
      DateAfterSkipsAtMostOnce(d, k - 1);
      DateAfterValid(d, k - 1);
      NextMonthDateValid(DateAfter(d, k - 1));
    }
  }

  /** Stepping on from the 31st of January goes to the 3rd of March in a common
    * year: February is skipped. */
  lemma JanuaryThirtyFirstSkipsFebruary(d: CalendarDate)
    requires d == CalendarDate(2025, 1, 31)
    ensures NextMonthDate(d) == CalendarDate(2025, 3, 3)
  {
  }
}
