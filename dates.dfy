/** The calendar arithmetic behind `datetime.now()`, `+ timedelta(days=1)` and
    `strftime`: proleptic Gregorian dates in the range Python's `datetime`
    supports, the day after a date, and the renderings the scraper uses. */
module Dates {
  import opened Wrappers
  import Text

  datatype Date = Date(year: int, month: int, day: int)

  /** `datetime.MINYEAR` and `datetime.MAXYEAR`. */
  const MinYear := 1
  const MaxYear := 9999

  /** The exception message Python gives when a date leaves that range. */
  const OutOfRange := "date value out of range"

  predicate IsLeapYear(y: int) {
    y % 4 == 0 && (y % 100 != 0 || y % 400 == 0)
  }

  function DaysInMonth(y: int, m: int): (n: int)
    requires 1 <= m <= 12
    ensures 28 <= n <= 31
    ensures m == 2 ==> (n == 29 <==> IsLeapYear(y))
  {
    if m == 2 then (if IsLeapYear(y) then 29 else 28)
    else if m == 4 || m == 6 || m == 9 || m == 11 then 30
    else 31
  }

  predicate ValidDate(d: Date) {
    MinYear <= d.year <= MaxYear && 1 <= d.month <= 12 &&
    1 <= d.day <= DaysInMonth(d.year, d.month)
  }

  const LastDate := Date(MaxYear, 12, 31)

  /** `d + timedelta(days=1)`: the next day, rolling over month and year ends,
      or the overflow Python raises after the last representable date. */
  function NextDay(d: Date): (r: Option<Date>)
    requires ValidDate(d)
    ensures r.Some? ==> ValidDate(r.value)
    ensures r.None? <==> d == LastDate
  {
    if d.day < DaysInMonth(d.year, d.month) then Some(d.(day := d.day + 1))
    else if d.month < 12 then Some(Date(d.year, d.month + 1, 1))
    else if d.year < MaxYear then Some(Date(d.year + 1, 1, 1))
    else None
  }

  // An independent count of days, like Python's `date.toordinal()`:
  // 0001-01-01 is day 1 and every later day counts one more.

  function YearLength(y: int): int {
    if IsLeapYear(y) then 366 else 365
  }

  function DaysBeforeYear(y: int): nat
    requires y >= 1
    decreases y
  {
    if y == 1 then 0 else DaysBeforeYear(y - 1) + YearLength(y - 1)
  }

  function DaysBeforeMonth(y: int, m: int): nat
    requires 1 <= m <= 12
    decreases m
  {
    if m == 1 then 0 else DaysBeforeMonth(y, m - 1) + DaysInMonth(y, m - 1)
  }

  function Ordinal(d: Date): int
    requires ValidDate(d)
  {
    DaysBeforeYear(d.year) + DaysBeforeMonth(d.year, d.month) + d.day
  }

  /** The twelve months add up to the length of the year. */
  lemma MonthsFillYear(y: int)
    ensures DaysBeforeMonth(y, 12) + DaysInMonth(y, 12) == YearLength(y)
  {
    var f := DaysInMonth(y, 2);
    assert DaysBeforeMonth(y, 2) == 31;
    assert DaysBeforeMonth(y, 3) == 31 + f;
    assert DaysBeforeMonth(y, 4) == 62 + f;
    assert DaysBeforeMonth(y, 5) == 92 + f;
    assert DaysBeforeMonth(y, 6) == 123 + f;
    assert DaysBeforeMonth(y, 7) == 153 + f;
    assert DaysBeforeMonth(y, 8) == 184 + f;
    assert DaysBeforeMonth(y, 9) == 215 + f;
    assert DaysBeforeMonth(y, 10) == 245 + f;
    assert DaysBeforeMonth(y, 11) == 276 + f;
    assert DaysBeforeMonth(y, 12) == 306 + f;
  }

  /** The day that `NextDay` returns is exactly one day later. */
  lemma NextDayIsOneDayLater(d: Date)
    requires ValidDate(d) && d != LastDate
    ensures NextDay(d).Some? && Ordinal(NextDay(d).value) == Ordinal(d) + 1
  {
    var e := NextDay(d).value;
    var y := d.year;
    if d.day < DaysInMonth(y, d.month) {
      assert e == Date(y, d.month, d.day + 1);
    } else if d.month < 12 {
      assert e == Date(y, d.month + 1, 1);
      assert DaysBeforeMonth(y, d.month + 1) == DaysBeforeMonth(y, d.month) + d.day;
    } else {
      assert e == Date(y + 1, 1, 1);
      assert Ordinal(d) == DaysBeforeYear(y) + DaysBeforeMonth(y, 12) + DaysInMonth(y, 12);
      assert Ordinal(d) == DaysBeforeYear(y) + YearLength(y) by {
        MonthsFillYear(y);
      }
      assert Ordinal(e) == DaysBeforeYear(y + 1) + 1;
    }
  }

  /** A month's days come after every earlier month of the same year. */
  lemma {:induction false} MonthsPrecede(y: int, m1: int, m2: int)
    requires 1 <= m1 < m2 <= 12
    ensures DaysBeforeMonth(y, m1) + DaysInMonth(y, m1) <= DaysBeforeMonth(y, m2)
    decreases m2 - m1
  {
    if m1 + 1 < m2 {
      MonthsPrecede(y, m1 + 1, m2);
    }
  }

  /** A year's days come after every earlier year. */
  lemma {:induction false} YearsPrecede(y1: int, y2: int)
    requires 1 <= y1 < y2
    ensures DaysBeforeYear(y1) + YearLength(y1) <= DaysBeforeYear(y2)
    decreases y2 - y1
  {
    if y1 + 1 < y2 {
      YearsPrecede(y1 + 1, y2);
    }
  }

  /** Every date of year `y` lies inside that year's block of day numbers. */
  lemma OrdinalWithinYear(d: Date)
    requires ValidDate(d)
    ensures DaysBeforeYear(d.year) < Ordinal(d) <= DaysBeforeYear(d.year) + YearLength(d.year)
  {
    MonthsFillYear(d.year);
    if d.month < 12 {
      MonthsPrecede(d.year, d.month, 12);
    }
  }

  /** Different dates have different day numbers, so the ordinal is a faithful
      reference for "one calendar day later". */
  lemma OrdinalInjective(d1: Date, d2: Date)
    requires ValidDate(d1) && ValidDate(d2)
    requires Ordinal(d1) == Ordinal(d2)
    ensures d1 == d2
  {
    OrdinalWithinYear(d1);
    OrdinalWithinYear(d2);
    if d1.year < d2.year {
      YearsPrecede(d1.year, d2.year);
    } else if d2.year < d1.year {
      YearsPrecede(d2.year, d1.year);
    } else if d1.month < d2.month {
      MonthsPrecede(d1.year, d1.month, d2.month);
    } else if d2.month < d1.month {
      MonthsPrecede(d2.year, d2.month, d1.month);
    }
  }

  /** The date the scraper looks for: `now` plus one day when the selector is
      exactly "tomorrow", `now` itself for any other selector. */
  function TargetDate(now: Date, dateType: string): (r: Option<Date>)
    requires ValidDate(now)
    ensures dateType != "tomorrow" ==> r == Some(now)
    ensures r.None? <==> dateType == "tomorrow" && now == LastDate
    ensures r.Some? ==> ValidDate(r.value)
    ensures r.Some? ==> Ordinal(r.value) == Ordinal(now) + (if dateType == "tomorrow" then 1 else 0)
  {
    if dateType == "tomorrow" then
      (if now != LastDate then NextDayIsOneDayLater(now); NextDay(now) else NextDay(now))
    else Some(now)
  }

  // Rendering with zero padding, as `strftime`'s `%d`, `%m` and `%Y` do.

  function DigitChar(n: int): (c: char)
    requires 0 <= n <= 9
    ensures Text.IsDigit(c)
  {
    ('0' as int + n) as char
  }

  function DigitValue(c: char): int {
    c as int - '0' as int
  }

  function Pad2(n: int): (s: string)
    requires 0 <= n <= 99
    ensures |s| == 2 && Text.IsDigits(s)
  {
    [DigitChar(n / 10), DigitChar(n % 10)]
  }

  function Pad4(n: int): (s: string)
    requires 0 <= n <= 9999
    ensures |s| == 4 && Text.IsDigits(s)
  {
    Pad2(n / 100) + Pad2(n % 100)
  }

  /** `strftime('%d-%m-%Y')`. */
  function FormatDayMonthYear(d: Date): (s: string)
    requires ValidDate(d)
    ensures |s| == 10 && s[2] == '-' && s[5] == '-'
    ensures forall i :: 0 <= i < 10 && i != 2 && i != 5 ==> Text.IsDigit(s[i])
  {
    Pad2(d.day) + "-" + Pad2(d.month) + "-" + Pad4(d.year)
  }

  /** `strftime('%Y-%m-%d')`. */
  function FormatIso(d: Date): (s: string)
    requires ValidDate(d)
    ensures |s| == 10 && s[4] == '-' && s[7] == '-'
    ensures forall i :: 0 <= i < 10 && i != 4 && i != 7 ==> Text.IsDigit(s[i])
  {
    Pad4(d.year) + "-" + Pad2(d.month) + "-" + Pad2(d.day)
  }

  /** `strftime('%Y%m%d')`. */
  function FormatCompact(d: Date): (s: string)
    requires ValidDate(d)
    ensures |s| == 8 && Text.IsDigits(s)
  {
    Pad4(d.year) + Pad2(d.month) + Pad2(d.day)
  }

  // Reading a DD-MM-YYYY string back, to show that the rendering loses nothing.

  function Value2(s: string, i: int): int
    requires 0 <= i <= |s| - 2
  {
    10 * DigitValue(s[i]) + DigitValue(s[i + 1])
  }

  function ParseDayMonthYear(s: string): (r: Option<Date>)
    ensures r.Some? ==> ValidDate(r.value)
  {
    if |s| == 10 && s[2] == '-' && s[5] == '-' &&
       (forall i :: 0 <= i < 10 && i != 2 && i != 5 ==> Text.IsDigit(s[i]))
    then
      var d := Date(100 * Value2(s, 6) + Value2(s, 8), Value2(s, 3), Value2(s, 0));
      if ValidDate(d) then Some(d) else None
    else None
  }

  lemma Pad2Value(n: int)
    requires 0 <= n <= 99
    ensures Value2(Pad2(n), 0) == n
  {
  }

  /** Rendering then reading gives the date back. */
  lemma ParseFormatRoundTrip(d: Date)
    requires ValidDate(d)
    ensures ParseDayMonthYear(FormatDayMonthYear(d)) == Some(d)
  {
    var s := FormatDayMonthYear(d);
    Pad2Value(d.day);
    Pad2Value(d.month);
    Pad2Value(d.year / 100);
    Pad2Value(d.year % 100);
    assert Value2(s, 0) == d.day;
    assert Value2(s, 3) == d.month;
    assert Value2(s, 6) == d.year / 100;
    assert Value2(s, 8) == d.year % 100;
  }

  /** Reads a YYYY-MM-DD string back. */
  function ParseIso(s: string): (r: Option<Date>)
    ensures r.Some? ==> ValidDate(r.value)
  {
    if |s| == 10 && s[4] == '-' && s[7] == '-' &&
       (forall i :: 0 <= i < 10 && i != 4 && i != 7 ==> Text.IsDigit(s[i]))
    then
      var d := Date(100 * Value2(s, 0) + Value2(s, 2), Value2(s, 5), Value2(s, 8));
      if ValidDate(d) then Some(d) else None
    else None
  }

  /** Reads a YYYYMMDD string back. */
  function ParseCompact(s: string): (r: Option<Date>)
    ensures r.Some? ==> ValidDate(r.value)
  {
    if |s| == 8 && Text.IsDigits(s) then
      var d := Date(100 * Value2(s, 0) + Value2(s, 2), Value2(s, 4), Value2(s, 6));
      if ValidDate(d) then Some(d) else None
    else None
  }

  /** The year, month and day sit where YYYY-MM-DD puts them: rendering then
      reading gives the date back. */
  lemma IsoRoundTrip(d: Date)
    requires ValidDate(d)
    ensures ParseIso(FormatIso(d)) == Some(d)
  {
    var s := FormatIso(d);
    Pad2Value(d.year / 100);
    Pad2Value(d.year % 100);
    Pad2Value(d.month);
    Pad2Value(d.day);
    assert Value2(s, 0) == d.year / 100;
    assert Value2(s, 2) == d.year % 100;
    assert Value2(s, 5) == d.month;
    assert Value2(s, 8) == d.day;
  }

  /** The same for YYYYMMDD, the date in the cause-list file name. */
  lemma CompactRoundTrip(d: Date)
    requires ValidDate(d)
    ensures ParseCompact(FormatCompact(d)) == Some(d)
  {
    var s := FormatCompact(d);
    Pad2Value(d.year / 100);
    Pad2Value(d.year % 100);
    Pad2Value(d.month);
    Pad2Value(d.day);
    assert Value2(s, 0) == d.year / 100;
    assert Value2(s, 2) == d.year % 100;
    assert Value2(s, 4) == d.month;
    assert Value2(s, 6) == d.day;
  }

  /** Hence two different dates never render to the same string, and the
      substring search looks for exactly one calendar date. */
  lemma FormatInjective(d1: Date, d2: Date)
    requires ValidDate(d1) && ValidDate(d2)
    requires FormatDayMonthYear(d1) == FormatDayMonthYear(d2)
    ensures d1 == d2
  {
    ParseFormatRoundTrip(d1);
    ParseFormatRoundTrip(d2);
  }
}
