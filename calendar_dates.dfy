/** Date arithmetic of the calendar screen: the `YYYY-MM-DD` keys events
    are stored under, month lengths and the weekday a month starts on (both
    read off JavaScript `Date` objects built from year, month and day), and
    moving the displayed month back and forth. */
module CalendarDates {
  import opened Wrappers
  import opened Strings

  /** A displayed month; `month` counts from 0 (January) as `getMonth()` does. */
  datatype YearMonth = YearMonth(year: int, month: int)

  // ---------------------------------------------------------- date keys

  /** The key of a day: `${year}-${pad2(month + 1)}-${pad2(day)}`. */
  function DateKey(year: int, month: int, day: int): string {
    IntToString(year) + "-" + PadStart(IntToString(month + 1), 2, '0') + "-" + PadStart(IntToString(day), 2, '0')
  }

  /** Reads a strict `YYYY-MM-DD` string back into year, 0-based month and day. */
  function ParseDateKey(s: string): Option<(int, int, int)> {
    if |s| == 10 && s[4] == '-' && s[7] == '-' && AllDigits(s[..4]) && AllDigits(s[5..7]) && AllDigits(s[8..])
    then Some((DecimalValue(s[..4]), DecimalValue(s[5..7]) - 1, DecimalValue(s[8..])))
    else None
  }

  /** A leading zero does not change the value of a digit string. */
  lemma {:induction false} LeadingZero(t: string)
    requires AllDigits(t)
    ensures AllDigits("0" + t) && DecimalValue("0" + t) == DecimalValue(t)
  {
    if t != [] {
      assert ("0" + t)[..|"0" + t| - 1] == "0" + t[..|t| - 1];
      LeadingZero(t[..|t| - 1]);
    }
  }

  /** `pad2(String(n))` for 1 <= n <= 99: two digits that read back as n. */
  lemma Pad2(n: int)
    requires 1 <= n <= 99
    ensures var p := PadStart(IntToString(n), 2, '0');
      |p| == 2 && AllDigits(p) && DecimalValue(p) == n
  {
    NatToStringLength(n);
    NatToStringRoundTrip(n);
    if n < 10 {
      LeadingZero(NatToString(n));
      assert PadStart(IntToString(n), 2, '0') == "0" + NatToString(n);
    }
  }

  /** For a four-digit year, a month and a day of the month the key is ten
      characters long, with the dashes at positions 4 and 7, and it reads back
      as the date it was made from. */
  lemma DateKeyRoundTrip(year: int, month: int, day: int)
    requires 1000 <= year <= 9999 && 0 <= month < 12 && 1 <= day <= 31
    ensures var key := DateKey(year, month, day);
      |key| == 10 && key[4] == '-' && key[7] == '-'
      && ParseDateKey(key) == Some((year, month, day))
  {
    var y, mm, dd := IntToString(year), PadStart(IntToString(month + 1), 2, '0'), PadStart(IntToString(day), 2, '0');
    NatToStringLength(year);
    NatToStringRoundTrip(year);
    Pad2(month + 1);
    Pad2(day);
    Assemble(y, mm, dd);
  }

  lemma Assemble(y: string, mm: string, dd: string)
    requires |y| == 4 && |mm| == 2 && |dd| == 2
    ensures var key := y + "-" + mm + "-" + dd;
      |key| == 10 && key[4] == '-' && key[7] == '-' && key[..4] == y && key[5..7] == mm && key[8..] == dd
  {
  }

  /** Different days of the four-digit years have different keys. */
  lemma DateKeyInjective(y1: int, m1: int, d1: int, y2: int, m2: int, d2: int)
    requires 1000 <= y1 <= 9999 && 0 <= m1 < 12 && 1 <= d1 <= 31
    requires 1000 <= y2 <= 9999 && 0 <= m2 < 12 && 1 <= d2 <= 31
    requires DateKey(y1, m1, d1) == DateKey(y2, m2, d2)
    ensures y1 == y2 && m1 == m2 && d1 == d2
  {
    DateKeyRoundTrip(y1, m1, d1);
    DateKeyRoundTrip(y2, m2, d2);
  }

  /** Two days of the same month have the same key only when they are the
      same day, whatever the year: the keys share everything up to the
      second dash and differ in the two-digit day. */
  lemma DayKeyInjective(year: int, month: int, d1: int, d2: int)
    requires 1 <= d1 <= 31 && 1 <= d2 <= 31
    ensures DateKey(year, month, d1) == DateKey(year, month, d2) <==> d1 == d2
  {
    var prefix := IntToString(year) + "-" + PadStart(IntToString(month + 1), 2, '0') + "-";
    var dd1, dd2 := PadStart(IntToString(d1), 2, '0'), PadStart(IntToString(d2), 2, '0');
    Pad2(d1);
    Pad2(d2);
    assert DateKey(year, month, d1) == prefix + dd1;
    assert DateKey(year, month, d2) == prefix + dd2;
    if DateKey(year, month, d1) == DateKey(year, month, d2) {
      assert dd1 == (prefix + dd1)[|prefix|..];
      assert dd2 == (prefix + dd2)[|prefix|..];
    }
  }

  // --------------------------------------------- the Date constructor

  /** `new Date(y, m, d)` reads a year argument from 0 to 99 as 1900 to 1999. */
  function ConstructorYear(y: int): int {
    if 0 <= y <= 99 then 1900 + y else y
  }

  /** The month `new Date(y, m, 1)` falls in: the month argument may be out of
      0..11 and carries into the year. */
  function MonthOf(y: int, m: int): (r: YearMonth)
    ensures 0 <= r.month < 12
    ensures r.year * 12 + r.month == ConstructorYear(y) * 12 + m
  {
    YearMonth(ConstructorYear(y) + m / 12, m % 12)
  }

  /** Leap years of the proleptic Gregorian calendar `Date` uses. */
  predicate IsLeapYear(y: int) {
    y % 4 == 0 && (y % 100 != 0 || y % 400 == 0)
  }

  /** Number of days of a month. */
  function MonthLength(y: int, m: int): (n: int)
    requires 0 <= m < 12
    ensures 28 <= n <= 31
  {
    if m == 1 then (if IsLeapYear(y) then 29 else 28)
    else if m == 3 || m == 5 || m == 8 || m == 10 then 30
    else 31
  }

  /** Days of the year before the first of month `m` (ECMAScript's table for
      MonthFromTime, with the leap day counted from March on). */
  function DaysBeforeMonth(y: int, m: int): (n: int)
    requires 0 <= m < 12
    ensures 0 <= n <= 335
  {
    [0, 31, 59, 90, 120, 151, 181, 212, 243, 273, 304, 334][m] + (if m >= 2 && IsLeapYear(y) then 1 else 0)
  }

  /** Each month starts where the month before it ends. */
  lemma DaysBeforeNextMonth(y: int, m: int)
    requires 0 <= m < 11
    ensures DaysBeforeMonth(y, m + 1) == DaysBeforeMonth(y, m) + MonthLength(y, m)
  {
  }

  /** ECMAScript's DayFromYear: days from 1970-01-01 to the first of January of `y`. */
  function DayFromYear(y: int): int {
    365 * (y - 1970) + (y - 1969) / 4 - (y - 1901) / 100 + (y - 1601) / 400
  }

  /** Days from 1970-01-01 to day `d` of a month (d may be 0, the day before the first). */
  function DayNumber(ym: YearMonth, d: int): int
    requires 0 <= ym.month < 12
  {
    DayFromYear(ym.year) + DaysBeforeMonth(ym.year, ym.month) + d - 1
  }

  /** ECMAScript's WeekDay: 0 is Sunday; 1970-01-01 was a Thursday. */
  function WeekDay(day: int): (w: int)
    ensures 0 <= w < 7
  {
    (day + 4) % 7
  }

  /** The month before a normalised month. */
  function Preceding(ym: YearMonth): (r: YearMonth)
    requires 0 <= ym.month < 12
    ensures 0 <= r.month < 12
  {
    if ym.month == 0 then YearMonth(ym.year - 1, 11) else YearMonth(ym.year, ym.month - 1)
  }

  /** `getDaysInMonth(y, m)`, that is `new Date(y, m + 1, 0).getDate()`: day 0
      of the following month is the last day of the month before it. */
  function DaysInMonth(y: int, m: int): (n: int)
    ensures 28 <= n <= 31
  {
    var before := Preceding(MonthOf(y, m + 1));
    MonthLength(before.year, before.month)
  }

  /** `getFirstDayOfMonth(y, m)`, that is `new Date(y, m, 1).getDay()`. */
  function FirstDayOfMonth(y: int, m: int): (w: int)
    ensures 0 <= w < 7
  {
    WeekDay(DayNumber(MonthOf(y, m), 1))
  }

  /** The month before `next` is the month of `m`. */
  lemma PrecedingMonthOf(y: int, m: int)
    ensures Preceding(MonthOf(y, m + 1)) == MonthOf(y, m)
  {
  }

  /** Outside the two-digit years, `getDaysInMonth` gives the Gregorian
      length of the month, February having 29 days in leap years. */
  lemma DaysInMonthGregorian(y: int, m: int)
    requires 0 <= m < 12 && !(0 <= y <= 99)
    ensures DaysInMonth(y, m) == MonthLength(y, m)
    ensures m == 1 ==> DaysInMonth(y, m) == (if IsLeapYear(y) then 29 else 28)
    ensures m in {0, 2, 4, 6, 7, 9, 11} ==> DaysInMonth(y, m) == 31
    ensures m in {3, 5, 8, 10} ==> DaysInMonth(y, m) == 30
  {
    PrecedingMonthOf(y, m);
  }

  /** A year argument of 0 means 1900, so the February of year 0 (a leap year)
      is given 28 days. */
  lemma TwoDigitYearFebruary()
    ensures IsLeapYear(0) && DaysInMonth(0, 1) == 28
  {
    PrecedingMonthOf(0, 1);
  }

  /** One calendar year has 365 days, 366 in a leap year. */
  lemma DaysInYear(y: int)
    ensures DayFromYear(y + 1) - DayFromYear(y) == if IsLeapYear(y) then 366 else 365
  {
    DayFromNextYear(y);
    Step4(y);
    Step100(y);
    Step400(y);
  }

  lemma DayFromNextYear(y: int)
    ensures DayFromYear(y + 1) == 365 * (y - 1969) + (y - 1968) / 4 - (y - 1900) / 100 + (y - 1600) / 400
  {
    var y1 := y + 1;
    assert y1 - 1969 == y - 1968 && y1 - 1901 == y - 1900 && y1 - 1601 == y - 1600;
  }

  // Each of ECMAScript's floor divisions steps up by one exactly in the
  // years the divisor divides.

  lemma Step4(y: int)
    ensures (y - 1968) / 4 - (y - 1969) / 4 == if y % 4 == 0 then 1 else 0
  {
    var q := y / 4;
    assert y - 1968 == 4 * (q - 492) + y % 4;
  }

  lemma Step100(y: int)
    ensures (y - 1900) / 100 - (y - 1901) / 100 == if y % 100 == 0 then 1 else 0
  {
    var q := y / 100;
    assert y - 1900 == 100 * (q - 19) + y % 100;
  }

  lemma Step400(y: int)
    ensures (y - 1600) / 400 - (y - 1601) / 400 == if y % 400 == 0 then 1 else 0
  {
    var q := y / 400;
    assert y - 1600 == 400 * (q - 4) + y % 400;
  }

  /** The first of the next month comes `MonthLength` days after the first of
      this one, so the grid of the next month starts where this one ends. */
  lemma {:induction false} NextFirstDay(ym: YearMonth)
    requires 0 <= ym.month < 12
    ensures var next := if ym.month == 11 then YearMonth(ym.year + 1, 0) else YearMonth(ym.year, ym.month + 1);
      && DayNumber(next, 1) == DayNumber(ym, 1) + MonthLength(ym.year, ym.month)
      && WeekDay(DayNumber(next, 1)) == (WeekDay(DayNumber(ym, 1)) + MonthLength(ym.year, ym.month)) % 7
  {
    var n := DayNumber(ym, 1);
    var len := MonthLength(ym.year, ym.month);
    if ym.month == 11 {
      DaysInYear(ym.year);
      DaysBeforeDecember(ym.year);
    } else {
      DaysBeforeNextMonth(ym.year, ym.month);
    }
    WeekDayShift(n, len);
  }

  /** In terms of the screen's two getters: the month after `m` starts on the
      weekday `getDaysInMonth(y, m)` days after the one `m` starts on. */
  lemma FirstDayAfter(y: int, m: int)
    ensures FirstDayOfMonth(y, m + 1) == (FirstDayOfMonth(y, m) + DaysInMonth(y, m)) % 7
  {
    var here, next := MonthOf(y, m), MonthOf(y, m + 1);
    assert next == if here.month == 11 then YearMonth(here.year + 1, 0) else YearMonth(here.year, here.month + 1);
    PrecedingMonthOf(y, m);
    NextFirstDay(here);
  }

  lemma WeekDayShift(n: int, len: int)
    ensures WeekDay(n + len) == (WeekDay(n) + len) % 7
  {
    var q := (n + 4) / 7;
    assert n + 4 == 7 * q + WeekDay(n);
    assert n + len + 4 == 7 * q + (WeekDay(n) + len);
  }

  lemma DaysBeforeDecember(y: int)
    ensures DaysBeforeMonth(y, 11) + 31 == if IsLeapYear(y) then 366 else 365
  {
  }

  // ---------------------------------------------------- month navigation

  /** `handlePrevMonth`: `new Date(year, month - 1, 1)`. */
  function PrevMonth(ym: YearMonth): (r: YearMonth)
    ensures 0 <= r.month < 12
  {
    MonthOf(ym.year, ym.month - 1)
  }

  /** `handleNextMonth`: `new Date(year, month + 1, 1)`. */
  function NextMonth(ym: YearMonth): (r: YearMonth)
    ensures 0 <= r.month < 12
  {
    MonthOf(ym.year, ym.month + 1)
  }

  /** Away from the two-digit years the buttons step one month, rolling the
      year over between December and January, and each undoes the other. */
  lemma Navigation(ym: YearMonth)
    requires 0 <= ym.month < 12 && (ym.year < -1 || ym.year > 100)
    ensures NextMonth(ym) == if ym.month == 11 then YearMonth(ym.year + 1, 0) else YearMonth(ym.year, ym.month + 1)
    ensures PrevMonth(ym) == if ym.month == 0 then YearMonth(ym.year - 1, 11) else YearMonth(ym.year, ym.month - 1)
    ensures NextMonth(PrevMonth(ym)) == ym
    ensures PrevMonth(NextMonth(ym)) == ym
  {
  }

  /** Going back from January of year 100 lands in year 99, which the
      constructor reads as 1999, so going forward again gives January 2000. */
  lemma TwoDigitYearNavigation()
    ensures PrevMonth(YearMonth(100, 0)) == YearMonth(99, 11)
    ensures NextMonth(PrevMonth(YearMonth(100, 0))) == YearMonth(2000, 0)
  {
  }
}
