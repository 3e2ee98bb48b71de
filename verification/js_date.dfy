/**
 * The local calendar date that JavaScript's `new Date(year, monthIndex, day)`
 * denotes, read back with `getFullYear()`, `getMonth()` and `getDate()`.
 *
 * The constructor maps years 0..99 to 1900..1999, carries an out-of-range
 * month index into the year and an out-of-range day into the neighbouring
 * months (proleptic Gregorian calendar), and gives an invalid date when any
 * argument is NaN.
 */
module JsDate {
  import opened JsText

  datatype LocalDate = Date(year: int, month: int, day: int) | InvalidDate

  predicate IsLeapYear(y: int)
  {
    y % 4 == 0 && (y % 100 != 0 || y % 400 == 0)
  }

  /** Length of month `m` (0 = January) of year `y`. */
  function DaysInMonth(y: int, m: int): (n: int)
    requires 0 <= m < 12
    ensures 28 <= n <= 31
    ensures n == 29 <==> m == 1 && IsLeapYear(y)
  {
    if m == 1 then (if IsLeapYear(y) then 29 else 28)
    else if m == 3 || m == 5 || m == 8 || m == 10 then 30
    else 31
  }

  predicate IsCalendarDate(y: int, m: int, d: int)
  {
    0 <= m < 12 && 1 <= d <= DaysInMonth(y, m)
  }

  /** Days from 1 January of year 0 to 1 January of year `y`. */
  function DaysBeforeYear(y: int): int
  {
    365 * y + (y + 3) / 4 - (y + 99) / 100 + (y + 399) / 400
  }

  /** Days from 1 January to the first of month `m` in year `y`. */
  function DaysBeforeMonth(y: int, m: int): int
    requires 0 <= m < 12
  {
    [0, 31, 59, 90, 120, 151, 181, 212, 243, 273, 304, 334][m]
      + (if m >= 2 && IsLeapYear(y) then 1 else 0)
  }

  /** The running number of day `d` of month `m` of year `y`; `d` may lie
      outside the month, and then it counts on from the month's first day. */
  function DayNumber(y: int, m: int, d: int): int
    requires 0 <= m < 12
  {
    DaysBeforeYear(y) + DaysBeforeMonth(y, m) + d - 1
  }

  lemma YearLength(y: int)
    ensures DaysBeforeYear(y + 1) == DaysBeforeYear(y) + DaysBeforeMonth(y, 11) + DaysInMonth(y, 11)
  {
    assert (y + 4) / 4 == (y + 3) / 4 + (if y % 4 == 0 then 1 else 0);
    assert (y + 100) / 100 == (y + 99) / 100 + (if y % 100 == 0 then 1 else 0);
    assert (y + 400) / 400 == (y + 399) / 400 + (if y % 400 == 0 then 1 else 0);
  }

  function NextMonth(y: int, m: int): (r: (int, int))
    requires 0 <= m < 12
    ensures 0 <= r.1 < 12
  {
    if m == 11 then (y + 1, 0) else (y, m + 1)
  }

  function PreviousMonth(y: int, m: int): (r: (int, int))
    requires 0 <= m < 12
    ensures 0 <= r.1 < 12 && NextMonth(r.0, r.1) == (y, m)
  {
    if m == 0 then (y - 1, 11) else (y, m - 1)
  }

  /** The month after (y, m) starts right after the last day of (y, m). */
  lemma NextMonthStart(y: int, m: int)
    requires 0 <= m < 12
    ensures DayNumber(NextMonth(y, m).0, NextMonth(y, m).1, 1) == DayNumber(y, m, 1) + DaysInMonth(y, m)
  {
    if m == 11 {
      YearLength(y);
    }
  }

  /** Day `d >= 1` counted from the first of (y, m), as a calendar date. */
  function CarryForward(y: int, m: int, d: int): (r: LocalDate)
    requires 0 <= m < 12 && d >= 1
    ensures r.Date? && IsCalendarDate(r.year, r.month, r.day)
    ensures DayNumber(r.year, r.month, r.day) == DayNumber(y, m, d)
    decreases d
  {
    if d <= DaysInMonth(y, m) then Date(y, m, d)
    else
      var next := NextMonth(y, m);
      NextMonthStart(y, m);
      CarryForward(next.0, next.1, d - DaysInMonth(y, m))
  }

  /** Day `d` (any integer) counted from the first of (y, m), as a calendar date. */
  function Balance(y: int, m: int, d: int): (r: LocalDate)
    requires 0 <= m < 12
    ensures r.Date? && IsCalendarDate(r.year, r.month, r.day)
    ensures DayNumber(r.year, r.month, r.day) == DayNumber(y, m, d)
    decreases if d < 1 then 1 - d else 0
  {
    if d >= 1 then CarryForward(y, m, d)
    else
      var previous := PreviousMonth(y, m);
      NextMonthStart(previous.0, previous.1);
      Balance(previous.0, previous.1, d + DaysInMonth(previous.0, previous.1))
  }

  /** The year the Date constructor uses: two-digit years mean 19xx. */
  function FullYear(y: int): int
  {
    if 0 <= y <= 99 then 1900 + y else y
  }

  /** `new Date(year, monthIndex, day)`: the calendar date whose day number is
      that of day `day` of month `monthIndex` of `year`, both counted on past
      their ranges; invalid if any argument is NaN. */
  function MakeDate(year: Num, monthIndex: Num, day: Num): (r: LocalDate)
    ensures r.Date? <==> year.Int? && monthIndex.Int? && day.Int?
    ensures r.Date? ==> IsCalendarDate(r.year, r.month, r.day)
    ensures r.Date? ==>
      DayNumber(r.year, r.month, r.day)
        == DayNumber(FullYear(year.value) + monthIndex.value / 12, monthIndex.value % 12, day.value)
  {
    if year.NaN? || monthIndex.NaN? || day.NaN? then InvalidDate
    else Balance(FullYear(year.value) + monthIndex.value / 12, monthIndex.value % 12, day.value)
  }

  /** `getMonth()`: 0 for January, NaN for an invalid date. */
  function GetMonth(date: LocalDate): Num
  {
    if date.Date? then Int(date.month) else NaN
  }

  /** `getDate()`: the day of the month, NaN for an invalid date. */
  function GetDate(date: LocalDate): Num
  {
    if date.Date? then Int(date.day) else NaN
  }

  // ---------------------------------------------------- uniqueness of dates

  lemma {:induction false} YearsAscend(y1: int, y2: int)
    requires y1 < y2
    ensures DaysBeforeYear(y1 + 1) <= DaysBeforeYear(y2)
    decreases y2 - y1
  {
    YearLength(y1);
    if y1 + 1 < y2 {
      YearsAscend(y1 + 1, y2);
      YearLength(y1 + 1);
    }
  }

  lemma WithinYear(y: int, m: int, d: int)
    requires IsCalendarDate(y, m, d)
    ensures DaysBeforeYear(y) <= DayNumber(y, m, d) < DaysBeforeYear(y + 1)
  {
    YearLength(y);
  }

  /** Different calendar dates have different day numbers, so `MakeDate`'s
      contract determines its result. */
  lemma CalendarDateUnique(y1: int, m1: int, d1: int, y2: int, m2: int, d2: int)
    requires IsCalendarDate(y1, m1, d1) && IsCalendarDate(y2, m2, d2)
    requires DayNumber(y1, m1, d1) == DayNumber(y2, m2, d2)
    ensures y1 == y2 && m1 == m2 && d1 == d2
  {
    WithinYear(y1, m1, d1);
    WithinYear(y2, m2, d2);
    if y1 < y2 {
      YearsAscend(y1, y2);
    } else if y2 < y1 {
      YearsAscend(y2, y1);
    }
    assert y1 == y2;
  }

  /** A date already in range comes back unchanged (after the 19xx rule). */
  lemma MakeDateInRange(y: int, m: int, d: int)
    requires IsCalendarDate(FullYear(y), m, d)
    ensures MakeDate(Int(y), Int(m), Int(d)) == Date(FullYear(y), m, d)
  {
    assert m / 12 == 0 && m % 12 == m;
    var r := MakeDate(Int(y), Int(m), Int(d));
    assert DayNumber(r.year, r.month, r.day) == DayNumber(FullYear(y), m, d);
    CalendarDateUnique(r.year, r.month, r.day, FullYear(y), m, d);
  }
}
