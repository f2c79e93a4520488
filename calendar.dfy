/**
 * Local calendar dates and the integer day count that the rotation measures
 * distances with. The source builds a JavaScript Date at local noon and takes
 * floor(milliseconds / 86400000); here the count it gives while the zone's UTC
 * offset lies in (-12 h, +12 h] is computed exactly from (year, month, day)
 * with the proleptic Gregorian calendar, so that time zones and daylight-saving
 * shifts play no part (LocalTime relates the two).
 */
module Calendar {

  /** A local calendar date: year, month of the year (1..12), day of the month. */
  datatype Date = Date(year: int, month: int, day: int)

  /** The Gregorian leap-year rule, applied to every year. */
  predicate IsLeapYear(y: int) {
    y % 4 == 0 && (y % 100 != 0 || y % 400 == 0)
  }

  function DaysInYear(y: int): (n: int)
    ensures n == 365 || n == 366
    ensures n == 366 <==> IsLeapYear(y)
  {
    if IsLeapYear(y) then 366 else 365
  }

  /** Number of days of month m (1..12) of year y. */
  function DaysInMonth(y: int, m: int): (n: int)
    requires 1 <= m <= 12
    ensures 28 <= n <= 31
    ensures n == 28 <==> m == 2 && !IsLeapYear(y)
    ensures n == 29 <==> m == 2 && IsLeapYear(y)
    ensures n == 30 <==> m == 4 || m == 6 || m == 9 || m == 11
  {
    if m == 2 then (if IsLeapYear(y) then 29 else 28)
    else if m == 4 || m == 6 || m == 9 || m == 11 then 30
    else 31
  }

  /** A date that a JavaScript Date object can denote: month in range, day within the month. */
  predicate ValidDate(d: Date) {
    1 <= d.month <= 12 && 1 <= d.day <= DaysInMonth(d.year, d.month)
  }

  /** Days from 0001-01-01 to January 1st of year y (negative for earlier years). */
  function DaysBeforeYear(y: int): int {
    365 * (y - 1) + (y - 1) / 4 - (y - 1) / 100 + (y - 1) / 400
  }

  /** Days before the first of each month in a common year. */
  const CumulativeDays: seq<int> := [0, 31, 59, 90, 120, 151, 181, 212, 243, 273, 304, 334]

  /** Days from January 1st to the first of month m of year y. */
  function DaysBeforeMonth(y: int, m: int): int
    requires 1 <= m <= 12
  {
    CumulativeDays[m - 1] + (if m > 2 && IsLeapYear(y) then 1 else 0)
  }

  /** Days from 0001-01-01 to 1970-01-01, the origin of JavaScript time values. */
  const EpochDays: int := DaysBeforeYear(1970)

  /** Days from 1970-01-01 to d: the count dayNumberLocal gives while the zone's UTC offset lies in (-12 h, +12 h]. */
  function DayNumber(d: Date): int
    requires ValidDate(d)
  {
    DaysBeforeYear(d.year) + DaysBeforeMonth(d.year, d.month) + d.day - 1 - EpochDays
  }

  /** The calendar day after d. */
  function NextDay(d: Date): (r: Date)
    requires ValidDate(d)
    ensures ValidDate(r)
  {
    if d.day < DaysInMonth(d.year, d.month) then Date(d.year, d.month, d.day + 1)
    else if d.month < 12 then Date(d.year, d.month + 1, 1)
    else Date(d.year + 1, 1, 1)
  }

  /** The calendar day before d; NextDay undoes it. */
  function PrevDay(d: Date): (r: Date)
    requires ValidDate(d)
    ensures ValidDate(r) && NextDay(r) == d
  {
    if d.day > 1 then Date(d.year, d.month, d.day - 1)
    else if d.month > 1 then Date(d.year, d.month - 1, DaysInMonth(d.year, d.month - 1))
    else Date(d.year - 1, 12, 31)
  }

  /** The date k days after d (before it when k is negative). */
  function AddDays(d: Date, k: int): (r: Date)
    requires ValidDate(d)
    ensures ValidDate(r)
    decreases if k < 0 then -k else k
  {
    if k == 0 then d
    else if k > 0 then AddDays(NextDay(d), k - 1)
    else AddDays(PrevDay(d), k + 1)
  }

  /** Calendar order: earlier year, else earlier month, else earlier day. */
  predicate Before(a: Date, b: Date) {
    a.year < b.year
    || (a.year == b.year && a.month < b.month)
    || (a.year == b.year && a.month == b.month && a.day < b.day)
  }

  // ---------------------------------------------------------------------------
  // The day count measures exact calendar distance.

  /** Floor division by a positive constant steps up by one exactly at multiples. */
  lemma FloorStep(y: int)
    ensures y / 4 - (y - 1) / 4 == (if y % 4 == 0 then 1 else 0)
    ensures y / 100 - (y - 1) / 100 == (if y % 100 == 0 then 1 else 0)
    ensures y / 400 - (y - 1) / 400 == (if y % 400 == 0 then 1 else 0)
  {
  }

  /** Consecutive New Year's days lie a year's length apart. */
  lemma YearLength(y: int)
    ensures DaysBeforeYear(y + 1) == DaysBeforeYear(y) + DaysInYear(y)
  {
    FloorStep(y);
    var q4, q100, q400 := y / 4 - (y - 1) / 4, y / 100 - (y - 1) / 100, y / 400 - (y - 1) / 400;
    assert DaysBeforeYear(y + 1) == DaysBeforeYear(y) + 365 + q4 - q100 + q400;
    LeapDays(y);
  }

  /** The leap-day corrections of one year add up to the extra day of a leap year. */
  lemma LeapDays(y: int)
    ensures (if y % 4 == 0 then 1 else 0) - (if y % 100 == 0 then 1 else 0) + (if y % 400 == 0 then 1 else 0)
         == DaysInYear(y) - 365
  {
    if y % 400 == 0 {
      assert y == 100 * (4 * (y / 400));
    }
    if y % 100 == 0 {
      assert y == 4 * (25 * (y / 100));
    }
  }

  /** Consecutive firsts of the month lie a month's length apart. */
  lemma MonthLength(y: int, m: int)
    requires 1 <= m < 12
    ensures DaysBeforeMonth(y, m + 1) == DaysBeforeMonth(y, m) + DaysInMonth(y, m)
  {
  }

  /** The last day of December closes the year. */
  lemma DecemberCloses(y: int)
    ensures DaysBeforeMonth(y, 12) + DaysInMonth(y, 12) == DaysInYear(y)
  {
  }

  /** The day after d has the next day number: day numbers count calendar days exactly. */
  lemma DayNumberNext(d: Date)
    requires ValidDate(d)
    ensures DayNumber(NextDay(d)) == DayNumber(d) + 1
  {
    if d.day == DaysInMonth(d.year, d.month) {
      if d.month < 12 {
        MonthLength(d.year, d.month);
      } else {
        DecemberCloses(d.year);
        YearLength(d.year);
      }
    }
  }

  /** Moving k days changes the day number by exactly k, across months and years. */
  lemma {:induction false} DayNumberAddDays(d: Date, k: int)
    requires ValidDate(d)
    ensures DayNumber(AddDays(d, k)) == DayNumber(d) + k
    decreases if k < 0 then -k else k
  {
    if k > 0 {
      DayNumberNext(d);
      DayNumberAddDays(NextDay(d), k - 1);
    } else if k < 0 {
      DayNumberNext(PrevDay(d));
      DayNumberAddDays(PrevDay(d), k + 1);
    }
  }

  /** The position of a date within its year lies inside that year. */
  lemma DayOfYearBounds(d: Date)
    requires ValidDate(d)
    ensures 0 <= DaysBeforeMonth(d.year, d.month) + d.day - 1 < DaysInYear(d.year)
  {
  }

  /** An earlier month of the same year ends no later than a later month begins. */
  lemma MonthsApart(y: int, m1: int, m2: int)
    requires 1 <= m1 < m2 <= 12
    ensures DaysBeforeMonth(y, m1) + DaysInMonth(y, m1) <= DaysBeforeMonth(y, m2)
  {
  }

  /** An earlier year ends no later than a later year begins. */
  lemma {:induction false} YearsApart(y1: int, y2: int)
    requires y1 < y2
    ensures DaysBeforeYear(y1) + DaysInYear(y1) <= DaysBeforeYear(y2)
    decreases y2 - y1
  {
    YearLength(y1);
    if y1 + 1 < y2 {
      YearsApart(y1 + 1, y2);
    }
  }

  /** Day numbers are strictly increasing in calendar order. */
  lemma BeforeMeansSmaller(a: Date, b: Date)
    requires ValidDate(a) && ValidDate(b) && Before(a, b)
    ensures DayNumber(a) < DayNumber(b)
  {
    DayOfYearBounds(a);
    DayOfYearBounds(b);
    if a.year < b.year {
      YearsApart(a.year, b.year);
    } else if a.month < b.month {
      MonthsApart(a.year, a.month, b.month);
    }
  }

  /**
   * Day numbers order dates exactly as the calendar does, in both directions;
   * in particular two dates with the same day number are the same date.
   */
  lemma DayNumberOrder(a: Date, b: Date)
    requires ValidDate(a) && ValidDate(b)
    ensures Before(a, b) <==> DayNumber(a) < DayNumber(b)
    ensures a == b <==> DayNumber(a) == DayNumber(b)
  {
    if Before(a, b) {
      BeforeMeansSmaller(a, b);
    } else if Before(b, a) {
      BeforeMeansSmaller(b, a);
    }
  }

  /** Day 0 is 1970-01-01, the origin of JavaScript time values. */
  lemma EpochIsDayZero()
    ensures DayNumber(Date(1970, 1, 1)) == 0
  {
  }

  // ---------------------------------------------------------------------------
  // Weekdays.

  /** Day of the week as JavaScript's getDay numbers it: 0 is Sunday; 1970-01-01 was a Thursday (4). */
  function Weekday(d: Date): (w: int)
    requires ValidDate(d)
    ensures 0 <= w < 7
  {
    (DayNumber(d) + 4) % 7
  }

  /** The weekday with Monday as 0 and Sunday as 6, as the month grid's columns are laid out. */
  function WeekdayIndexMondayFirst(d: Date): (i: int)
    requires ValidDate(d)
    ensures 0 <= i <= 6
    ensures (i + 1) % 7 == Weekday(d)
  {
    var w := Weekday(d);
    MondayFirstShift(w);
    (w + 6) % 7
  }

  /** Moving a weekday back one place, Sunday to the end, is undone by moving it forward. */
  lemma MondayFirstShift(w: int)
    requires 0 <= w < 7
    ensures ((w + 6) % 7 + 1) % 7 == w
  {
  }

  /** The Monday-first index as a function of the day number alone. */
  function ColumnOf(n: int): int {
    ((n + 4) % 7 + 6) % 7
  }

  /** Adding after reducing modulo a week is adding before reducing. */
  lemma ModWeekSum(a: int, b: int)
    ensures (a % 7 + b) % 7 == (a + b) % 7
  {
    var r, s := (a + b) % 7, (a % 7 + b) % 7;
    var t := (a + b) / 7 - (a % 7 + b) / 7 - a / 7;
    assert a == 7 * (a / 7) + a % 7;
    assert a + b == 7 * ((a + b) / 7) + r;
    assert a % 7 + b == 7 * ((a % 7 + b) / 7) + s;
    assert s - r == 7 * t;
  }

  /** Moving k days forward moves the Monday-first index k columns, modulo a week. */
  lemma ColumnShift(n: int, k: int)
    ensures ColumnOf(n + k) == (ColumnOf(n) + k) % 7
  {
    ModWeekSum(n + 4, 6);
    ModWeekSum(n + k + 4, 6);
    ModWeekSum(n + 10, k);
  }

  /** Each calendar day moves one column to the right, wrapping from Sunday to Monday. */
  lemma WeekdayIndexNext(d: Date)
    requires ValidDate(d)
    ensures WeekdayIndexMondayFirst(NextDay(d)) == (WeekdayIndexMondayFirst(d) + 1) % 7
  {
    DayNumberNext(d);
    ColumnShift(DayNumber(d), 1);
  }

  /** Within a month, day n falls n - 1 columns after the first of the month. */
  lemma WeekdayIndexInMonth(y: int, m: int, n: int)
    requires 1 <= m <= 12 && 1 <= n <= DaysInMonth(y, m)
    ensures WeekdayIndexMondayFirst(Date(y, m, n))
         == (WeekdayIndexMondayFirst(Date(y, m, 1)) + n - 1) % 7
  {
    assert DayNumber(Date(y, m, n)) == DayNumber(Date(y, m, 1)) + n - 1;
    ColumnShift(DayNumber(Date(y, m, 1)), n - 1);
  }
}
