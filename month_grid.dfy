/**
 * The arithmetic of the month grid: seven columns from Monday to Sunday,
 * blank cells before the first of the month, one cell per day, and blank
 * cells after the last day up to a whole number of weeks.
 */
module MonthGrid {
  import opened Calendar

  /** Math.ceil(total / 7) for a non-negative total: the fewest rows of seven that hold total cells. */
  function CeilDiv7(total: nat): (rows: nat)
    ensures 7 * rows >= total
    ensures 7 * (rows - 1) < total
  {
    (total + 6) / 7
  }

  /** The number of grid cells: leading blanks plus days, rounded up to whole weeks. */
  function CellCount(leadingBlanks: nat, count: nat): (cells: nat)
    ensures cells % 7 == 0
    ensures leadingBlanks + count <= cells < leadingBlanks + count + 7
  {
    CeilDiv7(leadingBlanks + count) * 7
  }

  /** The day of the month that cell i shows (dayIndex = i - leadingBlanks + 1). */
  function DayOfCell(i: int, leadingBlanks: int): int {
    i - leadingBlanks + 1
  }

  /** Cell i shows a day unless its day index falls before 1 or after the last day. */
  predicate IsDayCell(i: int, leadingBlanks: int, count: int) {
    !(DayOfCell(i, leadingBlanks) < 1 || DayOfCell(i, leadingBlanks) > count)
  }

  /** The blanks before the first: the Monday-first weekday of the first of the month. */
  function LeadingBlanks(y: int, m: int): (n: nat)
    requires 1 <= m <= 12
    ensures n <= 6
  {
    WeekdayIndexMondayFirst(Date(y, m, 1))
  }

  // ---------------------------------------------------------------------------

  /** The day cells are exactly the indices leadingBlanks .. leadingBlanks + count - 1, all inside the grid. */
  lemma DayCellRange(leadingBlanks: nat, count: nat, i: int)
    ensures IsDayCell(i, leadingBlanks, count) <==> leadingBlanks <= i < leadingBlanks + count
    ensures IsDayCell(i, leadingBlanks, count) ==> i < CellCount(leadingBlanks, count)
  {
  }

  /** Every day n of the month has its cell, at index n + leadingBlanks - 1 of the grid. */
  lemma CellOfDay(leadingBlanks: nat, count: nat, n: int)
    requires 1 <= n <= count
    ensures 0 <= n + leadingBlanks - 1 < CellCount(leadingBlanks, count)
    ensures IsDayCell(n + leadingBlanks - 1, leadingBlanks, count)
    ensures DayOfCell(n + leadingBlanks - 1, leadingBlanks) == n
  {
  }

  /** Each day of the month is drawn in the column of its own weekday, Monday first. */
  lemma DayInItsWeekdayColumn(y: int, m: int, i: nat)
    requires 1 <= m <= 12
    requires IsDayCell(i, LeadingBlanks(y, m), DaysInMonth(y, m))
    ensures ValidDate(Date(y, m, DayOfCell(i, LeadingBlanks(y, m))))
    ensures i % 7 == WeekdayIndexMondayFirst(Date(y, m, DayOfCell(i, LeadingBlanks(y, m))))
  {
    WeekdayIndexInMonth(y, m, DayOfCell(i, LeadingBlanks(y, m)));
  }

  /** A month takes four to six rows; four only when a 28-day February starts on a Monday. */
  lemma RowsPerMonth(y: int, m: int)
    requires 1 <= m <= 12
    ensures var cells := CellCount(LeadingBlanks(y, m), DaysInMonth(y, m));
      && 28 <= cells <= 42
      && (cells == 28 <==> LeadingBlanks(y, m) == 0 && DaysInMonth(y, m) == 28)
  {
  }
}
