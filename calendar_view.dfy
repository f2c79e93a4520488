/**
 * The state logic of renderCalendar: the month grid for the month of today,
 * each day cell resolved with getChoiceForDate.
 */
module CalendarView {
  import opened Calendar
  import opened Rotation
  import opened ChoiceRules
  import opened LocalStorage
  import opened MonthGrid
  import opened ChoiceStore

  /** A grid cell: blank, or a day with its resolved choice and whether it is today. */
  datatype Cell = Blank | DayCell(day: int, choice: Choice, source: Source, isToday: bool)

  /** What cell i of the grid of month (y, m) shows, given the stored items. */
  function ExpectedCell(items: map<string, string>, today: Date, i: int): Cell
    requires ValidDate(today)
  {
    var lb := LeadingBlanks(today.year, today.month);
    var count := DaysInMonth(today.year, today.month);
    if IsDayCell(i, lb, count) then
      var n := DayOfCell(i, lb);
      var r := Resolve(items, Date(today.year, today.month, n));
      DayCell(n, r.choice, r.source, n == today.day)
    else Blank
  }

  /**
   * renderCalendar without the DOM: one cell per grid position, whole weeks;
   * a day cell shows the choice the store resolves for that date. The store
   * changes at most by healing the seed.
   */
  method RenderCalendar(st: Storage, today: Date) returns (cells: seq<Cell>)
    requires st.Valid() && ValidDate(today)
    modifies st
    ensures st.Valid()
    ensures SameOrHealed(st.items, st.keys, old(st.items), old(st.keys))
    ensures |cells| == CellCount(LeadingBlanks(today.year, today.month), DaysInMonth(today.year, today.month))
    ensures forall i :: 0 <= i < |cells| ==> cells[i] == ExpectedCell(old(st.items), today, i)
  {
    ghost var orig, origKeys := st.items, st.keys;
    var first := Date(today.year, today.month, 1);
    var leadingBlanks := WeekdayIndexMondayFirst(first);
    var count := DaysInMonth(today.year, today.month);
    var totalCells := leadingBlanks + count;
    var rows := CeilDiv7(totalCells);
    var n := rows * 7;
    assert leadingBlanks == LeadingBlanks(today.year, today.month);
    assert n == CellCount(leadingBlanks, count);
    cells := [];
    for i := 0 to n
      invariant st.Valid()
      invariant SameOrHealed(st.items, st.keys, orig, origKeys)
      invariant |cells| == i
      invariant forall j :: 0 <= j < i ==> cells[j] == ExpectedCell(orig, today, j)
    {
      var cell := RenderCell(st, today, leadingBlanks, count, i, orig, origKeys);
      AppendCell(cells, cell, orig, today);
      cells := cells + [cell];
    }
  }

  /** One pass of renderCalendar's loop: cell i, blank or resolved through getChoiceForDate. */
  method RenderCell(st: Storage, today: Date, leadingBlanks: int, count: int, i: int,
                    ghost orig: map<string, string>, ghost origKeys: seq<string>) returns (cell: Cell)
    requires st.Valid() && ValidDate(today)
    requires leadingBlanks == LeadingBlanks(today.year, today.month)
    requires count == DaysInMonth(today.year, today.month)
    requires SameOrHealed(st.items, st.keys, orig, origKeys)
    modifies st
    ensures st.Valid()
    ensures SameOrHealed(st.items, st.keys, orig, origKeys)
    ensures cell == ExpectedCell(orig, today, i)
  {
    var dayIndex := i - leadingBlanks + 1;
    if dayIndex < 1 || dayIndex > count {
      cell := Blank;
    } else {
      var date := Date(today.year, today.month, dayIndex);
      var isToday := date.year == today.year && date.month == today.month && date.day == today.day;
      ghost var before := st.items;
      var r := GetChoiceForDate(st, date);
      StillHealed(orig, before, date);
      AppendNewAgain(origKeys, SeedKey);
      cell := DayCell(dayIndex, r.choice, r.source, isToday);
    }
  }

  /** Appending the expected cell at index |cells| extends the rendered prefix by one. */
  lemma AppendCell(cells: seq<Cell>, cell: Cell, orig: map<string, string>, today: Date)
    requires ValidDate(today)
    requires forall j :: 0 <= j < |cells| ==> cells[j] == ExpectedCell(orig, today, j)
    requires cell == ExpectedCell(orig, today, |cells|)
    ensures forall j :: 0 <= j < |cells| + 1 ==> (cells + [cell])[j] == ExpectedCell(orig, today, j)
  {
  }

  /**
   * The store renderCalendar leaves: as it was, or with the seed healed
   * (written back under the seed key, appended to the key order if new).
   */
  ghost predicate SameOrHealed(items: map<string, string>, keys: seq<string>,
                               orig: map<string, string>, origKeys: seq<string>) {
    || (items == orig && keys == origKeys)
    || (items == HealSeed(orig) && keys == AppendNew(origKeys, SeedKey))
  }

  /** Setting a key that is already there keeps the key order. */
  lemma AppendNewAgain(s: seq<string>, x: string)
    ensures AppendNew(AppendNew(s, x), x) == AppendNew(s, x)
  {
  }

  /** Reading a date from a store that is the original or its healed form keeps both facts. */
  lemma StillHealed(orig: map<string, string>, current: map<string, string>, d: Date)
    requires ValidDate(d)
    requires current == orig || current == HealSeed(orig)
    ensures Resolve(current, d) == Resolve(orig, d)
    ensures HealSeed(current) == HealSeed(orig)
  {
    HealSeedKeepsResolution(orig, d);
    HealSeedStoresSeed(orig);
  }
}
