/**
 * dayNumberLocal as the browser computes it: the time value of local noon
 * (the UTC instant of 12:00 on the date, given the zone's UTC offset on that
 * date) divided by the length of a day and floored. The offset is a parameter,
 * in minutes east of UTC, because the zone database is outside the model.
 * The calendar-exact count is Calendar.DayNumber; this module shows where the
 * two agree and where a zone whose offset crosses +12 hours breaks the rotation.
 */
module LocalTime {
  import opened Calendar
  import opened Rotation

  const MsPerMinute: int := 60000
  const MsPerDay: int := 86400000

  /** noon.getTime(): milliseconds since 1970-01-01T00:00Z of local noon on d, at UTC offset offset minutes. */
  function NoonTime(d: Date, offset: int): int
    requires ValidDate(d)
  {
    DayNumber(d) * MsPerDay + 720 * MsPerMinute - offset * MsPerMinute
  }

  /** Math.floor(noon.getTime() / 86400000): Dafny's division by a positive divisor floors. */
  function NoonDayNumber(d: Date, offset: int): int
    requires ValidDate(d)
  {
    NoonTime(d, offset) / MsPerDay
  }

  /** rotatedChoiceFor as written, with the offsets of d's zone on d and on the anchor date. */
  function LocalRotatedChoice(d: Date, offset: int, anchorOffset: int, seed: Choice): (r: Choice)
    requires ValidDate(d)
    ensures r == seed <==> (NoonDayNumber(d, offset) - NoonDayNumber(Anchor, anchorOffset)) % 2 == 0
  {
    var delta := NoonDayNumber(d, offset) - NoonDayNumber(Anchor, anchorOffset);
    JsRemainderParity(delta);
    if JsRemainder(delta, 2) == 0 then seed else Other(seed)
  }

  // ---------------------------------------------------------------------------

  /** Flooring a day's worth of milliseconds plus less than a day gives the day back. */
  lemma FloorDay(n: int, x: int)
    requires 0 <= x < MsPerDay
    ensures (n * MsPerDay + x) / MsPerDay == n
  {
    var q := (n * MsPerDay + x) / MsPerDay;
    var r := (n * MsPerDay + x) % MsPerDay;
    assert n * MsPerDay + x == q * MsPerDay + r;
    assert (n - q) * MsPerDay == r - x;
  }

  /** The local-noon count is the calendar day count exactly when the offset lies in (-12 h, +12 h]. */
  lemma NoonDayNumberExact(d: Date, offset: int)
    requires ValidDate(d) && -720 < offset <= 720
    ensures NoonDayNumber(d, offset) == DayNumber(d)
  {
    FloorDay(DayNumber(d), 720 * MsPerMinute - offset * MsPerMinute);
  }

  /** East of +12 h (up to +36 h) local noon is still the previous UTC day: the count is one less. */
  lemma NoonDayNumberEast(d: Date, offset: int)
    requires ValidDate(d) && 720 < offset <= 2160
    ensures NoonDayNumber(d, offset) == DayNumber(d) - 1
  {
    assert NoonTime(d, offset) == (DayNumber(d) - 1) * MsPerDay + (2160 - offset) * MsPerMinute;
    FloorDay(DayNumber(d) - 1, (2160 - offset) * MsPerMinute);
  }

  /** At -12 h or further west (down to -36 h) local noon is already the next UTC day: the count is one more. */
  lemma NoonDayNumberWest(d: Date, offset: int)
    requires ValidDate(d) && -2160 < offset <= -720
    ensures NoonDayNumber(d, offset) == DayNumber(d) + 1
  {
    assert NoonTime(d, offset) == (DayNumber(d) + 1) * MsPerDay + (-720 - offset) * MsPerMinute;
    FloorDay(DayNumber(d) + 1, (-720 - offset) * MsPerMinute);
  }

  /**
   * A zone that keeps one offset all year rotates exactly as the calendar does:
   * any shift of the count moves the date and the anchor alike.
   */
  lemma FixedOffsetRotation(d: Date, offset: int, seed: Choice)
    requires ValidDate(d) && -2160 < offset <= 2160
    ensures LocalRotatedChoice(d, offset, offset, seed) == RotatedChoice(d, seed)
  {
    if offset <= -720 {
      NoonDayNumberWest(d, offset);
      NoonDayNumberWest(Anchor, offset);
    } else if offset <= 720 {
      NoonDayNumberExact(d, offset);
      NoonDayNumberExact(Anchor, offset);
    } else {
      NoonDayNumberEast(d, offset);
      NoonDayNumberEast(Anchor, offset);
    }
  }

  /**
   * Pacific/Auckland, spring change: Saturday 2026-09-26 is in standard time
   * (+12 h), Sunday 2026-09-27 in daylight time (+13 h), as is the anchor.
   * The two consecutive days get the same label, against strict alternation.
   */
  lemma AucklandSpringRepeat(seed: Choice)
    ensures NextDay(Date(2026, 9, 26)) == Date(2026, 9, 27)
    ensures LocalRotatedChoice(Date(2026, 9, 26), 720, 780, seed)
         == LocalRotatedChoice(Date(2026, 9, 27), 780, 780, seed)
    ensures RotatedChoice(Date(2026, 9, 27), seed) == Other(RotatedChoice(Date(2026, 9, 26), seed))
  {
    var sat, sun := Date(2026, 9, 26), Date(2026, 9, 27);
    assert NextDay(sat) == sun;
    Alternation(sat, seed);
    DayNumberNext(sat);
    NoonDayNumberExact(sat, 720);
    NoonDayNumberEast(sun, 780);
  }

  /**
   * Pacific/Auckland, autumn change: Saturday 2026-04-04 is in daylight time
   * (+13 h), Sunday 2026-04-05 in standard time (+12 h). The count jumps by
   * two, so these two consecutive days also get the same label.
   */
  lemma AucklandAutumnRepeat(seed: Choice)
    ensures NextDay(Date(2026, 4, 4)) == Date(2026, 4, 5)
    ensures LocalRotatedChoice(Date(2026, 4, 4), 780, 780, seed)
         == LocalRotatedChoice(Date(2026, 4, 5), 720, 780, seed)
    ensures RotatedChoice(Date(2026, 4, 5), seed) == Other(RotatedChoice(Date(2026, 4, 4), seed))
  {
    var sat, sun := Date(2026, 4, 4), Date(2026, 4, 5);
    assert NextDay(sat) == sun;
    Alternation(sat, seed);
    DayNumberNext(sat);
    NoonDayNumberEast(sat, 780);
    NoonDayNumberExact(sun, 720);
  }

  /**
   * In Pacific/Auckland the anchor falls in daylight time (+13 h), so every
   * date in standard time (+12 h) gets the label opposite to the calendar rotation.
   */
  lemma AucklandStandardTimeFlipped(d: Date, seed: Choice)
    requires ValidDate(d)
    ensures LocalRotatedChoice(d, 720, 780, seed) == Other(RotatedChoice(d, seed))
  {
    NoonDayNumberExact(d, 720);
    NoonDayNumberEast(Anchor, 780);
    ParityShift(Offset(d), 1);
  }
}
