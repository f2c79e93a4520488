# pi-pi-eat: day-rotation and override engine

A model, in Dafny, of the core of a small offline web widget that tells the
user which of two labels, "AD" or "D3", applies on a day. The labels rotate
day by day from a fixed anchor date, 2025-12-30. The anchor's own label is the
persisted *seed*. A user can pin one day to a label with an *override*. A
month calendar shows the resolved label of every day.

What is modelled:

- **Calendar** (`calendar.dfy`). The source's `dayNumberLocal` builds a
  JavaScript `Date` at local noon and divides its time value by 86400000. The
  model computes the count this gives while the zone's UTC offset lies in
  (-12 h, +12 h], days since 1970-01-01, exactly from (year, month, day) with
  the proleptic Gregorian calendar. It also models
  `daysInMonth`, `getDay` and `weekdayIndexMondayFirst`. The proofs show that
  the count measures exact calendar distance: the next day is one more, k days
  later is k more, and the count orders dates as the calendar does.
- **Date keys** (`date_key.dfy`). `formatDateKey` gives `<year>-MM-DD`, with
  the year printed as `String` prints it. A parser for that format proves the
  round trip, so distinct dates have distinct keys.
- **Rotation** (`rotation.dfy`). The two labels form a datatype, and stored
  strings are decoded at the storage boundary. `rotatedChoiceFor` is modelled
  with JavaScript's sign-of-dividend `%` written out. A lemma proves it an exact
  parity test for negative offsets too.
- **Storage** (`local_storage.dfy`). `localStorage` is a class with an ordered
  key sequence (what `key(i)` indexes) and a string-to-string map.
- **Choice store** (`choice_rules.dfy`, `choice_store.dfy`). The storage-level
  functions of the source are methods that change the store in place:
  `getSeed` with its write-back of `"D3"`, the reverse-index deletion loop of
  `clearAllOverrides`, `setSeedFromAnchor`, `getChoiceForDate`, the two
  override writers and the today toggle. Each is specified by a pure function
  of the stored map (`StoredSeed`, `HealSeed`, `Resolve`, `WithoutOverrides`).
  The resolution properties are lemmas about those functions.
- **Month grid** (`month_grid.dfy`, `calendar_view.dfy`). This is the
  arithmetic of `renderCalendar`: leading blanks, whole weeks, and which cell
  shows which day. The render loop itself is a method that resolves each day
  cell through `getChoiceForDate`.
- **Local time** (`local_time.dfy`). This is `dayNumberLocal` as the browser computes it, from the UTC instant of local noon at a given UTC offset. It shows where that count agrees with the calendar count and where it breaks the rotation.
- `scenario.dfy` is a client. It calls the store's methods on the anchor
  example and proves the expected results: D3, AD, D3, then an override, then
  a seed reset.

The on-screen hint (app.js:211) says that first use starts from AD. The code
defaults a missing or invalid seed to `"D3"` (app.js:30-33). The model follows
the code.

## Model

| member | source | states |
|---|---|---|
| Calendar.DaysInMonth | app.js:111-113 | each month has 28 to 31 days; 29 exactly for February of a Gregorian leap year, 28 for February otherwise, 30 for April, June, September and November |
| Calendar.DayNumber | app.js:12-15 | dayNumberLocal: no contract of its own; DayNumberNext, DayNumberAddDays, DayNumberOrder and EpochIsDayZero give its meaning as the count of days since 1970-01-01 |
| Calendar.Weekday | app.js:116 | getDay: a weekday index in 0..6, Sunday 0; WeekdayIndexNext shows it advancing by one each day |
| Calendar.DayNumberNext | app.js:12-15 | the day number of the following calendar day is one more, across month and year ends, leap years included |
| Calendar.DayNumberAddDays | app.js:12-15 | the date k days later (or earlier when k is negative) has a day number exactly k larger |
| Calendar.DayNumberOrder | app.js:12-15 | day numbers order dates as the calendar does, in both directions; equal day numbers mean the same date |
| Calendar.EpochIsDayZero | app.js:14 | 1970-01-01, the origin of JavaScript time values, is day 0 |
| Calendar.WeekdayIndexMondayFirst | app.js:115-117 | the index lies in 0..6 and is the getDay weekday moved so that Monday is 0 and Sunday 6 |
| Calendar.WeekdayIndexNext | app.js:115-117 | each following day moves one column right, wrapping from Sunday to Monday |
| Calendar.WeekdayIndexInMonth | app.js:115-117 | day n of a month is n - 1 columns, modulo a week, after the first of the month |
| DateKey.PadStart2 | app.js:7-8 | padStart(2, "0") pads a string with zeros on the left to length two and keeps it as its tail |
| DateKey.PaddedTwoDigits | app.js:7-8 | a month or day number from 1 to 99 prints as exactly two digits, zero-padded |
| DateKey.IntToDecimal | app.js:6-9 | String(year) in the key: no contract of its own; ParseIntToDecimal shows it reads back as the year, negative years included |
| DateKey.ParseIntToDecimal | app.js:6-9 | reading String(n) back gives n, for negative n too |
| DateKey.FormatDateKey | app.js:5-10 | formatDateKey: no contract of its own; DateKeyShape gives its layout, DateKeyRoundTrip and DateKeyInjective show it loses nothing |
| DateKey.DateKeyShape | app.js:5-10 | the key is the year as String prints it, a dash, two month digits, a dash and two day digits |
| DateKey.FourDigitYearKey | app.js:5-10 | for a four-digit year the key is YYYY-MM-DD: ten characters, dashes at 4 and 7, digits elsewhere |
| DateKey.DateKeyRoundTrip | app.js:5-10 | parsing the key of a date gives the date back |
| DateKey.DateKeyInjective | app.js:5-10 | two dates have the same key exactly when they are the same date |
| Rotation.Decode | app.js:30 | a stored string reads as a choice exactly when it is "AD" or "D3", and then as that label |
| Rotation.Other | app.js:55 | the other label differs from the seed |
| Rotation.AnchorLabel | app.js:21-25 | the padded anchor label parses back to the anchor date |
| Rotation.AnchorFacts | app.js:3 | the anchor 2025-12-30 is day 20452, a Tuesday, and its label is "2025-12-30" |
| Rotation.JsRemainderParity | app.js:57 | `offset % 2 === 0` with JavaScript's truncating remainder holds exactly for even offsets, negative ones included |
| Rotation.Offset | app.js:56 | the offset from the anchor: no contract of its own; RotatedChoice, RotationByDistance and SameChoiceIffEvenDistance state what its parity decides |
| Rotation.JsRemainder | app.js:57 | JavaScript's `%`: the remainder takes the dividend's sign, is smaller in size than the divisor, and differs from the dividend by a multiple of the divisor, which fixes its value |
| Rotation.RotatedChoice | app.js:53-58 | the result is the seed exactly when the offset from the anchor is even, otherwise the other label |
| Rotation.AnchorIdentity | app.js:53-58 | the anchor date gets the seed |
| Rotation.Alternation | app.js:53-58 | the choice of the next calendar day is the other label, before the anchor as well as after it |
| Rotation.RotationAfterDays | app.js:53-58 | k days later the choice is the same for even k and the other label for odd k |
| Rotation.SymmetryAroundAnchor | app.js:53-58 | the days k before and k after the anchor get the same choice |
| Rotation.SameChoiceIffEvenDistance | app.js:53-58 | two dates get the same choice exactly when they lie an even number of days apart |
| Rotation.DecodeLabel | app.js:30 | decoding a stored label gives the choice back |
| LocalTime.NoonTime | app.js:13-14 | noon.getTime(): no contract of its own; the time value of local noon, the calendar day's milliseconds plus 12 h minus the UTC offset, which NoonDayNumberExact, NoonDayNumberEast and NoonDayNumberWest floor |
| LocalTime.NoonDayNumber | app.js:12-15 | dayNumberLocal as the browser computes it: no contract of its own; NoonDayNumberExact, NoonDayNumberEast and NoonDayNumberWest state it for every offset in (-36 h, +36 h] |
| LocalTime.LocalRotatedChoice | app.js:53-58 | rotatedChoiceFor as written, on the local-noon count: the seed exactly when the count difference to the anchor is even |
| LocalTime.NoonDayNumberExact | app.js:12-15 | the local-noon count is the calendar day count for every UTC offset in (-12 h, +12 h] |
| LocalTime.NoonDayNumberEast | app.js:12-15 | for offsets above +12 h (up to +36 h) the local-noon count is one less than the calendar count |
| LocalTime.NoonDayNumberWest | app.js:12-15 | for offsets at -12 h or below (down to -36 h) the local-noon count is one more than the calendar count |
| LocalTime.FixedOffsetRotation | app.js:53-58 | a zone with one offset all year (anywhere in (-36 h, +36 h]) gives every date the calendar rotation's label |
| LocalTime.AucklandSpringRepeat | app.js:12-15 | at +12 h then +13 h, 2026-09-26 and the next day 2026-09-27 get the same label, while the calendar rotation alternates |
| LocalTime.AucklandAutumnRepeat | app.js:12-15 | at +13 h then +12 h, 2026-04-04 and the next day 2026-04-05 get the same label, while the calendar rotation alternates |
| LocalTime.AucklandStandardTimeFlipped | app.js:56 | with the anchor at +13 h, every date at +12 h gets the label opposite to the calendar rotation's |
| ChoiceRules.IsOverrideKey | app.js:39-42 | key.startsWith(prefix): no contract of its own; OverrideKey, SeedKeyIsNotOverride, WithoutOverrides and NonOverrideKeys state which keys it selects for deletion |
| ChoiceRules.OverrideKey | app.js:60-62 | the override key starts with `eatWhat.override.` and carries the date key after it |
| ChoiceRules.SeedKeyIsNotOverride | app.js:1-2 | the seed key `eatWhat.seedFirstChoice` is not in the override namespace, so clearing overrides keeps the seed |
| ChoiceRules.OverrideKeyInjective | app.js:60-62 | different date keys give different override keys |
| ChoiceRules.OverrideKeyOfDate | app.js:60-62 | two dates share an override key exactly when they are the same date |
| ChoiceRules.DecodeStored | app.js:28-30 | a stored value reads as a choice only if it is that choice's label; a stored "AD" or "D3" always reads as one |
| ChoiceRules.StoredSeed | app.js:27-36 | the seed is the stored label when that is "AD" or "D3", otherwise "D3" |
| ChoiceRules.HealSeed | app.js:30-33 | the store after getSeed's write-back: no contract of its own; HealSeedStoresSeed and HealSeedKeepsResolution give its meaning |
| ChoiceRules.HealSeedStoresSeed | app.js:27-36 | after the write-back the seed key holds the reported seed's label; healing twice equals healing once; no other key changes |
| ChoiceRules.Resolve | app.js:64-71 | the source is "override" exactly when the date's override key holds "AD" or "D3", and the choice is that label; otherwise the choice is the rotation from the stored seed |
| ChoiceRules.HealSeedKeepsResolution | app.js:53-58 | the seed write-back inside rotatedChoiceFor changes no date's resolution |
| ChoiceRules.OtherKeyKeepsOverride | app.js:60-62 | writing or removing a key outside the override namespace changes no date's override |
| ChoiceRules.SetOverrideResolves | app.js:73-75 | after an override is written for a date, that date resolves to it with source "override", and every other date resolves as before |
| ChoiceRules.ClearOverrideResolves | app.js:77-79 | after a date's override is removed, that date resolves by rotation and every other date as before; removing an absent override changes nothing |
| ChoiceRules.SeedResetResolves | app.js:48-51 | after the seed is set to c and the overrides are cleared, every date resolves by rotation from c |
| ChoiceRules.ToggleFlips | app.js:221-225 | writing the other label of today's resolved choice as an override makes today resolve to it, from "override", and so changes today's choice |
| ChoiceRules.WithoutOverrides | app.js:38-46 | the store without overrides keeps exactly the keys that do not start with the override prefix, with their values |
| ChoiceRules.NonOverrideKeys | app.js:38-46 | the remaining key order holds exactly the keys that do not start with the override prefix |
| ChoiceRules.NonOverrideKeysAppend | app.js:40-45 | the filter keeps order: the survivors of a concatenation are the first part's survivors followed by the second's |
| ChoiceRules.NonOverrideKeysCons | app.js:40-45 | the filtered suffix from index i keeps key i exactly when it is not an override key |
| LocalStorage.AppendNew | app.js:32 | the key order after setItem: the key is present, nothing else is added, an existing key keeps the order, a new key goes last |
| LocalStorage.Storage.Length | app.js:40 | localStorage.length: the number of stored items |
| LocalStorage.Storage.Key | app.js:41 | localStorage.key(i): the i-th key in the key order, or null outside 0..length-1 |
| LocalStorage.Storage.GetItem | app.js:28 | localStorage.getItem(key): the stored value, or null exactly when the key is absent |
| LocalStorage.Storage.SetItem | app.js:32 | localStorage.setItem(key, value): the key now maps to the value, no other item changes, and the key order gains the key only if it is new |
| LocalStorage.Storage.RemoveItem | app.js:43 | localStorage.removeItem(key): the key and its item are gone, the other keys keep their order, and an absent key changes nothing |
| ChoiceStore.GetSeed | app.js:27-36 | returns the stored seed or "D3"; writes "D3" exactly when the stored value is absent or invalid; a valid value is left untouched; the key order gains the seed key only if it was missing |
| ChoiceStore.ClearAllOverrides | app.js:38-46 | the reverse index loop removes every override key and skips none; every other key keeps its value and its order |
| ChoiceStore.ClearStep | app.js:41-44 | one pass of the loop keeps the loop state: keys up to i-1 untouched, keys from i on cleaned of overrides, every item an original one |
| ChoiceStore.DropStep | app.js:42-43 | dropping the override key at index i leaves the keys before it and the cleaned keys from i on |
| ChoiceStore.RemoveStep | app.js:40-45 | removing the override key at index i shifts only already-visited keys, so the cleaned part grows down to i |
| ChoiceStore.KeepStep | app.js:40-45 | a key at index i that is empty or lacks the override prefix stays, and the cleaned part grows down to i |
| ChoiceStore.Cleared | app.js:38-46 | when the loop reaches index -1, the store holds exactly the non-override items in their old order |
| ChoiceStore.SetSeedFromAnchor | app.js:48-51 | the seed key holds the new label, no override key remains, every other key is unchanged, and every date then resolves by rotation from the new seed |
| ChoiceStore.RotatedChoiceFor | app.js:53-58 | returns the rotation from the seed getSeed reports and leaves the store with the seed healed, the seed key appended to the key order if it was missing |
| ChoiceStore.GetChoiceForDate | app.js:64-71 | returns the resolution of the date in the store it started from; it writes only on the rotation path, and only the healed seed; the key order changes only there, by the seed key if it was missing |
| ChoiceStore.SetOverrideForToday | app.js:73-75 | the override key of the date key holds the label, no other item changes, the key order gains that key only if it is new, and a date with that key resolves to it with source "override" |
| ChoiceStore.ClearOverrideForToday | app.js:77-79 | only that override key is removed; an absent key is a no-op; a date with that key then resolves by rotation |
| ChoiceStore.ToggleToday | app.js:221-226 | the new store is the one getChoiceForDate left (healed seed only on the rotation path) with today's override key set to the other label of today's choice, key order included; today then resolves to that label with source "override"; every other date resolves as before |
| MonthGrid.CeilDiv7 | app.js:136 | Math.ceil(total / 7): the fewest rows of seven that hold total cells |
| MonthGrid.CellCount | app.js:135-137 | the cell count is a multiple of 7, at least leadingBlanks + count and less than leadingBlanks + count + 7 |
| MonthGrid.LeadingBlanks | app.js:129-130 | the leading blanks are the Monday-first weekday of the first of the month, at most 6 |
| MonthGrid.DayOfCell | app.js:140 | dayIndex = i - leadingBlanks + 1: no contract of its own; CellOfDay inverts it |
| MonthGrid.IsDayCell | app.js:144 | the negation of the blank test: no contract of its own; DayCellRange states which cells pass it |
| MonthGrid.DayCellRange | app.js:139-148 | cell i shows a day exactly when leadingBlanks <= i < leadingBlanks + count, and every such cell lies inside the grid |
| MonthGrid.CellOfDay | app.js:139-148 | each day n of the month is shown by cell n + leadingBlanks - 1, inside the grid |
| MonthGrid.DayInItsWeekdayColumn | app.js:129-148 | each day cell stands in the column of its own weekday, Monday first |
| MonthGrid.RowsPerMonth | app.js:135-137 | a month takes 28 to 42 cells (four to six rows); 28 only for a 28-day February that starts on a Monday |
| CalendarView.ExpectedCell | app.js:139-177 | what cell i shows: no contract of its own; RenderCalendar and RenderCell are proved to produce it |
| CalendarView.RenderCalendar | app.js:129-178 | the grid has the computed cell count; each cell is blank or shows its day with the choice and source the store resolves for that date; the store, key order included, ends as it was or with the seed healed |
| CalendarView.RenderCell | app.js:139-177 | one pass of the loop: a blank cell outside 1..count, otherwise the day with its resolution through getChoiceForDate |
| CalendarView.StillHealed | app.js:162 | repeated getChoiceForDate calls keep every resolution and at most heal the seed once |

## Findings

| source | as written | input that shows it | evidently intended | confidence | as-written member | corrected member |
|---|---|---|---|---|---|---|
| app.js:12-15 | the day count floors the UTC time value of local noon; that is the local date only while the UTC offset stays in (-12 h, +12 h], and the anchor's count is taken at the anchor's own offset | Pacific/Auckland (+12 h standard, +13 h daylight): Sat 2026-09-26 and Sun 2026-09-27 get the same count and the same label; Sat 2026-04-04 and Sun 2026-04-05 get counts two apart and the same label; every standard-time date gets the label opposite to the calendar rotation | a calendar-exact day count, so the label alternates strictly every day in every zone | high (not executed) | LocalTime.AucklandSpringRepeat | Rotation.Alternation |

## Left out

- sw.js: the service worker's install, activate and fetch handlers and its caching strategies are asynchronous platform plumbing with no logic of the core.
- DOM work in `renderCalendar`, `render` and `setupSeedUI`: element creation, class lists, texts, `onclick` wiring and `paint`. Only the arithmetic and the state changes are modelled. The today panel's texts and the reset button's enabled state in `render` are also not modelled.
- `Intl.DateTimeFormat` month and weekday labels: locale formatting done by the platform.
- `setupStoragePersistence`, `setupInstallUI`, `isStandalone`, `isIOS`, `registerServiceWorker` and the `online`/`offline` listeners: platform and install glue.
- Time zones and daylight saving are not part of `DayNumber`. It is the exact count of days since 1970-01-01, as the rotation law intends. The browser's count, `Math.floor` of local noon's time value over 86400000, is modelled separately as `LocalTime.NoonDayNumber`, with the zone's UTC offset on each date as a parameter; the zone database itself is outside the model. That count equals `DayNumber` for offsets in (-12 h, +12 h]. It is one less above +12 h and one more at -12 h or below. A zone that keeps one offset all year rotates exactly. A zone whose offset crosses +12 h does not: see "## Findings".
- The range of JavaScript `Date` is not modelled: time values span 10^8 days either side of 1970-01-01, that is years -271821 to 275760, while the model's years are unbounded integers.
- Calendar.DayNumber, Calendar.DaysInMonth, MonthGrid.LeadingBlanks, DateKey.FormatDateKey: the `Date` constructor used at app.js:13, 18, 108, 112 and 150 reads a year from 0 to 99 as 1900 to 1999. The model keeps such a year as it is. The difference cannot arise in the app, because `today` comes from the system clock and every other date is built from today's year.
- The time of day carried by the `today` Date in `render`: the model passes calendar dates only, and the resolution depends only on the calendar date.
- localStorage key order: browsers leave it implementation-defined. In the model a new key is appended and a removed key closes its gap. The correctness of the reverse loop is proved for whatever order the store holds when the loop starts.
- Storage failures (quota exceeded, disabled storage): the source does not handle them.
- `setOverrideForToday` accepts any string in the source. Its only caller passes "AD" or "D3", so the model takes a `Choice`.
- `getSeed` returns an object `{ seedFirst }`: the model returns the choice itself.
- CalendarView.RenderCalendar: states that the store ends either unchanged or with the seed healed, not which of the two (that depends on whether any day of the month resolves by rotation).
