# Activity heatmap: date bucketing and grid layout

A Dafny model of the calendar engine behind a React Native activity heatmap
(a contribution-graph style grid). The engine:

- splits a displayed date range into one segment per calendar month
  (`getMonthRanges`);
- turns one month segment plus the caller's activity list into a flat,
  weekday-aligned run of cells: blank (`'invisible'`) padding before the first
  day, one real cell per day carrying that day's count and level (or 0 and 0),
  and blank padding after the last day up to a whole week
  (`getHeatmapMonthCells`);
- maps a cell's level to one of five caller-supplied colours, with a
  transparent fallback (`getColor`);
- in the month component, reshapes the flat run into 7-row columns, ignores
  presses on blank cells, builds the default tooltip text, and decides whether
  the month label shows.

Dates are modelled at day precision as `Date(year, month, day)` with months
numbered 1..12. JavaScript's `getMonth()` is 0-based: the source compares it,
adds 1 before printing it in the key, and passes it to `new Date(year, month, 1)`,
`new Date(year, month + 1, 0)` and `setFullYear(year, month + 1, 1)`; the model's
`LastDayOfMonth` and `FirstOfNextMonth` stand for those calls and take the
1-based month.
JavaScript's `a > b` on dates compares time values; at day precision that is
the comparison of Rata Die day numbers (`Calendar.DayNumber`, January 1 of
year 1 is day 1, a Monday), and `getDay()` is that number mod 7.
`setDate(getDate() + 1)`, `setFullYear(y, m + 1, 1)` and `new Date(y, m + 1, 0)`
become the explicit `NextDay`, `FirstOfNextMonth` and `LastDayOfMonth`, with
the Gregorian leap rule.

Files, one module each: `calendar.dfy` (calendar arithmetic), `text.dfy`
(decimal text and its parser), `types.dfy` (the records of `src/types.ts` and
the two errors), `format.dfy` (lookup key, display date, month names),
`month_ranges.dfy` (`getMonthRanges`), `month_cells.dfy`
(`getHeatmapMonthCells`), `colors.dfy` (`getColor`), `month_view.dfy`
(`ActivityHeatmapMonth` decisions), `heatmap.dfy` (how `ActivityHeatmap`
chains them).

For February 2024 with no activities (Thursday the 1st to Thursday the 29th)
the code gives 4 leading blanks, 29 real cells and 2 trailing blanks, 35 cells
in all: after the loop it pads `7 - getDay()` of March 1, a Friday, so 7 − 5 = 2
(src/utils.ts:112-113, `MonthCells.ExampleFebruary`).

## Model

| member | source | states |
|---|---|---|
| Calendar.DaysInMonth | src/utils.ts:31 | month lengths are 28..31; February has 29 days in Gregorian leap years and 28 otherwise; April, June, September and November have 30; the other seven months have 31 |
| Calendar.LastDayOfMonth | src/utils.ts:31 | `new Date(y, m + 1, 0)` is a valid day of month m and no day of that month is later |
| Calendar.FirstOfNextMonth | src/utils.ts:39 | `setFullYear(y, m + 1, 1)` is day 1 of exactly the next calendar month (December rolls over to January of the next year) |
| Calendar.NextDay | src/utils.ts:109 | `setDate(getDate() + 1)` stays in the month with the day plus one, except from the last day, where it is the first of the next month |
| Calendar.NextDayNumber | src/utils.ts:109 | the next day is exactly one day later in the day count, across month and year ends (leap years included) |
| Calendar.DayOfWeek | src/utils.ts:88 | `getDay()` is a weekday index 0..6 |
| Calendar.EpochWeekday | src/utils.ts:88 | January 1, 1970, the origin of JavaScript time values, is a Thursday (4), so the weekday numbering matches `getDay()`'s |
| Calendar.NextDayOfWeek | src/utils.ts:112-113 | weekdays cycle: the weekday of the next day is one more, mod 7 (Saturday is followed by Sunday) |
| Calendar.OrderIsLexicographic | src/utils.ts:12 | the date comparison is the calendar's (year, month, day) order |
| Calendar.MonthOrder | src/utils.ts:19 | every day of an earlier calendar month compares before every day of a later one |
| Calendar.DayNumberInjective | src/utils.ts:90 | two valid dates with the same position in time are the same day |
| Text.IntRoundTrip | src/utils.ts:73 | the year as printed in the key reads back as the same integer |
| Text.PaddedRoundTrip | src/utils.ts:74-75 | a month or day printed with `padStart(2, '0')` is two digits that read back as the same number |
| Format.FormatKey | src/utils.ts:72-77 | the key of a valid day (year as printed, month and day zero-padded to two digits, joined by dashes) parses back to that day |
| Format.KeyInjective | src/utils.ts:72-77 | two days have the same key exactly when they are the same day, so an activity is never matched to another day |
| Format.FormatDisplay | src/utils.ts:79-85 | the en-US short display date "Mon D, YYYY" of a valid day parses back to that day |
| Format.DisplayInjective | src/utils.ts:79-85 | two days have the same display date exactly when they are the same day |
| Format.MonthName | src/utils.ts:22 | each long month name has at least three letters and begins with that month's three-letter short name |
| MonthRanges.CursorStep | src/utils.ts:19-39 | from a cursor not after the end, moving to the first of the next month passes the end exactly when the cursor is already in the end's month |
| MonthRanges.Walk | src/utils.ts:17-40 | the loop emits nothing when the cursor starts after the end, and otherwise one segment per calendar month from the cursor's month to the end's |
| MonthRanges.GetMonthRanges | src/utils.ts:8-43 | fails with the reversed-range error exactly when start is after end (equal dates are accepted); otherwise one segment per calendar month touched, at least one, the first starting at `startDate` and the last ending at `endDate` |
| MonthRanges.WalkBounds | src/utils.ts:19-40 | from any cursor not after the end, the loop emits one segment per month up to the end's month, starting at the cursor and ending at `endDate` |
| MonthRanges.MonthRangesSegments | src/utils.ts:24-31 | every segment lies in one month with start not after end; segments after the first start on day 1; the segment of `endDate`'s month ends at `endDate`, every other on its month's last day; segment i is i months after the start; its name is its month's name |
| MonthRanges.MonthRangesContiguous | src/utils.ts:24-39 | each segment starts on the day after the previous one ends |
| MonthRanges.MonthRangesPartition | src/utils.ts:17-40 | a day lies in some segment if and only if it lies in [startDate, endDate], and every segment ends before the next one starts, so no day is in two |
| MonthRanges.ExampleSplit | src/utils.ts:8-43 | January 15 to March 10, 2024 gives January 15–31, February 1–29 and March 1–10; May 10 to May 1 fails |
| MonthRanges.WalkAsWritten | src/utils.ts:17-40 | the loop as written emits the same number of segments as the corrected one: none past the end, otherwise one per month from the cursor's to the end's |
| MonthRanges.AsWrittenAgreesOutsideLegacyYears | src/utils.ts:24-31 | outside years 0..99 the loop as written and the model produce the same segments |
| MonthRanges.LegacyYearCounterexample | src/utils.ts:25-31 | for a range in year 50 the code as written produces segment bounds in 1950, after the range's end |
| MonthCells.IndexActivities | src/utils.ts:63-64 | the index's keys are exactly the activities' date texts, and every entry is one of the activities, filed under its own date |
| MonthCells.LastMatch | src/utils.ts:63-64 | reference lookup: no match exactly when no activity carries the key; otherwise the position of an activity with that key and none after it |
| MonthCells.IndexIsLastWins | src/utils.ts:63-64 | the keyed index holds a key exactly when some activity carries it, and then holds the last such activity (later duplicates win) |
| Types.Invisibles | src/utils.ts:66-70 | adding n blank cells adds exactly n entries, all blank |
| MonthCells.DayCell | src/utils.ts:91-107 | each real cell's date text reads back to its own day, and it carries the count and level of the activity filed under the day's key, or 0 and 0 when there is none |
| MonthCells.DayLoop | src/utils.ts:90-110 | from a start after the end the loop visits no day and stays put; otherwise it visits consecutive days, one day apart, from the start through the end, and stops on the day after the end |
| MonthCells.TrailingPadding | src/utils.ts:112-114 | fewer than 7 blanks, exactly enough to bring the stopping day's weekday round to Sunday; none when the loop stopped on a Sunday |
| MonthCells.GetHeatmapMonthCells | src/utils.ts:45-117 | fails with the same-month error exactly when the dates are in different months (checked first, so a reversed cross-month range reports it), with the reversed-range error exactly when a same-month start is after the end; otherwise the length is a multiple of 7 |
| MonthCells.DayLoopShape | src/utils.ts:87-110 | the day loop visits the days from start to end of the month slice in order, one each, and stops on the day after the end |
| MonthCells.TrailingAfter | src/utils.ts:112-114 | the loop stops on the day after the last one, and the padding added there is 6 minus the last day's weekday (none after a Saturday) |
| MonthCells.PaddingCompletesWeek | src/utils.ts:87-114 | a run of n days padded in front with the first day's weekday and behind by the padding of the day n days later makes whole weeks |
| MonthCells.WholeWeeks | src/utils.ts:87-114 | leading blanks (the start's weekday), the days of the range and the trailing blanks add up to whole weeks |
| MonthCells.MonthCellsLength | src/utils.ts:87-116 | the run has the start's weekday in blanks, one cell per day of the range and 6 minus the end's weekday in blanks |
| MonthCells.MonthCellsLayout | src/utils.ts:87-116 | the cells are weekday-of-start blanks, one real cell per day, then 6 − weekday-of-end blanks; a cell is blank exactly when it lies before the first day or after the last |
| MonthCells.DayCellIsExpected | src/utils.ts:91-107 | looking a day's key up in the index gives the reference cell: the display date with the count and level of the last activity dated with that key, or 0 and 0 when there is none |
| MonthCells.MonthCellsContent | src/utils.ts:87-110 | the cell at the start's weekday plus k is the reference cell of the k-th day of the range |
| MonthCells.MonthCellsWeekday | src/utils.ts:87-88 | the k-th day's cell position mod 7 is that day's weekday, so it lands in its weekday's row |
| MonthCells.ExampleFebruary | src/utils.ts:45-117 | February 2024 with no activities is 4 blanks, 29 real cells and 2 blanks; January 20 to February 5 fails with the same-month error |
| Colors.GetColor | src/utils.ts:119-134 | levels 0..4 select the corresponding entry of the colour table; every other level gives `'transparent'` |
| MonthView.BuildColumns | src/ActivityHeatmapMonth.tsx:46-53 | exactly `columnSizeInCells` columns (none when not positive), each of exactly 7 entries; entry (col, row) is `cells[col * 7 + row]` when in range and blank otherwise |
| MonthView.ColumnCount | src/ActivityHeatmap.tsx:60 | `Math.ceil(len / 7)` is the fewest 7-entry columns that hold `len` cells |
| MonthView.ColumnCountExact | src/ActivityHeatmap.tsx:60 | a run whose length is a multiple of 7 fills exactly `ceil(len / 7)` columns, with no spare entry |
| MonthView.ReshapeFlatten | src/ActivityHeatmapMonth.tsx:46-53 | reading the columns back column-major gives the cell run followed by blanks up to 7 per column: nothing lost, duplicated or reordered |
| MonthView.ReshapeLosesNothing | src/ActivityHeatmapMonth.tsx:46-53 | with `ceil(len / 7)` columns and a length that is a multiple of 7, the columns read back as exactly the cell run |
| MonthView.DefaultTooltip | src/ActivityHeatmapMonth.tsx:34-38 | the default tooltip starts with the count (which reads back as the count), then " activity on " when the count is 1 and " activities on " otherwise, then the cell's date and nothing more |
| MonthView.HandleCellPress | src/ActivityHeatmapMonth.tsx:31-42 | pressing a blank cell leaves the tooltip state unchanged; pressing a real cell shows the tooltip with the custom rendering, or the default text when there is no renderer |
| MonthView.MonthLabel | src/ActivityHeatmapMonth.tsx:92-96 | the label shows exactly when there are at least 3 columns, and it is the first 3 characters of the month name (all of it when shorter) |
| Heatmap.EverySegmentBuilds | src/ActivityHeatmap.tsx:44-60 | building the cells of every segment of a valid split succeeds, and each cell run fills exactly `ceil(len / 7)` columns |
| Heatmap.SegmentLabel | src/ActivityHeatmapMonth.tsx:92-94 | a shown label of a split segment is the short name of its month |
| Heatmap.LabelVisibility | src/ActivityHeatmapMonth.tsx:92-94 | a month slice of 15 or more days always shows its label; one of 8 or fewer days never does |
| Heatmap.RealCellsPainted | src/ActivityHeatmapMonth.tsx:81 | if every activity has a level in 0..4 and a non-negative count, so does every real cell, and each is painted from the colour table, never the fallback |

## Findings

| source | as written | input that shows it | evidently intended | confidence | as-written member | corrected member |
|---|---|---|---|---|---|---|
| src/utils.ts:25-31 | segment bounds are built with `new Date(year, month, 1)` and `new Date(year, month + 1, 0)`, which read a year 0..99 as 1900 + year, while the cursor moved with `setFullYear` keeps the real year | `getMonthRanges` from January 15 to March 10 of year 50: the first segment ends January 31, 1950 and the second starts February 1, 1950 | bounds in the cursor's own year, so the segments tile the range | high that the constructor behaves so; not executed | MonthRanges.LegacyYearCounterexample | MonthRanges.MonthRangesPartition |

The rest of the model uses the corrected loop (`MonthRanges.Walk`); the loop as
written is `MonthRanges.WalkAsWritten`, and
`MonthRanges.AsWrittenAgreesOutsideLegacyYears` shows the two differ only for
ranges that reach years 0..99.

## Left out

- Time of day and time zones: the model works at day precision, where every date carries the same time of day. The source compares full timestamps (src/utils.ts:12, 19, 57, 90). Every segment but the last ends at midnight (src/utils.ts:31), while the first starts at `startDate`'s clock time, so a start later than midnight makes the day loop (src/utils.ts:90) skip the last day of the first month. When such a start is itself the last day of a month, `getHeatmapMonthCells` throws "startDate must be before endDate" (src/utils.ts:57). The component's default range starts 365 days before the current time (src/ActivityHeatmap.tsx:37-42), at the current time of day, so in practice it is never at midnight. `setFullYear`/`setDate` also keep the clock time, so a start with a later time of day than the end can drop the final day or month.
- Year range of JavaScript dates (about ±270,000 years) and invalid dates: years are unbounded integers and every date is a valid calendar day. An Invalid Date such as `new Date('x')` is not modelled: every comparison with it is false, so `getMonthRanges` returns no segments without throwing (src/utils.ts:12, 19), and `getHeatmapMonthCells` throws the same-month error because its year comparison fails (src/utils.ts:51).
- Locale: month names come from `toLocaleString('default', …)`, which depends on the runtime's locale; the model uses the fixed en-US names. Display dates (`toLocaleDateString('en-US', …)`) are modelled as "Mon D, YYYY"; en-US's era suffix for years 0 and below is not modelled.
- The JavaScript object used as the activity index: an activity dated `"__proto__"` would not become an entry. Lookup keys are always `YYYY-MM-DD` text, so no day's lookup is affected; the model uses a map.
- `count` and `level` are JavaScript numbers; the model uses integers. A non-integer level falls into `getColor`'s fallback in the source as well. A non-integer `columnSizeInCells` is not modelled.
- MonthCells.GetHeatmapMonthCells: the guarantee that real cells have a non-negative count and a level in 0..4 holds only when the activities do (the source does not validate them); `Heatmap.RealCellsPainted` states it under that condition.
- `renderTooltip` returns a React node; the model treats its result as text supplied by the caller.
- Rendering: views, styles, `TouchableOpacity`, the `useState` hooks (modelled as a `TooltipState` value), the tooltip's close handler and src/Tooltip.tsx.
- src/ActivityHeatmap.tsx beyond how it chains the engine: its default range reads the clock (lines 37-42), and its React keys use `toISOString`.
- example/src/App.tsx: demo data built with `Math.random` and the clock.
