# On-site calendar: a verified model of its attendance record and day loop

The work-mode-tracker plugin shows a calendar of the current month. Each day
of it can be clicked to mark it "on-site". The marks are kept in a record that
maps date keys (`YYYY-MM-DD`) to flags. Under the grid the plugin shows how many
days of the whole record are on-site, against a fixed quota of 8.

This Dafny project models that core of `main.js`:

- `attendance.dfy` (module `Attendance`): the record as `map<string, bool>`.
  Each flag is the truthiness of the stored value. A flip
  (`data[date] = !data[date]`) is the function `Toggled`. The on-site total
  (`Object.values(data).filter((v) => v).length`) is `TotalOnsite`. A lemma
  shows that the filtered length over any order of the keys equals that total.
- `plugin.dfy` (module `Plugin`): class `OnsiteCalendarPlugin`. Its fields are
  `data`, `filePath` and `quota`. `LoadDataFile` takes the outcome of the
  host's file read and parse as input and falls back to the empty record.
  `ToggleDay` flips one day in place.
- `calendar.dfy` (module `Calendar`): the Gregorian month length
  `DaysInMonth`. Months are 0-based, as `getMonth()` numbers them. The probe
  `new Date(year, month, day).getMonth()` is `GetMonth`, with `None` for the
  NaN of an Invalid Date. It uses the Date constructor's rule that reads years
  0 to 99 as 1900 to 1999, ECMAScript's DayFromYear and TimeClip, and the
  month table of its MonthFromTime. `VisitedDays` is the number of days the
  day loop visits.
- `iso_date.dfy` (module `IsoDate`): the date part of `toISOString()`. That is
  the RFC 3339 `full-date` for years 0 to 9999, and a sign with six digits for
  other years. Keys read back to their dates, so distinct days have distinct
  keys.
- `view.dfy` (module `View`): class `CalendarView`. Its method `Render` has the
  loop over days 1 to 31 that breaks at the first day that is invalid or rolls
  into the next month. It returns the day cells, the total and the quota instead of
  building DOM elements.

What the loop computes: it visits days 1, 2, ..., n in order and stops at the
first day whose Date is invalid or lies in the next month
(`Calendar.VisitedDays`, `Calendar.VisitedDaysStop`). Two things make n differ
from the Gregorian length of the displayed month:

- The constructor's two-digit-year rule. Every year keeps its leap-year
  status under it except year 0. The constructor reads year 0 as 1900, which
  is not a leap year, so for February of year 0 the loop stops after 28 days
  instead of 29 (`Calendar.YearZeroFebruary`).
- ECMAScript's TimeClip. A Date holds at most 100,000,000 days on either side
  of 1970: from April 20th, -271821 to September 13th, 275760
  (`Calendar.TimeRangeEdges`). A date outside is an Invalid Date, whose
  `getMonth()` is NaN, so the loop stops there. In September 275760 it visits
  13 days. In April -271821 and the months before it, and in the months
  after September 275760, it visits none, because their first day is
  already invalid.

For every other month of the years a clock can report (all months of the
years -271820 to 275759, May to December -271821 and January to August
275760), the loop visits the whole month: `DaysInMonth(year, month)` days,
except in February of year 0 (`Calendar.MonthsInTimeRange`,
`Calendar.VisitedDaysLength`).

Inputs the host supplies are parameters. Today's year and month come from
the clock and become the parameters of `Render`. The result of reading and
parsing `onsite_days.json` becomes the `LoadOutcome` argument of
`LoadDataFile`.

## Model

| member | source | states |
|---|---|---|
| Attendance.TotalOnsite | main.js:115 | the total is the number of entries of the whole record whose value is truthy; it is at most the number of keys, and it is 0 exactly when no entry is truthy |
| Attendance.CountTruthyOfKeys | main.js:115 | the number of truthy values read in a repetition-free key order is the number of on-site days among those keys |
| Attendance.FilterLengthIsTotal | main.js:115 | for every enumeration of the record's keys without repetition, the length of the truthy-filtered values equals the on-site total, so the host's property order does not matter |
| Attendance.Toggled | main.js:52 | after a flip the day is present with the negation of its earlier truthiness (absent counts as false); the keys are the old keys plus that day; every other entry is unchanged |
| Attendance.ToggleTwice | main.js:52 | two flips of the same day restore its truthiness; a day that was absent ends present with value false; a day that was present leaves the record exactly as it was |
| Attendance.OnsiteKeysToggled | main.js:52 | a flip removes the day from the on-site days if it was on-site and adds it otherwise; no other day changes |
| Attendance.ToggleTotal | main.js:52 | one flip lowers the total by one if the day was on-site and raises it by one otherwise |
| Attendance.EmptyTotal | main.js:34-41 | the empty record that a failed or missing load leaves has total 0 |
| Plugin.LoadedRecord | main.js:28-42 | the record after loading is the parsed record, and the empty record when the file is missing, cannot be read or cannot be parsed |
| Plugin.OnsiteCalendarPlugin.constructor | main.js:6-11 | a new plugin holds the empty record, file path `onsite_days.json` and quota 8 |
| Plugin.OnsiteCalendarPlugin.LoadDataFile | main.js:28-42 | the record field becomes the loaded record for the given outcome |
| Plugin.OnsiteCalendarPlugin.ToggleDay | main.js:51-54 | the record field becomes the flipped record: the day's truthiness is negated, the keys gain only that day, the other entries are unchanged, and the total moves by exactly one |
| Calendar.DaysInMonth | main.js:95-97 | the month length is between 28 and 31 and is the distance between consecutive month starts in the ECMAScript month table, which gives 29 for February exactly in Gregorian leap years |
| Calendar.DaysBeforeMonthIsMonthStart | main.js:95-97 | the month lengths add up to the month table, so a year has 365 days, or 366 in a leap year |
| Calendar.ProbeStaysInMonth | main.js:96-97 | the month the constructor computes for a day equals the given month exactly when the day is at most the month length, and otherwise is the following month |
| Calendar.ConstructorYear | main.js:92-96 | the year the Date constructor uses is never one of 0..99 (those are read as 1900..1999); it has the leap-year status of the given year except for year 0; a year strictly inside the Date range stays strictly inside it |
| Calendar.DayFromYearStep | main.js:96 | ECMAScript's DayFromYear advances by 366 days after a Gregorian leap year and by 365 after any other year |
| Calendar.DayFromYearIncreasing | main.js:96 | a later year starts at least 365 days per year later |
| Calendar.TimeRangeEdges | main.js:96 | the first date a Date can hold is April 20th, -271821 and the last is September 13th, 275760; the days just outside are Invalid Dates |
| Calendar.MonthsInTimeRange | main.js:96 | every day of every month of the years strictly inside the Date range, and of the months after April -271821 and before September 275760, is a valid Date |
| Calendar.GetMonth | main.js:96-97 | `new Date(year, month, day).getMonth()` is a number exactly when the date is in the Date range; it is the month exactly when the date is in range and the day is at most the month length; a valid date past the month's end is in the following month |
| Calendar.EdgeMonthDays | main.js:96-97 | the valid days of September 275760 are the 1st to the 13th, those of April -271821 are the 20th to the 31st |
| Calendar.StoppedAfterWholeMonth | main.js:95-97 | a loop that stopped after n days in the month has not passed the month's end, and has visited all of it when the whole month is valid |
| Calendar.StoppedAfterEdgeMonth | main.js:95-97 | such a loop stops after 13 days in September 275760, and at once in the months up to April -271821 and after September 275760 |
| Calendar.OutsideMonths | main.js:96-97 | no day of January to March -271821 nor of October to December 275760 is a valid Date |
| Calendar.ProbesAt | main.js:96-97 | the probe table marks day d exactly when `getMonth()` of that date is the displayed month |
| Calendar.RunEndStops | main.js:95-97 | probing on from a day whose predecessors were all found in the month finds every day up to the end of the run, and not the day after it (unless the run reaches day 31) |
| Calendar.VisitedDaysStop | main.js:95-97 | the days the loop visits, 1..n, are all in the month, and day n + 1 (if n < 31) is not |
| Calendar.VisitedDaysLength | main.js:92-97 | for every year a Date can hold, the loop visits at most the month; 28 to 31 days, all of the month, strictly inside the range; the Gregorian length of the displayed month there except in February of year 0; 13 days of September 275760; none in the months up to April -271821 and after September 275760 |
| Calendar.ConstructorYearMonthLength | main.js:92-97 | so the month the probe sees has the Gregorian length of the displayed month for every year and month except February of year 0 |
| Calendar.YearZeroFebruary | main.js:96-97 | February of year 0 is probed as February 1900, with 28 days, while year 0 has a 29-day February |
| IsoDate.DateKey | main.js:99 | a key is the year field followed by `-MM-DD`, six characters longer than the year field |
| IsoDate.YearFieldRoundTrip | main.js:99 | the year field of `toISOString()` (four digits, or a sign and six digits) reads back as its year |
| IsoDate.DateKeyRoundTrip | main.js:99 | a key reads back as its year, its 0-based month and its day |
| IsoDate.DateKeyInjective | main.js:99 | distinct dates have distinct keys |
| IsoDate.DateKeyShape | main.js:99 | for years 0..9999 a key has ten characters, dashes at positions 4 and 7 and digits elsewhere |
| IsoDate.DateKeyFields | main.js:99 | for years 0..9999 the key's fields read as the year, the 1-based month and the day |
| IsoDate.DateKeyIsFullDate | main.js:99 | for years 0..9999 a key is an RFC 3339 full-date `YYYY-MM-DD` whose fields are the year, the 1-based month and the day |
| View.CellOfReadsBack | main.js:96-107 | a day's cell shows the day number; its key reads back as the year the constructor used, the month and the day; it is shaded exactly when the record's value for the key is truthy |
| View.DayCellsAt | main.js:95-107 | the cells of days 1..n are in day order: the i-th is the cell of day i + 1 |
| View.ClickChangesOnlyThatCell | main.js:109-112 | toggling the key of a clicked cell flips that cell's shading and leaves the shading of every other day of the month unchanged |
| View.CalendarView.constructor | main.js:66-69 | the view keeps the plugin it was made for |
| View.CalendarView.Render | main.js:85-119 | the cells are those of days 1..n in order, where n is the number of days the probing loop visits (so at most the month, and all of it for every month a Date fully holds); the total is the on-site total of the whole record and the quota is the plugin's |

## Left out

- Saving: `saveDataFile` and the fire-and-forget save after a toggle (main.js:44-49, 53) are host file writes with `JSON.stringify`, whose ordering and durability belong to the host.
- Host integration: `onload`, `registerView`, the ribbon icon, the command, `activateView` and the view's lifecycle methods (main.js:13-26, 56-83) are calls into the host library.
- Presentation: the DOM elements, CSS classes, the footer text and the re-render after a click (main.js:86-118) are not modelled; `Render` returns the cells and numbers they display.
- File I/O and JSON parsing (main.js:30-35) happen in the host; their outcome is the `LoadOutcome` input.
- Plugin.OnsiteCalendarPlugin.LoadDataFile: a file whose JSON is not an object (for example `null` or a number) is not modelled; `Parsed` always carries a record.
- Attendance.Toggled: stored values are modelled by their truthiness only, so a non-boolean JSON value (such as `1`) is not kept as written. Toggling and counting only use truthiness.
- Attendance.IsOnsite: keys are plain strings, not JavaScript property names. Names inherited from `Object.prototype` (`constructor`, `__proto__`) behave differently in the source. Keys made by the view are always dates, so they never hit these names.
- Time zones: the source takes the key from the UTC date (`toISOString`) but the day from local time. The model assumes the host runs in UTC, so the key date is the displayed date.
- View.CalendarView.Render: requires the year to lie in the range a Date can hold (years -271821 to 275760), the only years a clock's `getFullYear()` can return. Within it every date the loop reaches `toISOString` for is valid, so no RangeError arises.
- Month navigation, Monday-first grid offsets, weekend styling and trend charts do not occur in this `main.js` and are not part of this model.
