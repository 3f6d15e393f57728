# Transport scheduling: hours engine, conflict detector and assignment editor

This project models the arithmetic core of a school-transport scheduling application. Employees (drivers) hold **assignments**: circuits made of **shifts** (AM, PM, MIDI). Each shift is a list of time **blocks**, and each block has optional paid buffers (HLP) before and after it. Employees also take one-off **temporary tasks**, are sometimes **absent**, and the company closes on **holidays**.

Each module mirrors one part of the source:

- **Wrappers**, **Records**, **Calendar**, **Lists**, **Text**: the shared vocabulary. Records are reduced to the fields the computations read. Dates are day ordinals, where day 1 is a Monday. Strings are Python/JavaScript strings, so there are parsers, padding, `split`, `trim`, `toLowerCase` and `includes`.
- **ServerTime**: the backend helpers `time_to_minutes`, `minutes_to_time`, `format_hours_minutes` and `is_weekend`.
- **Hours**: the summing calculators `calculate_shift_duration` and `calculate_daily_hours`. They are written as loops over the records and proved against recursive totals.
- **WeekSchedule**: the computation behind the `/schedule` route. It covers:
  - the five week dates;
  - per-employee daily and weekly minutes, with holiday and absence zeroing;
  - the replacement pool.
- **ConflictCheck**: the `/check-conflict` route. A record is reported when its overlap with the proposed interval is strictly more than five minutes. Assignment blocks are widened by their buffers; temporary tasks are not.
- **HoursReport**: the date range and table rows of the hours report, without the PDF.
- **ClientUtils**: the browser helpers `timeToMinutes`, `minutesToTime`, `formatHoursMinutes`, `getMonday`, `getWeekDates` and `isWeekend`. JavaScript numbers are `Num(n)` or `NaN`.
- **TimeGrid**: `generateTimeSlots`.
- **AssignmentEditor**: the assignment page. It covers:
  - the 5-minute time list;
  - the duration shown for a shift;
  - the immutable shift/block edits;
  - the search filter;
  - the circuit-number check before submission.
- **Agreement**: where the browser and the backend compute the same value, and where they do not.

**Failures.** A backend computation that raises (`int()` on a bad time, for example) is modelled as `None`. The route then fails as a whole, and the contracts say exactly when that happens.

**Dates.** The source compares dates as zero-padded `YYYY-MM-DD` strings (server.py:191, :504, :544, :595). This model assumes that the lexicographic order of such strings is the order of the days they name, and compares day ordinals instead.

**What the code does, not the intended design.** The application's design describes more than the code implements. It describes interval merging, temporary reassignments overlaid on the schedule, administrative shifts and absences limited to certain shift types. The code implements none of these. This model follows the code:

- overlapping items are **added**, not merged;
- `calculate_daily_hours` consults neither weekdays, absences nor holidays;
- no overlay, admin-shift or shift-type logic exists.

## Model

| member | source | states |
|---|---|---|
| ServerTime.TimeRoundTrip | backend/server.py:167-176 | `ServerTime.TimeToMinutes` models `time_to_minutes` (`None` where `int()` raises) and `ServerTime.MinutesToTime` models `minutes_to_time`; for every integer m, including negative ones, parsing `minutes_to_time(m)` gives back m |
| ServerTime.PaddedFieldsParse | backend/server.py:167-170 | "HH:MM" made of two padded fields parses to h*60+r |
| ServerTime.FormatIsMinutesToTime | backend/server.py:172-176 | `format_hours_minutes` and `minutes_to_time` agree on every input |
| ServerTime.FormatShape | backend/server.py:206-210 | `ServerTime.FormatHoursMinutes` models `format_hours_minutes`; for m ≥ 0: the text is digits, a colon and two digits; the minutes field is below 60; reading the fields back gives m |
| ServerTime.WeekendSpec | backend/server.py:201-204 | `ServerTime.IsWeekend` models `is_weekend`; a day is a weekend exactly when it is not Monday–Friday, and the answer repeats every 7 days |
| Hours.BlockExample | backend/server.py:178-185 | 07:30–08:15 with buffers 10/5 counts 60 minutes, and 45 without buffers |
| Hours.EmptyShift | backend/server.py:178-185 | a shift without blocks lasts 0 minutes |
| Hours.CalculateShiftDuration | backend/server.py:178-185 | `Hours.ShiftMinutes` is the sum it is proved against, each block counting end − start plus its buffers (`Hours.BlockMinutes`); the loop computes the sum over the shift's blocks |
| Hours.CalculateDailyHours | backend/server.py:187-199 | `Hours.DailyMinutes` is the recursive total it is proved against, each task counting end − start (`Hours.TaskDuration`); the loops compute the day's total over assignments covering the date and tasks on that date |
| Hours.AddAssignments | backend/server.py:189-193 | the assignment loop adds, to its starting total, every shift of every assignment covering the date |
| Hours.AddShifts | backend/server.py:192-193 | the shift loop adds every shift's duration |
| Hours.AddTasks | backend/server.py:194-198 | the task loop adds the duration of every task dated that day |
| Hours.TotalAppend | backend/server.py:187-199 | the total over two lists joined is the sum of the two totals |
| Hours.TotalFails | backend/server.py:187-199 | the total fails exactly when one item fails |
| Hours.DailyMinutesAdditive | backend/server.py:187-199 | the day's minutes are additive in both the assignments and the tasks: nothing is merged |
| Hours.DuplicateTaskCountsTwice | backend/server.py:194-198 | the same task listed twice counts twice: overlaps are summed, not merged |
| Hours.UnrelatedRecordsIgnored | backend/server.py:187-199 | assignments not covering the date and tasks of other dates do not change the total |
| Hours.NothingOn | backend/server.py:187-199 | with nothing covering the date, the total is 0 |
| Calendar.WeekdaysInMember | backend/server.py:655-662 | the weekday list of [lo, hi] holds exactly the Monday–Friday days in it |
| Calendar.WeekdaysInIncreasing | backend/server.py:655-662 | that list is strictly ascending |
| Calendar.WeekdaysInSevenDays | backend/server.py:476-482 | any seven consecutive days hold exactly five weekdays |
| Calendar.JsDay | frontend/src/lib/utils.js:71-88 | JavaScript's `getDay` is the Python weekday shifted by one, modulo 7 |
| WeekSchedule.WeekDates | backend/server.py:476-486 | the week-dates code computes the weekdays among the 7 days from `week_start`, or the Monday–Friday of today's week |
| WeekSchedule.WeekDatesShape | backend/server.py:476-486 | `WeekSchedule.WeekDatesOf` models the two branches; there are always exactly 5 ascending weekdays; the first is `week_start` when that is a weekday; without it, the first is the Monday of today's week, `today − weekday(today)` |
| WeekSchedule.EmployeeWeekOf | backend/server.py:488-524 | one employee's entry: their own assignments, tasks and absences, every week date's minutes, the weekly total equal to the sum of the days, and its formatted text |
| WeekSchedule.DayHours | backend/server.py:497-514 | `WeekSchedule.DayMinutes` models the per-date body; a day is 0 on a holiday (checked first), 0 when an absence covers it, and otherwise the summed minutes |
| WeekSchedule.DailyHoursCases | backend/server.py:497-514 | a recorded day is 0 on a holiday, 0 when absent, and otherwise the day's summed minutes |
| WeekSchedule.WeeklyTotalIsSumOfDays | backend/server.py:512-522 | `weekly_total` is the sum of `daily_hours` over the week dates |
| WeekSchedule.SumMatches | backend/server.py:512-514 | summing the recorded days gives the week's minutes |
| WeekSchedule.UnassignedExactly | backend/server.py:527-528 | `WeekSchedule.UnassignedAssignments` and `WeekSchedule.UnassignedTasks` model the two comprehensions; the unassigned lists hold exactly the records whose `employee_id` is missing or empty, every copy of each, in store order |
| WeekSchedule.AbsentItems | backend/server.py:531-550 | the replacement loop computes the absent-items list |
| WeekSchedule.EmployeeItems | backend/server.py:536-550 | one employee's loop over the week dates computes that employee's items |
| WeekSchedule.ActiveAssignments | backend/server.py:543-550 | the inner loop yields one item per assignment of the employee active that day |
| WeekSchedule.AbsentItemMember | backend/server.py:531-550 | an item is listed iff its employee is absent that week date and the assignment is theirs and active that date; no holiday check applies |
| WeekSchedule.EmployeeItemsMember | backend/server.py:536-550 | the same, for one employee |
| WeekSchedule.ActiveItemsMember | backend/server.py:543-550 | an item is listed iff its assignment is in the list and covers the date |
| WeekSchedule.ActiveItemsCount | backend/server.py:543-550 | each copy of an assignment covering the date is listed once, and no other item is listed (`ActiveItems`) |
| WeekSchedule.EmployeeItemsCount | backend/server.py:536-550 | over distinct dates, such as the week dates, one employee lists an item once per copy of the assignment among their own, when its date is a week date on which they are absent, it covers that date and it names them; otherwise never (`EmployeeAbsentItems`) |
| WeekSchedule.AbsentItemsCount | backend/server.py:531-550 | over distinct dates, the pool lists an item of a week date once per employee who owns its assignment and gives it, times the stored copies of the assignment; items of other dates never (`AbsentItemsOf`, `Owners`) |
| WeekSchedule.OwnersAtMostOne | backend/server.py:531-550 | with distinct employee ids, at most one employee owns an item, so the pool holds one entry per (employee, absent week date, active assignment) and stored copy |
| WeekSchedule.GetSchedule | backend/server.py:462-561 | the response holds the week dates, one entry per employee in store order, the unassigned lists, the absent items and the holiday dates; it fails exactly when some employee's minutes cannot be computed |
| ConflictCheck.OverlapSymmetric | backend/server.py:603-604 | the overlap does not depend on which interval is the proposed one |
| ConflictCheck.OverlapExceeds | backend/server.py:603-604 | the overlap exceeds t iff each end exceeds the other interval's start by more than t and each interval is longer than t |
| ConflictCheck.CheckConflict | backend/server.py:565-630 | an incomplete request gives `{"conflict": False}` alone; otherwise the result is the flag together with the list of all reported records |
| ConflictCheck.AssignmentsLoop | backend/server.py:592-612 | the assignment loop collects the entries of every non-excluded assignment covering the date |
| ConflictCheck.AssignmentBlocks | backend/server.py:597-612 | the shift loop collects the entries of every shift |
| ConflictCheck.ShiftBlocks | backend/server.py:599-612 | the block loop collects the entry of every block |
| ConflictCheck.TasksLoop | backend/server.py:614-628 | the task loop collects the entry of every non-excluded task |
| ConflictCheck.ConflictsExactly | backend/server.py:574-630 | `ConflictCheck.ResponseOf` models the response to a complete request; `conflict` is true iff the list is non-empty; an entry is listed iff it comes from a block (widened by HLP) of the employee's non-excluded assignment covering the date, or from the employee's non-excluded task of that date, with overlap > 5 |
| ConflictCheck.BlockTolerance | backend/server.py:600-612 | `ConflictCheck.BufferedInterval` models the widened block interval and `ConflictCheck.BlockConflict` the per-block test; a block is reported iff its buffered overlap is more than 5: exactly 5 is not reported, and 6 is |
| ConflictCheck.TaskToleranceExample | backend/server.py:614-628 | `ConflictCheck.TaskConflictOf` models the per-task test; a task overlapping 08:00–09:00 by 5 minutes is not reported, and one overlapping by 6 is reported with overlap 6 |
| ConflictCheck.CollectFails | backend/server.py:592-628 | the collected list fails exactly when one record's times do not parse |
| HoursReport.SelectionExactly | backend/server.py:650-652 | `HoursReport.SelectedEmployees` models the filter; the report covers all employees when `employee_ids` is empty, otherwise exactly those listed, every copy of each, in store order |
| HoursReport.DateRange | backend/server.py:655-662 | the `while current <= end` loop computes the weekday list of [start, end] |
| HoursReport.DateRangeExactly | backend/server.py:655-662 | the date range holds exactly the weekdays in [start, end], ascending |
| HoursReport.CellMatchesDay | backend/server.py:691-706 | a cell can be computed exactly when the day's minutes can |
| HoursReport.DayCell | backend/server.py:691-706 | one day gives "F" on a holiday (checked first), "A" on an absence, otherwise the formatted minutes, together with the minutes it adds |
| HoursReport.ReportRowFor | backend/server.py:681-709 | the row builder gives the name, one cell per date and the formatted total; it fails exactly when the week's minutes do |
| HoursReport.GenerateHoursReport | backend/server.py:634-709 | the report has the weekday date range and one row per selected employee, in order |
| HoursReport.FormattedIsNotMarker | backend/server.py:691-706 | a formatted duration is never "F" or "A" |
| HoursReport.CellReadsBack | backend/server.py:691-706 | `HoursReport.CellOf` models the cell rule; reading a cell back gives the day's minutes, which are 0 for "F" and "A" |
| HoursReport.RowAddsUp | backend/server.py:681-708 | the total sums only the numeric cells and equals the sum of the day minutes |
| HoursReport.CellsAddUp | backend/server.py:688-706 | the cells' values add up to the week's minutes |
| HoursReport.ReportMatchesSchedule | backend/server.py:497-524 | a report row and a schedule entry over the same dates agree: the same total, "F" exactly on holidays, and the same minutes on worked days |
| ClientUtils.JsRem60 | frontend/src/lib/utils.js:15-19 | JavaScript `%` by 60 truncates: the sign follows the dividend |
| ClientUtils.TimeRoundTrip | frontend/src/lib/utils.js:9-19 | `ClientUtils.TimeToMinutes` (over `ClientUtils.NumberOf`, JavaScript `Number()`) models `timeToMinutes` and `ClientUtils.MinutesToTime` models `minutesToTime`; for every m ≥ 0, `timeToMinutes(minutesToTime(m)) == m` |
| ClientUtils.NegativeRoundTrip | frontend/src/lib/utils.js:9-19 | for m = −30 the round trip gives −90, not −30 |
| ClientUtils.PaddedFieldsNumber | frontend/src/lib/utils.js:9-13 | "HH:MM" of two padded fields reads as h*60+r |
| ClientUtils.FormatIsMinutesToTime | frontend/src/lib/utils.js:15-25 | `ClientUtils.FormatHoursMinutes` models `formatHoursMinutes`; `formatHoursMinutes` equals `minutesToTime` on every input |
| ClientUtils.GetMondaySpec | frontend/src/lib/utils.js:71-82 | `ClientUtils.GetMonday` models `getMonday`; `getMonday(d)` is a Monday 0–6 days on or before d (Sunday goes back 6), and every day of that week maps to it |
| ClientUtils.GetMondayIdempotent | frontend/src/lib/utils.js:71-82 | `getMonday(getMonday(d)) == getMonday(d)` |
| ClientUtils.GetWeekDates | frontend/src/lib/utils.js:47-69 | the push loop computes the weekdays of the week starting at `getMonday(start)` |
| ClientUtils.MondayWeek | frontend/src/lib/utils.js:47-69 | from a Monday, those are the five consecutive days Monday to Friday |
| ClientUtils.WeekDatesShape | frontend/src/lib/utils.js:47-88 | exactly 5 consecutive dates starting at `getMonday(start)`, none a weekend, containing start iff start is not a weekend |
| ClientUtils.IsWeekendSpec | frontend/src/lib/utils.js:84-88 | `ClientUtils.IsWeekend` models `isWeekend`; `isWeekend` holds exactly on Saturday and Sunday |
| TimeGrid.GenerateTimeSlots | frontend/src/lib/utils.js:102-114 | the nested push loops compute the slot list |
| TimeGrid.HourLoop | frontend/src/lib/utils.js:105-112 | the inner loop computes one hour's slots, only ":00" for the last hour |
| TimeGrid.SlotsAscending | frontend/src/lib/utils.js:102-114 | slot minutes strictly increase and stay within [startHour·60, endHour·60] |
| TimeGrid.SlotsMember | frontend/src/lib/utils.js:102-114 | `TimeGrid.TimeSlots` is the list the loops are proved to build; a minute value appears iff it lies within the bounds and its minutes past the hour are a multiple of the interval |
| TimeGrid.SlotsCount | frontend/src/lib/utils.js:102-114 | there are (endHour − startHour)·(⌊59/interval⌋+1)+1 slots; the first is startHour:00 and the last is endHour:00 |
| TimeGrid.SlotsLabelled | frontend/src/lib/utils.js:102-114 | each slot's `time` is `minutesToTime` of its `minutes` and reads back to them |
| TimeGrid.DefaultSlots | frontend/src/lib/utils.js:102 | the defaults give 31 slots, from 05:00 (300) to 20:00 (1200) |
| AssignmentEditor.GenerateTimeOptions | frontend/src/pages/AssignmentsPage.js:23-32 | the nested push loops compute that list |
| AssignmentEditor.HourOptions | frontend/src/pages/AssignmentsPage.js:25-29 | one hour adds its 12 options, keeping the list correct so far |
| AssignmentEditor.TimeOptionsSpec | frontend/src/pages/AssignmentsPage.js:23-32 | `AssignmentEditor.TimeOptions` is the 192-entry list the loops are proved to build; option k is the zero-padded time of 300+5k minutes and reads back as such, so the list strictly ascends in 5-minute steps |
| AssignmentEditor.TimeOptionsEnds | frontend/src/pages/AssignmentsPage.js:23-32 | the list runs from "05:00" to "20:55" |
| AssignmentEditor.CalculateShiftDuration | frontend/src/pages/AssignmentsPage.js:150-158 | the loop computes the shift's total over its blocks |
| AssignmentEditor.JsTotalNaN | frontend/src/pages/AssignmentsPage.js:150-158 | `AssignmentEditor.JsShiftTotal` is the sum the loop is proved against, with NaN propagated by `AssignmentEditor.JsPlus`; the total is NaN exactly when one block's value is |
| AssignmentEditor.AddShiftSpec | frontend/src/pages/AssignmentsPage.js:77-84 | `AssignmentEditor.AddShift` models `addShift`; exactly one shift is appended, with the given name and no blocks; earlier shifts and every other field are unchanged |
| AssignmentEditor.RemoveShiftSpec | frontend/src/pages/AssignmentsPage.js:86-91 | `AssignmentEditor.RemoveShift` models `removeShift`; exactly the shifts with that id are removed, every copy of every other shift stays, in order, and an absent id changes nothing |
| AssignmentEditor.RemoveShiftUndoesAdd | frontend/src/pages/AssignmentsPage.js:77-91 | removing a freshly added shift restores the form |
| AssignmentEditor.AddBlockSpec | frontend/src/pages/AssignmentsPage.js:93-112 | `AssignmentEditor.AddBlock` models `addBlock`; only the matching shift gains the default block, which adds 60 minutes to its duration; other shifts are unchanged |
| AssignmentEditor.DefaultBlockMinutes | frontend/src/pages/AssignmentsPage.js:94-103 | the default block (07:00–08:00, HLP 0/0) lasts 60 minutes, in the browser and in the backend |
| AssignmentEditor.UpdateBlockSpec | frontend/src/pages/AssignmentsPage.js:114-128 | `AssignmentEditor.UpdateBlock` models `updateBlock`; only the blocks with the matching id inside the matching shift change, and they take the updated fields |
| AssignmentEditor.ApplyUpdateIdempotent | frontend/src/pages/AssignmentsPage.js:119-122 | applying the same update twice is applying it once, and an empty update changes nothing |
| AssignmentEditor.UpdateBlockIdempotent | frontend/src/pages/AssignmentsPage.js:114-128 | updating a block twice with the same fields equals updating it once |
| AssignmentEditor.RemoveBlockSpec | frontend/src/pages/AssignmentsPage.js:130-139 | `AssignmentEditor.RemoveBlock` models `removeBlock`; only the matching shift loses exactly the blocks with that id, every copy of every other block stays, in order, and an absent id changes nothing |
| AssignmentEditor.RemoveBlockUndoesAdd | frontend/src/pages/AssignmentsPage.js:93-139 | removing a freshly added block restores the form |
| AssignmentEditor.FilteredAssignmentsSpec | frontend/src/pages/AssignmentsPage.js:48-51 | `AssignmentEditor.FilteredAssignments` (with the test `AssignmentEditor.Matches`) models `filteredAssignments`; the filter keeps exactly the matching assignments, every copy of each, as a subsequence; the empty search keeps all of them; case is ignored |
| AssignmentEditor.CheckSubmitSpec | frontend/src/pages/AssignmentsPage.js:160-165 | `AssignmentEditor.CheckSubmit` models the check; submission stops exactly when the circuit number is empty or all whitespace |
| Agreement.NumberAgrees | frontend/src/lib/utils.js:9-13 | wherever Python `int()` accepts a field, JavaScript `Number()` reads the same integer |
| Agreement.TimeAgrees | backend/server.py:167-170 | wherever the backend parses a time, the browser parses it to the same minutes |
| Agreement.EmptyTimeDiffers | frontend/src/lib/utils.js:9-13 | the empty string is an error in the backend but 0 in the browser |
| Agreement.BlockAgrees | frontend/src/pages/AssignmentsPage.js:150-158 | a block the backend can count lasts the same in the browser |
| Agreement.ShiftDurationAgrees | frontend/src/pages/AssignmentsPage.js:150-158 | a shift the backend can count has the same duration in the browser |
| Agreement.BlocksAgree | frontend/src/pages/AssignmentsPage.js:150-158 | wherever the backend can total a list of blocks, the browser's total is the same number |
| Agreement.FormatAgrees | frontend/src/lib/utils.js:15-25 | for m ≥ 0, the browser and the backend format durations identically |
| Agreement.NegativeFormatDiffers | frontend/src/lib/utils.js:15-19 | at −30 they differ: the backend floors (and still round-trips), the browser truncates |
| Agreement.WeekDatesAgree | frontend/src/lib/utils.js:47-82 | the backend's default week equals the browser's `getWeekDates(today)` |
| Agreement.WeekendAgrees | frontend/src/lib/utils.js:84-88 | `isWeekend` agrees between browser and backend |
| Text.Pad2Parses | backend/server.py:172-176 | a two-digit padded integer parses back to itself, negatives included |
| Text.TrimSpec | frontend/src/pages/AssignmentsPage.js:162 | `trim()` removes exactly the leading and trailing whitespace |
| Text.SplitJoin | backend/server.py:169 | joining the pieces of `split` with the separator gives back the string |
| Lists.FilterMember | frontend/src/pages/AssignmentsPage.js:48-51 | a list comprehension or `filter` keeps exactly the elements that satisfy the test |
| Lists.FilterCount | frontend/src/pages/AssignmentsPage.js:48-51 | a filter keeps every copy of each element that passes the test and none of the others |
| Lists.FilterIsSubsequence | frontend/src/pages/AssignmentsPage.js:48-51 | and keeps them in order |

## Left out

- The Mongo reads, the `to_list` caps (200, 500, 100), FastAPI routing, the CRUD endpoints, `init-data` and login are storage and transport. Each route takes its collections as in-memory sequences instead.
- The PDF built with reportlab, including the title, the table style and the header labels `d[5:]`, is rendering by a foreign library. Only the date range and the row cells are modelled.
- Date strings, `strptime`/`strftime` and JavaScript `Date` are not modelled. Dates are day ordinals.
- `datetime.now()` is a clock. It is the parameter `today`.
- New uuids are the parameter `newId`.
- `get_schedule`'s unused `date` parameter is omitted.
- Lexicographic comparison of `YYYY-MM-DD` strings is assumed to agree with day order. Malformed or unpadded dates are not modelled.
- Python `int()` is modelled on ASCII whitespace, an optional sign and decimal digits. Underscores and non-ASCII digits are not accepted. The separators U+001C to U+001F, which Python skips as whitespace, are rejected.
- JavaScript numbers are modelled as unbounded integers (`Num(int)`) or `NaN`. IEEE-754 double rounding, which starts beyond 2^53, is not modelled.
- JavaScript `Number()` is modelled on trimmed empty text (0) and signed decimal digits. Decimals, hexadecimal, exponents and `Infinity` become `NaN`. The JavaScript whitespace set is reduced to ASCII whitespace.
- `toLowerCase` is modelled on ASCII letters only. Unicode case folding is not modelled.
- Missing required keys are not modelled:
  - `KeyError` on `block['start_time']` and similar lookups;
  - a missing `blocks` or `shifts` list, which every record in the model has;
  - an undefined `timeStr` in the browser.

  Missing HLP buffers are modelled, as `None` meaning 0.
- `TimeGrid.GenerateTimeSlots` requires a positive interval. With 0 or a negative interval the source's inner loop never ends.
- `AssignmentEditor.CalculateShiftDuration` models `(hlp || 0)` on numbers, not on text. A buffer is a number or missing, as the form stores it.
- ConflictsExactly: states which entries the list holds, not how often an entry appears when two identical blocks or tasks produce the same entry.
- `getContrastColor`, `calculateBlockPosition` and the dashboard's pixel arithmetic are floating-point rendering.
- React state, dialogs, toasts, `localStorage` and the axios calls are UI and I/O glue. `handleSubmit` is modelled up to its circuit-number check.
- The intended design describes interval merging, reassignment overlays, admin shifts, `shift_types` on absences, `is_adapted` and `is_inactive`. The code implements none of these, so they are not modelled.
- In the schedule and the report, a `continue` on a holiday or an absent day is modelled by a per-day function whose value is 0 on such days. The day's minutes are not computed there, so a malformed record cannot fail on those days, exactly as in the source.
