# ShiftLog time clock — a Dafny model of its core

ShiftLog is a browser time clock. Employees clock in and out, take paid or
unpaid breaks, see a live "Today's Hours" figure, browse a weekly or daily
timesheet with overtime and estimated pay, and look at upcoming shifts.
This project models the part of it that computes anything:

- the three in-memory services (time entries, shifts, employees). Each call
  is a pure step from the old array to the new array and the returned record.
  A missing id is an `Err` carrying the service's message;
- the clock screen: loading the active entry, the "on break" flag, the clock
  button's guard and its clock-in/clock-out choice, the break handlers, the
  live worked-time figure and the "Breaks Today" card;
- the timesheet: the day filter, total hours, overtime above 40 hours, the
  pay estimate, the day-view status card, and the cells of one row;
- the shift card's `"HH:MM"` duration text and status badge, the break
  timer's text, and the calendar's next-three-shifts and shift-of-the-day
  lookups.

Units:

- Instants are integer milliseconds.
- Stored hour figures (`totalHours`, a break's `duration`) are integer
  hundredths of an hour, standing for what `Math.round(h * 100) / 100` keeps.
  `Duration.RoundCentiHours` rounds exact milliseconds to the nearest
  hundredth, halves going up. Where JavaScript's floating point can land
  one hundredth lower is listed under "## Left out".
- Money is ten-thousandths of a dollar, so pay needs no rounding.
- A property the code reads with `|| 0`, or that can be absent, is an `Option`.
- JavaScript's truncating `%` is written out as `Duration.JsRem`.

The model follows the code as written, including where it does not guard its transitions:

- `clockOut` stores the elapsed time since clock-in *without* subtracting
  breaks. It does not refuse an entry that is already completed, and it
  does not refuse an entry with an open break.
- `startBreak` does not refuse a second open break
  (`TimeEntries.StartBreakWhileOnBreak`).
- `endBreak` with no open break returns the entry unchanged and raises no error.
- The only error any service raises is the "not found" one.

`ClockSection.ClockOutIgnoresBreaks` and
`ClockSection.EightHourDayWithHalfHourBreak` show the first point: a 9–5 day
with a half-hour break shows 7.5 hours live but is stored as 8.00.

Module layout:

| file | contents |
|---|---|
| `wrappers.dfy` | `Option`, `Result` |
| `seqs.dfy` | `find`, `findIndex`, `filter`, stable `sort`, `slice` |
| `store.dfy` | the find-by-id / overwrite / splice shape shared by the services |
| `text.dfy` | decimal digits, `split`, `Number()` on a digit run |
| `duration.dfy` | time units, hundredths-of-an-hour rounding, JavaScript remainder |
| `time_entries.dfy`, `shifts.dfy`, `employees.dfy` | the services |
| `clock_section.dfy`, `break_controls.dfy` | the clock screen |
| `timesheet.dfy`, `timesheet_row.dfy` | the timesheet |
| `shift_card.dfy`, `shift_calendar.dfy` | the schedule |

## Model

| member | source | states |
|---|---|---|
| TimeEntries.GetById | src/services/api/timeEntryService.js:13-17 | None exactly when no entry has the id; otherwise the first entry with that id |
| TimeEntries.Create | src/services/api/timeEntryService.js:19-29 | exactly one record is appended and the old ones are untouched; it carries the draft's fields, the new id, `totalHours` 0 and status 'active' |
| TimeEntries.Merge | src/services/api/timeEntryService.js:36 | every supplied field takes the patch's value; every other field keeps the entry's |
| TimeEntries.MergeLaws | src/services/api/timeEntryService.js:36 | merging an empty patch is the identity; merging the same patch twice equals merging it once |
| TimeEntries.Update | src/services/api/timeEntryService.js:31-38 | fails with "Time entry not found" iff the id is absent; otherwise only the first matching record is replaced, by its merge with the patch |
| TimeEntries.Delete | src/services/api/timeEntryService.js:40-47 | fails iff the id is absent; otherwise exactly the first matching record is spliced out (length − 1, the rest in order) |
| TimeEntries.GetCurrentActive | src/services/api/timeEntryService.js:49-53 | None iff no entry is 'active'; otherwise the first active entry in store order |
| TimeEntries.CloseOut | src/services/api/timeEntryService.js:60-69 | status 'completed', clock-out `now`, `totalHours` within half a hundredth of an hour of `now − clockIn`; breaks, id, employee and clock-in kept |
| TimeEntries.ClockOut | src/services/api/timeEntryService.js:55-72 | fails iff the id is absent; otherwise only the first matching record is replaced by its closed-out form, whatever its previous status |
| TimeEntries.NewBreak | src/services/api/timeEntryService.js:74-84 | the new break is open, starts at `now`, has duration 0 and type 'unpaid' unless a type is given |
| TimeEntries.StartBreak | src/services/api/timeEntryService.js:74-88 | fails iff the id is absent; otherwise the record `getById` finds gains exactly one open break at the end, is returned, and nothing else changes |
| TimeEntries.Close | src/services/api/timeEntryService.js:99-104 | a closed break ends at `now` with duration within half a hundredth of an hour of its length; start and type kept |
| TimeEntries.CloseFirstOpen | src/services/api/timeEntryService.js:95-107 | with no open break the entry is unchanged; otherwise exactly the first open break is closed and every other break is unchanged |
| TimeEntries.EndBreak | src/services/api/timeEntryService.js:90-108 | fails iff the id is absent, never because no break is open; otherwise only the record `getById` finds changes, by closing its first open break, and that is what is returned |
| TimeEntries.StartBreakOpensLast | src/services/api/timeEntryService.js:79-86 | starting a break when none is open leaves exactly one open break, the last |
| TimeEntries.StartBreakWhileOnBreak | src/services/api/timeEntryService.js:74-88 | starting a break while one is open is not refused and leaves two open breaks |
| TimeEntries.EndBreakClosesAll | src/services/api/timeEntryService.js:95-105 | when the open break is the last one, ending it leaves no open break and keeps the closed ones |
| TimeEntries.StartThenEndSameInstant | src/services/api/timeEntryService.js:74-108 | starting then ending a break at the same instant adds one closed break of duration 0 and changes nothing else |
| TimeEntries.CloseJustStarted | src/services/api/timeEntryService.js:95-105 | the entry-level half of the previous row: the just-started break is the first open one and closes with duration 0 |
| TimeEntries.TotalBreakCenti | src/components/molecules/TimesheetRow.jsx:14-16 | the break total is 0 for no breaks and a lone break's duration (0 when absent) for one; it is non-negative when every duration is |
| TimeEntries.TotalBreakCentiAppend | src/components/molecules/TimesheetRow.jsx:14-16 | one more break adds exactly its duration, or 0 when it has none |
| ClockSection.LoadCurrentEntry | src/components/organisms/ClockSection.jsx:40-59 | shows the first active entry; `onBreak` iff it has an open break; the break timer measures from the first open break's start; with no active entry the flags stay, and whenever it is not on break the timer keeps its value |
| ClockSection.BreakMsAt | src/components/organisms/ClockSection.jsx:141-150 | the subtracted break time is a number (not NaN) iff every closed break carries a duration |
| ClockSection.BreakMsAtAppend | src/components/organisms/ClockSection.jsx:141-150 | the breaks are added first to last: one more break adds its own share (its stored duration when closed, `now` − its start when open, so every open break counts), and a NaN share makes the total NaN |
| ClockSection.BreakMsLastOpen | src/components/organisms/ClockSection.jsx:141-150 | after closed, timed breaks, an open break adds the time since it began (`now` − its start) to the recorded break total |
| ClockSection.StartBreakKeepsLiveFigure | src/components/organisms/ClockSection.jsx:136-152 | appending the break `startBreak` opens at `now` leaves the live figure at `now` unchanged |
| ClockSection.TodayWorkedMs | src/components/organisms/ClockSection.jsx:128-153 | 0 without an entry; the stored total for a completed entry; for an active one, never negative and equal to elapsed minus break time or 0 |
| ClockSection.BreakMsAdvance | src/components/organisms/ClockSection.jsx:141-150 | between two instants the break time grows by the elapsed time once per open break; closed breaks are fixed |
| ClockSection.ClosedBreakMs | src/components/organisms/ClockSection.jsx:141-144 | with only closed, timed breaks the subtracted time is the recorded break total |
| ClockSection.WorkingCounterAdvances | src/components/organisms/ClockSection.jsx:136-152 | while working (no open break) the live figure never decreases |
| ClockSection.OnBreakCounterFrozen | src/components/organisms/ClockSection.jsx:136-152 | while exactly one break is open the live figure stands still |
| ClockSection.NoOpenCountsZero | src/components/organisms/ClockSection.jsx:141-150 | no open break means no break grows with time |
| ClockSection.ClockOutIgnoresBreaks | src/services/api/timeEntryService.js:60-67 | the stored total is, within rounding, the live figure plus the recorded break time: clock-out does not subtract breaks |
| ClockSection.EightHourDayWithHalfHourBreak | src/components/organisms/ClockSection.jsx:128-153 | 9:00 to 17:00 with a 30-minute break shows 7.5 h live but stores 8.00 h |
| ClockSection.HandleClockAction | src/components/organisms/ClockSection.jsx:61-90 | on break nothing is called and nothing changes; with an entry it is clocked out and the screen cleared; without, an entry for employee 1 clocked in at `now` with no breaks is created and shown; a failure changes nothing; `onBreak` and the break timer are never touched |
| ClockSection.HandleStartBreak | src/components/organisms/ClockSection.jsx:92-108 | with no entry, or one no longer stored, nothing happens; otherwise the screen shows the stored entry with one open break of the chosen kind appended, on break, timer 0, and the store changes only at that entry |
| ClockSection.HandleEndBreak | src/components/organisms/ClockSection.jsx:110-126 | with no entry, or one no longer stored, nothing happens; otherwise the screen shows the stored entry with its first open break closed at `now`, not on break, timer 0, and the store changes only at that entry |
| ClockSection.BreaksToday | src/components/organisms/ClockSection.jsx:202-208 | the count is the entry's number of breaks (0 without an entry); a total appears iff there is at least one break and equals the recorded break total |
| ClockSection.LoadAgrees | src/components/organisms/ClockSection.jsx:40-59 | loading establishes agreement: the shown entry is the stored one and `onBreak` holds iff it has an open break |
| ClockSection.ClockActionAgrees | src/components/organisms/ClockSection.jsx:61-90 | the clock button preserves that agreement and unique ids, given a fresh id |
| ClockSection.StartBreakAgrees | src/components/organisms/ClockSection.jsx:92-108 | starting a break from the not-on-break view preserves the agreement |
| ClockSection.EndBreakAgrees | src/components/organisms/ClockSection.jsx:110-126 | ending a break preserves the agreement and leaves no open break |
| BreakControls.FormatDuration | src/components/molecules/BreakControls.jsx:12-21 | from one full hour on "{h}h {m}m" of whole minutes; below an hour "{m}m" |
| BreakControls.FormatDurationParts | src/components/molecules/BreakControls.jsx:13-17 | hours and minutes add back to the whole minutes, minutes lie in 0..59, and the hours part is positive iff a full hour has passed |
| BreakControls.OneHourOnTheDot | src/components/molecules/BreakControls.jsx:17-18 | exactly one hour reads "1h 0m" |
| BreakControls.Controls | src/components/molecules/BreakControls.jsx:23-80 | on break only 'Resume Work' is offered; otherwise exactly a paid and an unpaid break can be started |
| BreakControls.OfferedControlsKeepAgreement | src/components/molecules/BreakControls.jsx:23-80 | pressing any offered control keeps the screen in agreement with the store |
| Timesheet.TotalHours | src/components/organisms/TimesheetTable.jsx:31-33 | 0 for no entries, a lone entry's `totalHours` (0 when absent) for one, and non-negative when every total is |
| Timesheet.TotalHoursAppend | src/components/organisms/TimesheetTable.jsx:31-33 | the total of two runs of entries is the sum of their totals |
| Timesheet.OvertimeHours | src/components/organisms/TimesheetTable.jsx:35-37 | never negative; 0 iff the total is at most the threshold; otherwise exactly the excess; at most the total |
| Timesheet.PayRules | src/components/organisms/TimesheetTable.jsx:100 | up to 40 hours the pay is $18.50 per hour; above, the excess earns 1.5×; more hours never pay less |
| Timesheet.WeekOf4225 | src/components/organisms/TimesheetTable.jsx:35-41 | 42.25 hours is 2.25 hours of overtime and $802.4375 |
| Timesheet.TodayEntries | src/components/organisms/TimesheetTable.jsx:13-17 | keeps exactly the entries clocked in on today's UTC date, with their multiplicity and in their original order |
| Timesheet.AnyActive | src/components/organisms/TimesheetTable.jsx:122 | true iff some shown entry is 'active' |
| Timesheet.Summarize | src/components/organisms/TimesheetTable.jsx:39-41 | day view: today's entries, overtime 0, a status card and no pay card; week view: the week's entries, overtime above 40 hours and the pay |
| TimesheetRow.Render | src/components/molecules/TimesheetRow.jsx:25-62 | missing clock-out shows '--'; the breaks cell is absent iff there are no breaks, else the count and total; the noun is "break" for exactly one and "breaks" otherwise; a missing or zero total shows the placeholder; Active iff status is 'active' |
| TimesheetRow.RowThroughLifecycle | src/components/molecules/TimesheetRow.jsx:5-23 | a just-created entry shows '--', Active and the 0.0 placeholder; once closed out it shows its clock-out time and Complete |
| ShiftCard.ClockParts | src/components/molecules/ShiftCard.jsx:27-28 | text without ':' gives its `Number` as hours and NaN minutes |
| ShiftCard.ClockPartsOf | src/components/molecules/ShiftCard.jsx:27-28 | for "a:b", and for "a:b:c", with no colon in a or b, hours are `Number(a)` and minutes `Number(b)`; a third part is ignored |
| ShiftCard.ClockPartsRoundTrip | src/components/molecules/ShiftCard.jsx:27-28 | writing hours and minutes as "H:M" and parsing them back gives them |
| ShiftCard.DurationMinutes | src/components/molecules/ShiftCard.jsx:27-33 | a number iff all four parts parse |
| ShiftCard.DurationOfClockTimes | src/components/molecules/ShiftCard.jsx:27-33 | for well-formed times the duration is (end hours × 60 + end minutes) − (start hours × 60 + start minutes) |
| ShiftCard.DurationText | src/components/molecules/ShiftCard.jsx:26-38 | "NaNh" when a time does not parse; "{h}h" for whole hours; "{h}h {m}m" for other non-negative durations; negative durations print only floored hours |
| ShiftCard.OvernightShiftIsNegative | src/components/molecules/ShiftCard.jsx:33-37 | 22:00 to 06:00 reads "-16h" |
| ShiftCard.NineToHalfPastFive | src/components/molecules/ShiftCard.jsx:26-38 | the zero-padded times "09:00" to "17:30" read "8h 30m" |
| ShiftCard.PaddedClockParts | src/components/molecules/ShiftCard.jsx:27-28 | a zero-padded "HH:MM" parses to its two-digit hours and minutes, a leading zero included |
| ShiftCard.TwoDigits | src/components/molecules/ShiftCard.jsx:27 | `Number` of two decimal digits is their value, a leading zero included |
| ShiftCard.EightAndAHalfHours | src/components/molecules/ShiftCard.jsx:33-37 | a duration of 510 minutes prints "8h 30m" |
| ShiftCard.StatusBadge | src/components/molecules/ShiftCard.jsx:15-24 | 'completed' and 'missed' get their own badges; every other status falls back to scheduled |
| Shifts.GetById | src/services/api/shiftService.js:13-17 | None iff no shift has the id; otherwise the first shift with that id |
| Shifts.Create | src/services/api/shiftService.js:19-28 | exactly one record is appended and the old ones are untouched; it carries the draft's fields, the new id and status 'scheduled' |
| Shifts.Merge | src/services/api/shiftService.js:35 | supplied fields take the patch's value; the rest are kept |
| Shifts.Update | src/services/api/shiftService.js:30-37 | fails with "Shift not found" iff the id is absent; otherwise only the first matching shift is replaced by its merge |
| Shifts.Delete | src/services/api/shiftService.js:39-46 | fails iff the id is absent; otherwise exactly the first matching shift is spliced out |
| Shifts.GetUpcoming | src/services/api/shiftService.js:48-55 | exactly the shifts dated at or after `now`, each as often as stored, in ascending date order |
| ShiftCalendar.GetUpcomingShifts | src/components/organisms/ShiftCalendar.jsx:20-26 | at most three, all dated at or after `now` and drawn from the input, ascending, a prefix of the sorted qualifying shifts, and three unless fewer qualify |
| ShiftCalendar.UpcomingAreEarliest | src/components/organisms/ShiftCalendar.jsx:20-26 | a qualifying shift left off the list is no earlier than any shift on it |
| ShiftCalendar.GetShiftForDay | src/components/organisms/ShiftCalendar.jsx:16-18 | None iff no shift falls on that day; otherwise the first such shift in list order |
| Employees.GetById | src/services/api/employeeService.js:13-17 | None iff no employee has the id; otherwise the first employee with that id |
| Employees.GetCurrent | src/services/api/employeeService.js:19-23 | the first employee, None iff the store is empty |
| Employees.Create | src/services/api/employeeService.js:25-33 | exactly one record is appended, carrying the given properties and the new id; the old ones are untouched; properties without an "id" key leave the id only in `id` |
| Employees.Merge | src/services/api/employeeService.js:40 | the properties are the union; supplied ones win; the rest are kept; with no "id" key on either side the id stays only in `id` |
| Employees.Update | src/services/api/employeeService.js:35-42 | fails with "Employee not found" iff the id is absent; otherwise only the first matching record is replaced by its merge |
| Employees.Delete | src/services/api/employeeService.js:44-51 | fails iff the id is absent; otherwise exactly the first matching record is spliced out |
| Employees.CurrentUserRules | src/services/api/employeeService.js:19-33 | a created employee becomes the current user iff the store was empty (or already began with the same record); deleting the current user hands the role to the next record |
| Store.Modify | src/services/api/timeEntryService.js:31-38 | the shared update shape: fails iff the id is absent; otherwise the first record with the id, and only it, is replaced by `f` of itself, and `f` of what `getById` finds is returned |
| Store.Delete | src/services/api/timeEntryService.js:40-47 | the shared delete shape: fails iff the id is absent; otherwise removes the first record with the id |
| Store.DeleteRemovesId | src/services/api/timeEntryService.js:40-47 | with unique ids, deleting an id that is present succeeds and leaves no record with it |
| Store.AppendFresh | src/services/api/timeEntryService.js:19-29 | appending a record under a fresh id keeps ids unique, and `getById` then finds it |
| Store.ReplaceKeepsIds | src/services/api/timeEntryService.js:31-38 | overwriting a record without changing its id keeps ids unique and the set of ids, and `getById` then finds the new record |
| Store.GetByIdUnique | src/services/api/timeEntryService.js:13-17 | with unique ids `getById` of a record's id returns that record |
| Seqs.FindIndex | src/services/api/timeEntryService.js:33 | the first position satisfying the test, or none when no position does |
| Seqs.Filter | src/components/organisms/TimesheetTable.jsx:15-17 | keeps exactly the elements that pass, each as often as it occurs |
| Seqs.FilterKeepsOrder | src/components/organisms/TimesheetTable.jsx:15-17 | the kept elements are in their original order |
| Seqs.InsertSorted | src/services/api/shiftService.js:53 | inserting into a sorted sequence keeps it sorted |
| Seqs.SortBy | src/services/api/shiftService.js:53 | the result is sorted by the key and is a permutation of the input |
| Seqs.InsertKeyRun | src/services/api/shiftService.js:53 | inserting into a sorted sequence places the element after every element with the same key |
| Seqs.SortByStable | src/services/api/shiftService.js:53 | the sort is stable: the elements of each key come out in their input order |
| Seqs.FilterKeyRun | src/services/api/shiftService.js:52 | a filter that passes every element of a key keeps those elements, in order |
| Shifts.UpcomingKeepsStoreOrder | src/services/api/shiftService.js:48-55 | upcoming shifts on the same date come out in store order, so the calendar's first three are determined |
| Seqs.Take | src/components/organisms/ShiftCalendar.jsx:25 | a prefix of length min(n, length) |
| Duration.RoundCentiHours | src/services/api/timeEntryService.js:62-67 | the stored figure is within half a hundredth of an hour of the elapsed time |
| Duration.RoundCentiHoursExact | src/services/api/timeEntryService.js:62-67 | rounding is exact on whole hundredths of an hour |
| Duration.RoundCentiHoursMonotone | src/services/api/timeEntryService.js:62-67 | more elapsed time never stores a smaller figure |
| Duration.JsTrunc | src/components/molecules/ShiftCard.jsx:35 | the quotient rounded toward zero: it has the dividend's sign, and quotient × divisor is within one divisor of the dividend, on the zero side |
| Duration.JsRem | src/components/molecules/ShiftCard.jsx:35 | the remainder takes the dividend's sign, is smaller than the divisor in magnitude, and differs from the dividend by the truncated quotient times the divisor |
| Duration.HoursMinutes | src/components/molecules/ShiftCard.jsx:34-35 | hours are the floor; for non-negative minutes hours × 60 + minutes is the input and minutes lie in 0..59; for negative input minutes lie in −59..0 |
| Text.ParseShowNat | src/components/molecules/ShiftCard.jsx:27 | `Number` of a printed natural number gives it back |
| Text.JoinSplit | src/components/molecules/ShiftCard.jsx:27 | joining the parts of a split with the separator gives back the string |
| Text.Split | src/components/molecules/ShiftCard.jsx:27 | there is at least one part, and no part contains the separator |

## Left out

- The artificial `delay` promises and async/await: each service call is one synchronous step.
- Concurrent handler calls and the `loading` flag that disables the buttons are not modelled.
- The wall clock: every `new Date()` is a parameter `now` in integer milliseconds.
- The 1-second `setInterval` that refreshes the break timer (ClockSection.jsx:17-33) is left out.
  `ClockSection.LoadCurrentEntry` sets the timer once, and the handlers reset it to 0.
- Ids from `Date.now().toString()` are a parameter. Freshness is a precondition where uniqueness matters (`ClockSection.ClockActionAgrees`, `Store.AppendFresh`).
- Floating-point hours, `toFixed` display rounding and the `toFixed(0)` on pay are not modelled.
  Stored figures are exact hundredths of an hour.
  `ClockSection.TodayWorkedMs` stays in exact milliseconds.
- Toasts, React rendering, animation and the status cards' colours and icons are left out. ClockButton, StatusCard, the atoms, pages, routes and Layout are not part of this model.
- Local-calendar date handling is left out.
  - The week filter (TimesheetTable.jsx:20-28) is the parameter `inWeek` of `Timesheet.Summarize`.
  - `isSameDay` is the parameter `dayOf` of `ShiftCalendar.GetShiftForDay`.
  - The day filter uses the UTC day, as `toISOString` does.
- date-fns formatting is left out: the row's time text is the parameter `format`, and the date column, the shift card's `formatTime` and the month grid are not modelled.
- ExportModal.jsx is not part of this model; it is download plumbing.
- The seed data in the mock JSON files is not part of this model.
- TimeEntries.GetAll, Shifts.GetAll, Employees.GetAll: return the array unchanged and carry no contract. The copy `[...data]` only matters for aliasing, which is not modelled.
- Aliasing of the shallow copies the services return is not modelled. `startBreak` and `endBreak` mutate the stored breaks array in place, and the screen's copy shares it; the model returns the updated record instead.
- Text.JsNumber: models `Number()` only on the empty string (0) and runs of decimal digits. Whitespace, signs, decimals and exponents give NaN here, where JavaScript may give a number.
- Duration.RoundCentiHours: rounds exact milliseconds. JavaScript divides in double precision before `Math.round(h * 100)`, so at an elapsed time of exactly k·36 000 + 18 000 ms (a half hundredth) the stored figure can be one hundredth lower than here. For example, 3 618 000 ms is 1.005 h, whose double is just below 1.005, so JavaScript keeps 1.00 where the model keeps 101 hundredths.
- ShiftCard.StatusBadge: compares with the two status names. A status such as 'toString', which JavaScript would find on the object's prototype, is not modelled.
