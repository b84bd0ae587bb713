# Schedule builder core, modelled in Dafny

`my-scheduler` is a React calendar. One component, `ScheduleBuilder`, shows a
month, week or day view of the user's events and lets the user create, edit
and delete them. Under the rendering code there is a small calendar engine
and an event-collection editor. This project models that engine and editor
and proves their properties:

- the half-hour time-slot labels (`getTimeSlots`);
- the month grid with its leading blanks (`getDaysInMonth`);
- the Sunday-to-Saturday week columns (`getWeekDays`);
- the per-date event list, sorted by start time (`getEventsForDate`);
- the grid position of an event (`calculateEventPosition`), as called with the hourly slots;
- the navigator's step (`navigate`) and its title (`getNavigationTitle`);
- the 12-hour time display (`formatTime`);
- the checks and collection updates of `saveEvent` and `deleteEvent`.

Dates are values `Ymd(year, month, day)`. As in JavaScript's `getMonth`, the
month runs from 0 to 11. The subset type `Date` admits only real calendar
dates under Gregorian leap-year rules. `DayNumber` counts days from
1970-01-01, which was a Thursday; `DayOfWeek` is derived from that count,
with 0 for Sunday. JavaScript's `setDate` and `setMonth` are modelled by
`MakeDate(y, m, d)`. It takes the first day of month `m` (the year absorbs
whole multiples of 12) and moves `d - 1` days from there, as the abstract
operation MakeDay of the ECMAScript Language Specification does. The
constructor `new Date(y, m, d)` is `NewDate(y, m, d)`: it first reads a year
from 0 to 99 as 1900 + year (`FullYear`, the abstract operation
MakeFullYear), then does what `MakeDate` does. So for an anchor in a year
from 0 to 99, `getDaysInMonth` builds the grid of the same month in
1900 + year (`Calendar.TwoDigitYear`). `StrLess` compares strings character by character, which agrees with JavaScript's code-unit order outside surrogate pairs.

The modules follow the component's parts:

- `Strings`, `Seqs`, `Wrappers`: decimal rendering, padding, `parseInt`, string order, `filter`, `null`.
- `Calendar`: dates, leap years, weekdays, day arithmetic, `formatDate`.
- `TimeSlots`: `getTimeSlots`, `formatTime`.
- `Events`, `EventIndex`: event records, `getEventsForDate`.
- `Layout`: `calculateEventPosition` and the hourly slot list it is given.
- `DateRange`: `getDaysInMonth`, `getWeekDays`.
- `Navigation`: `navigate`, `getNavigationTitle`.
- `EventStore`: validation, create, edit and delete, and the class `ScheduleBuilder` that holds the component's state.

Three behaviours of the code are worth stating outright:

- An event from 09:00 to 10:30 is positioned at start 18 with duration 4
  (`Layout.NineToTenThirty`). The code looks the times up among the hourly
  labels, rounds the end up to 11:00 and doubles both numbers.
- The day-view title is "Month D, YYYY", with no weekday name.
- The week-view title separates the two dates with an ASCII hyphen, not an en dash.

## Model

| member | source | states |
|---|---|---|
| TimeSlots.GetTimeSlots | my-scheduler/src/ScheduleBuilder.jsx:96-105 | exactly 48 labels; label i is hour i/2 and minute 30*(i%2), each zero-padded to two digits, as "HH:MM" |
| TimeSlots.SlotsStrictlyIncreasing | my-scheduler/src/ScheduleBuilder.jsx:96-105 | the 48 labels are strictly increasing in JavaScript string order |
| TimeSlots.HhmmOrder | my-scheduler/src/ScheduleBuilder.jsx:100 | for two-digit values, comparing two "HH:MM" strings is comparing (hour, minute) lexicographically |
| TimeSlots.TimeOrderIsMinuteOrder | my-scheduler/src/ScheduleBuilder.jsx:184 | for clock times, one "HH:MM" string is below another exactly when its minute of the day is smaller |
| Strings.Pad2Digits | my-scheduler/src/ScheduleBuilder.jsx:100 | `padStart(2, '0')` of a number below 100 is its tens digit followed by its units digit |
| TimeSlots.FormatTime | my-scheduler/src/ScheduleBuilder.jsx:44-50 | the display of any string ends in " AM" or " PM", and in " PM" exactly when the text before the first ':' reads by `parseInt` as a number of at least 12 |
| TimeSlots.FormatTimeOfHhmm | my-scheduler/src/ScheduleBuilder.jsx:44-50 | for "HH:MM", the display is hour mod 12 (12 for 0 and 12), the minutes as given, then AM below 12 and PM from 12 |
| TimeSlots.TwelveHourClock | my-scheduler/src/ScheduleBuilder.jsx:47-48 | `hour % 12 \|\| 12` is in 1..12 and, with the AM/PM flag, determines the hour |
| TimeSlots.FormatTimeRoundTrip | my-scheduler/src/ScheduleBuilder.jsx:44-50 | the 12-hour display loses nothing: reading "h:MM AM/PM" back gives the original hour and minute |
| TimeSlots.ParseClock12 | my-scheduler/src/ScheduleBuilder.jsx:47-49 | the display hour and the AM/PM suffix together determine the 24-hour hour and the minute |
| Calendar.DaysInMonth | my-scheduler/src/ScheduleBuilder.jsx:65-66 | every month has 28 to 31 days |
| Calendar.MonthLengths | my-scheduler/src/ScheduleBuilder.jsx:65-66 | February has 29 days exactly in leap years; the twelve months add up to the year's length |
| Calendar.DayOfWeek | my-scheduler/src/ScheduleBuilder.jsx:67 | `getDay()` is in 0..6 |
| Calendar.DayOfWeekAddDays | my-scheduler/src/ScheduleBuilder.jsx:84 | moving k days moves the weekday by k modulo 7 |
| Calendar.AddDaysNumber | my-scheduler/src/ScheduleBuilder.jsx:89 | moving k days changes the day count by exactly k |
| Calendar.AddDaysInverse | my-scheduler/src/ScheduleBuilder.jsx:217-219 | moving k days and then -k days returns to the date |
| Calendar.MakeDate | my-scheduler/src/ScheduleBuilder.jsx:215 | MakeDay as `setDate`/`setMonth` apply it: the first of month `m` (year carried by floor division) moved by `d - 1` days; its meaning is given by the lemmas below |
| Calendar.NewDate | my-scheduler/src/ScheduleBuilder.jsx:64-74 | the date constructor: MakeFullYear (years 0..99 become 1900 + year) followed by MakeDate |
| Calendar.NewDateInRange | my-scheduler/src/ScheduleBuilder.jsx:74 | `new Date(y, m, d)` for a day that exists in month `m` of FullYear(y) is exactly that date, in year FullYear(y) |
| Calendar.NewDateDayZero | my-scheduler/src/ScheduleBuilder.jsx:65 | `new Date(y, m + 1, 0)` is the last day of month `m` of FullYear(y), so its day is that month's length |
| Calendar.TwoDigitYear | my-scheduler/src/ScheduleBuilder.jsx:64-74 | in year 0 the constructor gives 1 February 1900 (a Thursday, 28-day month) where MakeDay gives 1 February of year 0 (a Tuesday, 29-day month) |
| Calendar.MakeDateInRange | my-scheduler/src/ScheduleBuilder.jsx:215 | MakeDay of a day that exists in the month is that date: `setMonth` into a month long enough for the day keeps it |
| Calendar.SetDateShift | my-scheduler/src/ScheduleBuilder.jsx:84 | `setDate(getDate() + k)` is the date k days later, across month and year ends |
| Calendar.MakeDateOverflow | my-scheduler/src/ScheduleBuilder.jsx:215 | a day beyond the month's end spills into the next month (January of the next year after December) |
| Calendar.MakeDateMonthCarry | my-scheduler/src/ScheduleBuilder.jsx:215 | a month index outside 0..11 carries into the year by floor division |
| Calendar.FormatDate | my-scheduler/src/ScheduleBuilder.jsx:39-41 | the rendering is the year, '-', two digits, '-', two digits; for years 0..9999 it is ten characters with digits at the year, month and day positions |
| Calendar.ParseFormatDate | my-scheduler/src/ScheduleBuilder.jsx:39-41 | the "YYYY-MM-DD" rendering can be read back to the same date |
| Calendar.FormatDateInjective | my-scheduler/src/ScheduleBuilder.jsx:39-41 | different dates render as different strings |
| EventIndex.SortByStart | my-scheduler/src/ScheduleBuilder.jsx:57 | insertion sort by `startTime` under `StrLess`; that it sorts, permutes and is stable is in the three lemmas below |
| EventIndex.GetEventsForDate | my-scheduler/src/ScheduleBuilder.jsx:53-58 | the list for a date is never longer than the collection; its exact contents and order are in `EventIndex.GetEventsForDateSpec` |
| EventIndex.InsertByStartSorted | my-scheduler/src/ScheduleBuilder.jsx:57 | inserting into a list sorted by start time keeps it sorted and adds exactly that event |
| EventIndex.SortByStartSorted | my-scheduler/src/ScheduleBuilder.jsx:57 | the sort by `startTime` yields a non-decreasing list that is a permutation of its input |
| EventIndex.InsertByStartStable | my-scheduler/src/ScheduleBuilder.jsx:57 | an insertion keeps events with equal start times in their relative order |
| EventIndex.SortByStartStable | my-scheduler/src/ScheduleBuilder.jsx:57 | the sort is stable: events with the same start time keep their original relative order |
| EventIndex.GetEventsForDateSpec | my-scheduler/src/ScheduleBuilder.jsx:53-58 | sorted by start time; holds exactly the events whose date string is the date's, each as often as in the collection; ties keep collection order |
| EventIndex.GetEventsForNull | my-scheduler/src/ScheduleBuilder.jsx:54 | a null date yields the empty list |
| EventIndex.GetEventsForDateDisjoint | my-scheduler/src/ScheduleBuilder.jsx:53-58 | two different dates never list the same event |
| Layout.FindIndexAtLeast | my-scheduler/src/ScheduleBuilder.jsx:316-317 | `findIndex(slot => slot >= t)`: -1 when every slot is below t, otherwise the first slot not below t |
| Layout.FindIndexAtLeastIs | my-scheduler/src/ScheduleBuilder.jsx:316-317 | the first index not below t, or -1 when there is none, is what the lookup returns |
| Layout.CalculateEventPosition | my-scheduler/src/ScheduleBuilder.jsx:315-324 | start and duration are both even, the duration is at least 2, and the start lies within the doubled grid (or is 0) |
| Layout.PositionFromRows | my-scheduler/src/ScheduleBuilder.jsx:315-324 | start is twice the first slot at or after the start time (0 if none); duration is twice max(1, end row - start row), where the end row is the first slot at or after the end time (the slot count if none) |
| Layout.PositionWithinGrid | my-scheduler/src/ScheduleBuilder.jsx:318-323 | for an event that ends after it starts, start + duration stays within twice the slot count, and a start past the last slot falls back to the full grid |
| Layout.HourlySlots | my-scheduler/src/ScheduleBuilder.jsx:379 | the even-indexed slots, in order: half as many, rounded up, and entry i is slot 2i |
| Layout.HourlyDayGrid | my-scheduler/src/ScheduleBuilder.jsx:379 | of the 48 half-hour labels the even ones are the 24 labels "HH:00" |
| Layout.HourlyRow | my-scheduler/src/ScheduleBuilder.jsx:452 | in the hourly labels, "HH:MM" is found at hour HH when MM is 00, otherwise at the next hour, and not at all after 23:00 |
| Layout.PositionOnHourlyGrid | my-scheduler/src/ScheduleBuilder.jsx:379 | for clock times, the position is the start hour (rounded up) doubled and the end-minus-start hour distance (at least 1) doubled |
| Layout.PositionOnHours | my-scheduler/src/ScheduleBuilder.jsx:452 | the same position for any list of the 24 hourly labels, as the day view passes them |
| Layout.NineToTenThirty | my-scheduler/src/ScheduleBuilder.jsx:315-324 | 09:00 to 10:30 on the hourly grid is start 18, duration 4 |
| DateRange.GetDaysInMonth | my-scheduler/src/ScheduleBuilder.jsx:61-78 | one null per weekday before the 1st, then every date of the month in order, all in year FullYear(year); length is that lead plus the month's length |
| DateRange.February2024Grid | my-scheduler/src/ScheduleBuilder.jsx:61-78 | February 2024 begins on a Thursday and has 29 days |
| DateRange.WeekOf | my-scheduler/src/ScheduleBuilder.jsx:81-93 | a week has exactly seven dates |
| DateRange.GetWeekDays | my-scheduler/src/ScheduleBuilder.jsx:81-93 | the result is the Sunday on or before the anchor followed by the six days after it |
| DateRange.StartOfWeek | my-scheduler/src/ScheduleBuilder.jsx:83-85 | moving back `getDay()` days with `setDate` reaches the Sunday on or before the anchor |
| DateRange.WeekDayFrom | my-scheduler/src/ScheduleBuilder.jsx:88-90 | `setDate(startOfWeek.getDate() + i)` is the i-th day of the week |
| DateRange.WeekOfShape | my-scheduler/src/ScheduleBuilder.jsx:81-93 | entry i falls on weekday i (Sunday first, Saturday last), each entry is the day after the previous one, and the anchor is among them at its own weekday, across month and year ends |
| DateRange.WeekDayAt | my-scheduler/src/ScheduleBuilder.jsx:84-90 | entry i is on weekday i, and its day count is the anchor's minus the anchor's weekday plus i |
| DateRange.AnchorInWeek | my-scheduler/src/ScheduleBuilder.jsx:81-93 | the anchor is the entry at the position of its own weekday |
| Navigation.NavigateDate | my-scheduler/src/ScheduleBuilder.jsx:211-223 | the new anchor; in month view it lies in the target month or, when the day overflows, the month after |
| Navigation.SetMonthWindow | my-scheduler/src/ScheduleBuilder.jsx:215 | `setMonth(getMonth() + direction)` lands in the target month or the one after it |
| Navigation.NavigateByDays | my-scheduler/src/ScheduleBuilder.jsx:216-219 | in day view a step moves the date by exactly `direction` days; in week view by exactly 7 * `direction` days |
| Navigation.WeekStepKeepsWeekday | my-scheduler/src/ScheduleBuilder.jsx:216-217 | a week step changes the day count by 7 * `direction` and keeps the weekday |
| Navigation.SameWeekday | my-scheduler/src/ScheduleBuilder.jsx:217 | dates a whole number of weeks apart fall on the same weekday |
| Navigation.NavigateRoundTrip | my-scheduler/src/ScheduleBuilder.jsx:211-223 | in day and week views, a step of `direction` followed by a step of -`direction` returns to the date |
| Navigation.NavigateMonth | my-scheduler/src/ScheduleBuilder.jsx:214-215 | in month view the month index (counted together with the year) moves by `direction`; the day is kept when the target month has it, otherwise the surplus spills into the following month |
| Navigation.JanuaryThirtyFirst | my-scheduler/src/ScheduleBuilder.jsx:214-215 | in a leap year January 31 plus one month is March 2, and one month back from March 2 is February 2 |
| Navigation.GetNavigationTitle | my-scheduler/src/ScheduleBuilder.jsx:225-246 | the header text of each view; its shape is stated by the lemmas below |
| Navigation.TitleFrame | my-scheduler/src/ScheduleBuilder.jsx:232-245 | every title opens with the anchor's month name and closes with the anchor's year; in week view the anchor is the week's Sunday |
| Navigation.MonthNameFacts | my-scheduler/src/ScheduleBuilder.jsx:226-229 | the twelve month names are distinct and contain no space or comma |
| Navigation.MonthTitleIdentifiesMonth | my-scheduler/src/ScheduleBuilder.jsx:233 | two anchors have the same month title exactly when they are in the same month of the same year |
| Navigation.DayTitleIdentifiesDate | my-scheduler/src/ScheduleBuilder.jsx:244 | two anchors have the same day title exactly when they are the same date |
| Navigation.DayAndYear | my-scheduler/src/ScheduleBuilder.jsx:244 | the "D, YYYY" part of a day title determines the day and the year |
| Navigation.WeekEnd | my-scheduler/src/ScheduleBuilder.jsx:237 | the week's last day is its Sunday plus six, in the same month or the next one (January of the next year after December) |
| Navigation.WeekTitle | my-scheduler/src/ScheduleBuilder.jsx:234-242 | the week title in terms of its Sunday: "Month D-D, YYYY" when the whole week is in one month, otherwise both month names with the Sunday's year |
| Navigation.YearEndWeekTitle | my-scheduler/src/ScheduleBuilder.jsx:234-242 | when December 31 is a Wednesday, its week title is "December 28 - January 3, " with the old year |
| Strings.IntToStringInjective | my-scheduler/src/ScheduleBuilder.jsx:233 | distinct years render as distinct strings |
| EventStore.Validate | my-scheduler/src/ScheduleBuilder.jsx:180-187 | a missing title, date, start or end time is reported first; otherwise the form passes exactly when the start time is below the end time |
| EventStore.ValidateUsesClockOrder | my-scheduler/src/ScheduleBuilder.jsx:184 | for "HH:MM" times, a complete form passes exactly when the start is earlier in the day, and is refused as end-not-after-start exactly otherwise |
| EventStore.ApplySave | my-scheduler/src/ScheduleBuilder.jsx:178-204 | refused exactly when validation fails; a save carries the form's fields; creating appends one event with the fresh id at the end; editing keeps the id and the length and is `ReplaceById`: every event with the edited id becomes the new event and all others stay in place |
| Events.WithId | my-scheduler/src/ScheduleBuilder.jsx:190-193 | the saved event has the given id and exactly the form's other fields |
| EventStore.ReplaceById | my-scheduler/src/ScheduleBuilder.jsx:196-198 | same length; each position holds the new event when its id matches and is unchanged otherwise |
| EventStore.ReplaceKeepsOthers | my-scheduler/src/ScheduleBuilder.jsx:196-198 | after an edit, the events with other ids are the same as before, in the same order |
| EventStore.ReplaceKeepsIds | my-scheduler/src/ScheduleBuilder.jsx:196-198 | an edit keeps the id at every position, so it keeps ids distinct and the set of ids unchanged |
| EventStore.ReplaceAbsentIsNoop | my-scheduler/src/ScheduleBuilder.jsx:196-198 | editing an id that no event has leaves the collection unchanged |
| EventStore.ReplaceChangesOne | my-scheduler/src/ScheduleBuilder.jsx:196-198 | with distinct ids, an edit replaces exactly the one event with that id |
| EventStore.RemoveById | my-scheduler/src/ScheduleBuilder.jsx:207 | no event with the id remains, and every event with another id remains |
| EventStore.RemoveKeepsOrder | my-scheduler/src/ScheduleBuilder.jsx:207 | deleting distributes over concatenation, so the rest keep their order; every event with another id keeps its multiplicity |
| EventStore.RemoveAbsentIsNoop | my-scheduler/src/ScheduleBuilder.jsx:207 | deleting an id that no event has changes nothing |
| EventStore.CreateThenDeleteRestores | my-scheduler/src/ScheduleBuilder.jsx:199-207 | creating an event with a fresh id and then deleting that id restores the collection |
| EventStore.SaveKeepsIdsUnique | my-scheduler/src/ScheduleBuilder.jsx:190-201 | if ids are distinct and a created event's id is fresh, ids stay distinct after a save |
| EventStore.RemoveKeepsIdsUnique | my-scheduler/src/ScheduleBuilder.jsx:207 | deleting keeps ids distinct |
| EventStore.FilterUnique | my-scheduler/src/ScheduleBuilder.jsx:207 | any filter of a collection with distinct ids has distinct ids |
| EventStore.ScheduleBuilder.constructor | my-scheduler/src/ScheduleBuilder.jsx:5-7 | on mount: the stored events, today's date, and the week view |
| EventStore.ScheduleBuilder.SetView | my-scheduler/src/ScheduleBuilder.jsx:503 | the view becomes the chosen one and nothing else changes |
| EventStore.ScheduleBuilder.SaveEvent | my-scheduler/src/ScheduleBuilder.jsx:178-204 | a refused form leaves the events untouched; otherwise the events become what `ApplySave` gives; the date and view are unchanged |
| EventStore.ScheduleBuilder.DeleteEvent | my-scheduler/src/ScheduleBuilder.jsx:206-208 | the events become those with other ids, in order; the date and view are unchanged |
| EventStore.ScheduleBuilder.Navigate | my-scheduler/src/ScheduleBuilder.jsx:211-223 | the anchor date takes one step of the current view; the events and view are unchanged |

## Left out

- Rendering is not modelled: JSX, CSS classes, the pixel and percentage arithmetic of event boxes (`* 15`, `64 +`, `leftOffset`), and the "today" highlight. These are presentation and use floating point.
- `localStorage` loading and saving are not modelled, because they are I/O with JSON. The stored events are the constructor's `saved` parameter.
- `getNearestHalfHour` and the default start and end times of `openEventModal` are not modelled, because they read the wall clock.
- The initial anchor `new Date()` is not modelled, because it reads the clock; it is the constructor's `today` parameter.
- `Date.now().toString()` is not modelled, because it reads the clock. The new id is the `freshId` parameter of `SaveEvent`. Its freshness is a hypothesis of `EventStore.SaveKeepsIdsUnique` and `EventStore.CreateThenDeleteRestores`.
- `formatDate` goes through `toISOString`, which renders the UTC date. `Calendar.FormatDate` renders the local date instead, so time-zone shifts are not modelled.
- Dates carry no time of day.
- The JavaScript `Date` range limit of ±8.64e15 ms is not modelled: years are unbounded integers.
- `toLocaleDateString` in the day-view header is not modelled, because it is a locale-dependent host call.
- React hooks, `alert`, and the modal open/close bookkeeping (`closeEventModal`, `selectedDate`, `showEventModal`) are not modelled. They are framework plumbing; `alert` is the `Rejected` result.
- `setView` is modelled only as the assignment `SetView`, without the button list that calls it.
- TimeSlots.FormatTime: `parseInt` is modelled for a leading run of decimal digits, read as an exact integer. An empty run gives NaN. `parseInt` returns a double, so a run of 17 or more digits is rounded and a run of about 309 or more becomes Infinity; neither is modelled (for "99999999999999999:00" JavaScript shows "4:00 PM" where the model shows "3:00 PM"). The form's `type="time"` inputs never produce such hours. Leading whitespace, a sign and other radices are not modelled; the form's time inputs never contain them.
- EventIndex.SortByStart: `localeCompare` is modelled as code-unit order. This agrees with locale collation on the digit-and-colon "HH:MM" strings the form produces, but not on arbitrary text, and UTF-16 surrogate pairs are not distinguished from code points.
- `StrLess` treats a string as a sequence of Dafny characters, not UTF-16 code units.
- JavaScript `Date` objects are mutable and are copied before `setDate` and `setMonth`. The model treats dates as immutable values, so aliasing is not modelled.
- `getTimeSlots`, `getDaysInMonth` and `getWeekDays` append with `push` to a fresh array. They are modelled as methods that extend a sequence.
