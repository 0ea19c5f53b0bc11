# MindFlow core, modelled in Dafny

MindFlow is a small personal-organiser app with three screens: a to-do list,
a calendar of events with reminders, and an idea board. Each screen keeps its
data in a store that is persisted locally. Screens change the data by handing
the store an update from the previous value to the next. The calendar also
asks a notification service for reminders, and that service turns event ids
into 32-bit notification ids with a string hash.

This project models those updates and the logic around them:

- **To-do list** (`todo_list.dfy`, module `TodoList`): adding, toggling,
  deleting and AI-splitting tasks, and archiving completed ones. Also the
  active and archived views, the order of the active view, the history grouped
  by archive date, and its descending list of dates.
- **Calendar** (`calendar_dates.dfy`, `calendar_events.dfy`): `YYYY-MM-DD`
  date keys and their parsing. It covers `new Date(y, m, d)` arithmetic for
  month lengths, first weekdays and month navigation, including the two-digit
  year rule. It also covers adding and deleting events in the per-date map,
  the reminder an added event asks for, the month grid, and the in-place
  sort of the selected day's events.
- **Idea board** (`idea_board.dfy`): adding, deleting and expanding ideas.
- **Notification service** (`notifications.dfy`): the `hashCode` loop with
  ECMAScript `ToInt32` wrap-around over UTF-16 code units, plus `Math.abs`.
  It also covers the notification that `scheduleNotification`,
  `snoozeNotification` and `cancelNotification` hand to the plugin.

Shared building blocks:

- `Seqs` models `Array.prototype.filter` as a subsequence keeping exactly the
  passing elements.
- `Strings` models JavaScript truthiness of optional strings, `trim`-blankness,
  `String(n)`, `padStart` and code-point comparison.
- `Sorting` is an in-place insertion sort on an array. It is proved sorted and
  a permutation under any consistent comparator, which is what
  `Array.prototype.sort` requires.

Clock readings, generated ids, the random colour index, the assistant's
answers, the platform check and the locale date formatter are all parameters.

The calendar's map is proved to stay *well formed*: no bucket is empty, and
every event sits under its own `dateStr`. This holds for every sequence of
adds and deletes, `ReplayWellFormed`. Under that invariant, "has events" on a
grid day is the same as "the key is present", `GridDotsMatchKeys`.

The notification id can be `2^31`, for example for the id `"xfjfxtf"`, as
`HashCodeReachesTwoTo31` shows. This is because `Math.abs` of the most
negative 32-bit value is `2^31`. The model keeps this behaviour as written.

## Model

| member | source | states |
|---|---|---|
| TodoList.AddTask | components/TodoList.tsx:13-23 | blank (whitespace-only) text leaves the list unchanged; otherwise exactly one incomplete, unarchived task holding the text verbatim, with the given id and time, is put in front of the unchanged previous list |
| TodoList.ToggleTask | components/TodoList.tsx:25-31 | same length; tasks with other ids unchanged; each task with the id flips `completed`, gains the time when becoming completed and loses it otherwise, all other fields kept |
| TodoList.DeleteTask | components/TodoList.tsx:33-35 | result is a subsequence of the list, holds no task with the id, keeps every other task, and is shorter by the number of tasks with the id |
| TodoList.AiSplit | components/TodoList.tsx:37-55 | blank input changes nothing; a non-empty subtask list puts one new task per subtask, in order, before the unchanged list, each exactly the incomplete, undated task `addTask` would build from it and its stamp; an empty subtask list falls back to adding the input as one task |
| TodoList.ArchiveCompleted | components/TodoList.tsx:57-68 | same length; only completed, unarchived tasks change, gaining the local date of their completion time (of now when that is absent or 0); afterwards every completed task is archived |
| TodoList.Active | components/TodoList.tsx:71 | a subsequence of the tasks with no archived task |
| TodoList.Archived | components/TodoList.tsx:72 | a subsequence of the tasks holding only archived tasks |
| TodoList.ViewsPartition | components/TodoList.tsx:71-72 | every task is in exactly one view, and the views together are a permutation of the list |
| TodoList.ToggleTwice | components/TodoList.tsx:25-31 | toggling the same id twice restores `completed` and leaves only the second completion time |
| TodoList.DeleteAfterToggle | components/TodoList.tsx:25-35 | deleting a task after toggling it equals deleting it |
| TodoList.ArchiveIdempotent | components/TodoList.tsx:57-68 | archiving twice equals archiving once, whatever the second clock reading |
| TodoList.ArchiveLeavesIncomplete | components/TodoList.tsx:57-71 | after archiving, the active view is exactly the incomplete tasks of the previous active view |
| TodoList.NothingLeftToArchive | components/TodoList.tsx:57-68 | after archiving, the completed count of the active view is 0 |
| TodoList.CompareTasksConsistent | components/TodoList.tsx:75-80 | the active view's comparator is total and transitive, as `sort` requires |
| TodoList.SortedActiveTasks | components/TodoList.tsx:75-80 | the result is a permutation of the active view with incomplete tasks before completed ones and newer before older among equals |
| TodoList.ActiveOrder | components/TodoList.tsx:75-80 | a list sorted by the comparator has incomplete tasks first and creation times descending within each group |
| TodoList.HistoryByDate | components/TodoList.tsx:83-88 | the groups' keys are exactly the archive dates; each group is the non-empty list of archived tasks of that date, in list order |
| TodoList.GroupsOfPush | components/TodoList.tsx:84-87 | pushing one archived task onto its date's group keeps the grouping invariant for the extended list |
| TodoList.ObjectKeys | components/TodoList.tsx:91 | the keys listed are exactly the map's keys, each once |
| TodoList.HistoryDates | components/TodoList.tsx:91 | the dates are exactly the group keys, each once, in strictly descending order |
| TodoList.CompareDatesDescendingConsistent | components/TodoList.tsx:91 | the descending date comparator is total and transitive |
| TodoList.CompletedCount | components/TodoList.tsx:93 | the completed count never exceeds the size of the active view |
| TodoList.BuyMilkScenario | components/TodoList.tsx:13-72 | adding "Buy milk", toggling it and archiving yields one completed task archived on the local date of its completion, absent from the active view |
| CalendarDates.DateKeyRoundTrip | components/CalendarView.tsx:33-36 | for a four-digit year the key `DateKey` builds is ten characters with dashes at 4 and 7 and parses back to the year, month and day |
| CalendarDates.DateKeyInjective | components/CalendarView.tsx:104 | different days of four-digit years have different keys |
| CalendarDates.DayKeyInjective | components/CalendarView.tsx:104 | in any year, two days of one month have the same `DateKey` exactly when they are the same day |
| CalendarDates.MonthOf | components/CalendarView.tsx:20-24 | `new Date(y, m, 1)` normalises to a month 0..11 of the same absolute month, years 0..99 read as 1900+y |
| CalendarDates.DaysInMonth | components/CalendarView.tsx:20 | day 0 of the next month is a month length between 28 and 31 |
| CalendarDates.DaysInMonthGregorian | components/CalendarView.tsx:20 | outside years 0..99 this is the Gregorian length: 31, 30, or 28/29 in February by the leap-year rule |
| CalendarDates.TwoDigitYearFebruary | components/CalendarView.tsx:20 | February of year 0 has 28 days, because the constructor reads it as 1900 |
| CalendarDates.FirstDayOfMonth | components/CalendarView.tsx:21 | the weekday of the 1st is in 0..6 |
| CalendarDates.NextFirstDay | components/CalendarView.tsx:21 | the next month's first weekday is this month's shifted by its length modulo 7 |
| CalendarDates.FirstDayAfter | components/CalendarView.tsx:20-21 | for every year and month argument, `getFirstDayOfMonth(y, m + 1)` is `getFirstDayOfMonth(y, m)` plus `getDaysInMonth(y, m)`, modulo 7 |
| CalendarDates.DaysInYear | components/CalendarView.tsx:20-21 | consecutive year starts differ by 366 days in a leap year and 365 otherwise |
| CalendarDates.PrecedingMonthOf | components/CalendarView.tsx:20 | the month before the normalised next month is the normalised month |
| CalendarDates.PrevMonth | components/CalendarView.tsx:23 | `handlePrevMonth`: the displayed month becomes a normalised month 0..11 |
| CalendarDates.NextMonth | components/CalendarView.tsx:24 | `handleNextMonth`: the displayed month becomes a normalised month 0..11 |
| CalendarDates.Navigation | components/CalendarView.tsx:23-24 | next and previous month step by one with year carry, and undo each other |
| CalendarDates.TwoDigitYearNavigation | components/CalendarView.tsx:23-24 | going back from January of year 100 and forward again lands in January 2000 |
| CalendarEvents.TargetDate | components/CalendarView.tsx:39 | a non-empty override date wins; otherwise the selected date |
| CalendarEvents.AddEvent | components/CalendarView.tsx:38-68 | the key set gains the target date; the new event goes at the end of its bucket; other buckets are unchanged; a reminder with the app title, the event's id, title, date and time is requested exactly when the time is non-empty; the target date becomes selected |
| CalendarEvents.AiAdd | components/CalendarView.tsx:77-83 | blank input does nothing; otherwise the suggestion's title goes at the end of the bucket of its date (or the selected one when the date is empty or absent), other buckets are unchanged, a reminder with the app title and the suggestion's title, date and time is requested exactly when the time is non-empty, and that date becomes selected |
| CalendarEvents.AddPreservesWellFormed | components/CalendarView.tsx:49-52 | adding keeps buckets non-empty and events under their own date |
| CalendarEvents.DeleteEvent | components/CalendarView.tsx:86-98 | the reminder of the id is cancelled; a missing date fails (the update throws); otherwise other buckets are unchanged, the bucket keeps exactly the events with other ids, and its key is dropped exactly when none is left |
| CalendarEvents.DeletePreservesWellFormed | components/CalendarView.tsx:90-97 | deleting keeps the map well formed |
| CalendarEvents.DeleteUndoesAdd | components/CalendarView.tsx:38-98 | deleting a freshly added event whose id is new to its bucket gives back the previous map |
| CalendarEvents.DeleteCancelsAddedReminder | components/CalendarView.tsx:56-88 | the id that deleting the event cancels is the id its reminder was scheduled under |
| CalendarEvents.ReplayWellFormed | components/CalendarView.tsx:38-98 | any sequence of adds and deletes that does not fail keeps the map well formed, so a day has events exactly when its key is present |
| CalendarEvents.ReplayFromEmpty | components/CalendarView.tsx:11 | from the store's initial `{}`, every run of adds and deletes that does not throw leaves a well-formed map |
| CalendarEvents.HasEventsIffKey | components/CalendarView.tsx:106 | in a well-formed map, `hasEvents` (`HasEvents`) is key presence |
| CalendarEvents.MonthGrid | components/CalendarView.tsx:101-104 | the grid has `firstDay` blanks followed by days 1..`daysInMonth` in order |
| CalendarEvents.ClickSelectsOneCell | components/CalendarView.tsx:33-36 | in any year, after `handleDateClick(day)` (`SelectDay`) exactly that day's cell is highlighted (`IsSelected`); for a four-digit year the selected key has ten characters |
| CalendarEvents.SelectedCellIsDay | components/CalendarView.tsx:105 | in any year, a day cell is selected by a click on a day exactly when it is that day's cell |
| CalendarEvents.TodayMarksAtMostOneCell | components/CalendarView.tsx:107 | whatever today's key is, at most one cell of the grid is marked as today (`IsToday`) |
| CalendarEvents.GridDotsMatchKeys | components/CalendarView.tsx:106-121 | in a well-formed map a day shows the dot (`ShowsDot`) exactly when its key is stored and it is not the selected day |
| CalendarEvents.CompareByTimeConsistent | components/CalendarView.tsx:165 | the time comparator is total and transitive |
| CalendarEvents.SortSelectedEvents | components/CalendarView.tsx:126-165 | the shown list is a permutation of the selected bucket in ascending time order with untimed events first; the stored map then holds that order in the selected bucket, other buckets unchanged, and stays well formed |
| CalendarEvents.UntimedFirst | components/CalendarView.tsx:165 | a list sorted by time has ascending times and untimed events before timed ones |
| IdeaBoard.AddIdea | components/IdeaBoard.tsx:12-23 | blank input changes nothing; otherwise one idea with the input verbatim, the given id and time, a colour from the pastel palette and no tags is put in front of the unchanged list |
| IdeaBoard.DeleteIdea | components/IdeaBoard.tsx:25-27 | a subsequence with no idea of the id, keeping every other idea |
| IdeaBoard.ExpandIdea | components/IdeaBoard.tsx:33-36 | same length; an empty expansion changes nothing; ideas with other ids unchanged; ideas with the id get the marker and expansion after their text, other fields kept |
| IdeaBoard.ExpandedExtendsContent | components/IdeaBoard.tsx:35 | the old text is a proper prefix of the expanded text, followed by the marker and the expansion |
| IdeaBoard.ExpandKeepsIds | components/IdeaBoard.tsx:34-36 | expanding keeps every idea's id in place |
| IdeaBoard.DeleteUndoesAdd | components/IdeaBoard.tsx:12-27 | deleting a freshly added idea with a new id gives back the previous list |
| IdeaBoard.DeleteAfterExpand | components/IdeaBoard.tsx:25-36 | deleting an idea after expanding it equals deleting it |
| IdeaBoard.ExpandCommutesWithDelete | components/IdeaBoard.tsx:25-36 | expanding one idea and deleting ideas of some id commute |
| Notifications.ToInt32 | services/notificationService.ts:9-10 | the result is a 32-bit signed value congruent to the input modulo 2^32 |
| Notifications.ToInt32Unique | services/notificationService.ts:10 | the 32-bit value congruent to an input is unique |
| Notifications.CodeUnits | services/notificationService.ts:7-8 | the string's UTF-16 code units, each below 2^16, at least one per character |
| Notifications.BmpUnits | services/notificationService.ts:7-8 | a string of the Basic Multilingual Plane has one code unit per character, equal to its code point |
| Notifications.HashStepIsTimes31 | services/notificationService.ts:9-10 | one step of the loop is `31 * hash + unit` wrapped to 32 bits |
| Notifications.FoldHashIsJavaHash | services/notificationService.ts:6-11 | the loop's hash is the polynomial `sum unit_i * 31^(n-1-i)` wrapped to 32 bits |
| Notifications.HashCodeOf | services/notificationService.ts:5-13 | the id is in 0..2^31, and equals 2^31 exactly when the wrapped hash is -2^31 |
| Notifications.HashCode | services/notificationService.ts:5-13 | the loop computes the hash the specification function defines |
| Notifications.HashCodeEmpty | services/notificationService.ts:6-12 | the empty string hashes to 0 |
| Notifications.HashCodeReachesTwoTo31 | services/notificationService.ts:12 | `"xfjfxtf"` hashes to 2^31, outside the signed 32-bit range |
| Notifications.ScheduleNotification | services/notificationService.ts:84-127 | a notification is scheduled exactly on a native platform unless the schedule time is a valid date at or before now (an invalid date is scheduled); it carries the hashed id, the title, the body or a "Reminder for" fallback, the reminder channel and action type, and the event's details as extra |
| Notifications.SnoozeNotification | services/notificationService.ts:129-156 | on a native platform a copy ten minutes ahead with id + 1, the original title and body (falling back to the delivered ones) and a "Snoozed" prefix, keeping the extra |
| Notifications.CancelNotification | services/notificationService.ts:158-167 | off a native platform nothing is cancelled; on one the id cancelled is exactly `HashCodeOf(id)`, in 0..2^31 |
| Notifications.CancelMatchesSchedule | services/notificationService.ts:99-162 | cancelling an event's id targets the id it was scheduled under |
| Notifications.SnoozeOfScheduled | services/notificationService.ts:99-162 | snoozing a scheduled reminder keeps its title and extra, prefixes its body, and gets an id other than the one cancelling the event targets |
| Seqs.Filter | components/TodoList.tsx:34 | the filter is a subsequence holding exactly the passing elements, counted by `Count` |
| Seqs.FilterPartition | components/TodoList.tsx:71-72 | filtering by a test and by its negation splits the multiset |
| Sorting.InsertionSort | components/CalendarView.tsx:165 | the array ends up sorted by any consistent comparator and is a permutation of its old contents |
| Sorting.Insert | components/CalendarView.tsx:165 | one insertion step extends the sorted prefix, keeps the rest and permutes the array |
| Strings.BlankIffAllWhitespace | components/TodoList.tsx:14 | `!s.trim()` holds exactly when every character is JavaScript whitespace |
| Strings.NatToStringRoundTrip | components/CalendarView.tsx:34 | `String(n)` reads back as `n` |
| Strings.PadStartShape | components/CalendarView.tsx:34 | `padStart` ends with the original string and is filled before it |
| Strings.LexCompareAntisymmetric | components/CalendarView.tsx:165 | swapping the operands negates the comparison |
| Strings.LexCompareTransitive | components/CalendarView.tsx:165 | "at most" is transitive |

## Left out

- The persisted store hook and the screens' rendering are not modelled. This
  covers JSX, `TabBar`, `App`, input fields and loading flags. Each update is
  modelled as the `prev -> next` function the handler hands to the setter.
- The notification-action listener is not part of this model.
  `snoozeNotification` takes the delivered notification as a parameter.
- The assistant service (`geminiService`) is not part of this model. Its
  answers (subtasks, suggestions, expansions) are parameters.
- Plugin calls are left out, because they go to native code. This covers
  permission requests, channel and action-type registration, and the
  `schedule`/`cancel` calls themselves. The model returns the notification
  or id handed to the plugin, or nothing when the platform is not native.
- `Date` string parsing, `toISOString`, `toLocaleString` and
  `toLocaleDateString` are left out, because they depend on the time zone and
  locale. The schedule time is a parameter (`None` for an invalid date), and
  the archive date is a locale-formatter parameter.
- `addEvent`'s switch of the displayed month to the override's month
  (components/CalendarView.tsx:69-73) is left out, because it parses a date
  string. The date that becomes selected is modelled.
- `Date.now()` and `Math.random()` are parameters. Id uniqueness is not
  assumed; lemmas that need a fresh id say so in their preconditions.
- Sort stability is not proved. Only sortedness and permutation are.
- `localeCompare` is modelled as code-point order. This is exact for keys of
  one format such as `YYYY-MM-DD` and `HH:MM`.
- `Object.keys` order is modelled as an unspecified order of the map's keys.
  Only membership and distinctness are stated.
- Prototype keys of the grouping object are not modelled.
- CalendarDates.DateKeyRoundTrip: stated for four-digit years only. Other
  years give keys of a different length that `YYYY-MM-DD` parsing does not
  read back.
- CalendarEvents.ClickSelectsOneCell: the ten-character length of the
  selected key is stated for four-digit years only, for the same reason.
- CalendarDates.Navigation: stated for years outside -1..100, where `new Date`
  does not reinterpret a two-digit year. `TwoDigitYearNavigation` states what
  happens at the edge.
- Notifications.CodeUnits: characters are Unicode scalar values. Lone
  surrogates, which a JavaScript string may hold, cannot be expressed.
