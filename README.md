# Sleep tracker core, in Dafny

A model of the logic of a SwiftUI sleep tracker. A user starts a sleep
session and later ends it. The session store keeps at most one in-progress
record and an append-only history of completed records. Around the store sit
three small computations in the calendar and history views: the month grid
layout, the hours-and-minutes read-out of a duration, and the seven days of
the week strip.

Files:

- `wrappers.dfy`, module `Wrappers`: `Option`, standing in for Swift optionals.
- `models.dfy`, module `Models`: the immutable `SleepRecord` value, its
  initializer with defaults, and its derived `Duration`.
- `view_models.dfy`, module `ViewModels`: the store. Its behaviour is
  first given on values: `StoreState`, the transitions `Started`, `Ended`
  and `Apply`, and `Run` over a sequence of calls. The properties of call
  sequences are proved there. The class `SleepStore` holds the fields
  `sleepRecords` and `currentRecord` and updates them in place. Each of its
  methods states its new fields in terms of the old ones and is proved to
  follow `Apply`.
- `content_view.dfy`, module `ContentView`: `MonthWeeks` is a method with
  the source's `for` and `while` loops. It is specified by `MonthCells` (the
  flat cell list) and `Rows` (the stride-by-7 chunking). The module also
  holds `FormatDuration` and `WeekDates`.

Modelling choices:

- Time is whole seconds (`int`). The clock `Date()` becomes a `now`
  parameter of each store method.
- `UUID()` becomes a counter field `nextId` in the store. Every id it hands
  out is new, so the uniqueness that UUIDs give in practice can be proved as
  part of the store invariant.
- Calendar library answers are parameters: `firstWeekday` (1 to 7) and
  `daysInMonth` for the month grid, and the day number of the first day of
  the week for the week strip. Days are whole day numbers. A day number
  stands for a `Date` in a grid cell.
- `formatDuration` uses Swift's `Int` division and remainder, which truncate
  toward zero. These are written out as `TruncDiv` and `TruncRem`, so the
  model also covers negative durations and does not require them away.
- Nothing in the code orders a record's wake time after its sleep time: both
  come from the clock. So non-negative durations are proved only for a clock
  that never goes backwards (`RunNonNegativeDurations`).
- A second `startSleep` while sleeping overwrites the in-progress record, and
  the earlier session is lost. This matches the code. `StartWhileSleepingDiscards`
  states it.

## Model

| member | source | states |
|---|---|---|
| `Models.SleepRecord.Duration` | sleep/sleep/Models/SleepRecord.swift:16-19 | the duration is absent exactly when there is no wake time; when present, start plus duration is the wake time |
| `Models.NewRecord` | sleep/sleep/Models/SleepRecord.swift:9-14 | the initializer stores exactly the given id, sleep time, wake time and note |
| `Models.DefaultRecordInProgress` | sleep/sleep/Models/SleepRecord.swift:9 | with the default arguments a record is in progress: no wake time, no duration and an empty note |
| `Models.DurationNonNegativeIff` | sleep/sleep/Models/SleepRecord.swift:18 | a complete record's duration is non-negative if and only if it wakes no earlier than it started |
| `ViewModels.StartedEffect` | sleep/sleep/ViewModels/SleepStore.swift:8-10 | startSleep leaves the history unchanged and installs an in-progress record with the given note and start time, whose id differs from every history id and from the replaced record's id |
| `ViewModels.StartWhileSleepingDiscards` | sleep/sleep/ViewModels/SleepStore.swift:9 | startSleep during a session loses that session: its id is in neither the history nor the new current record |
| `ViewModels.EndedWhenIdle` | sleep/sleep/ViewModels/SleepStore.swift:13 | endSleep with no session leaves the whole state unchanged |
| `ViewModels.EndedWhenSleeping` | sleep/sleep/ViewModels/SleepStore.swift:12-20 | endSleep on a session appends exactly one record keeping its id, start and note and waking at now; the old history is a prefix; the duration is now minus the start; the store becomes idle |
| `ViewModels.ApplyKeepsInvariant` | sleep/sleep/ViewModels/SleepStore.swift:5-19 | each call keeps the invariant: history records complete with distinct ids, the current record in progress with an id not in the history |
| `ViewModels.RunKeepsInvariant` | sleep/sleep/ViewModels/SleepStore.swift:4-23 | every sequence of calls keeps the invariant |
| `ViewModels.ReachableInvariant` | sleep/sleep/ViewModels/SleepStore.swift:4-23 | every state reached from a fresh store satisfies the invariant, so every history record has a wake time |
| `ViewModels.RunHistoryGrows` | sleep/sleep/ViewModels/SleepStore.swift:8-22 | across any sequence of calls the previous history is a prefix of the new one |
| `ViewModels.RunActiveIffLastStart` | sleep/sleep/ViewModels/SleepStore.swift:8-20 | after a non-empty call sequence a session is active if and only if the last call was startSleep |
| `ViewModels.RunNonNegativeDurations` | sleep/sleep/ViewModels/SleepStore.swift:14-18 | if the clock never goes backwards, every completed record keeps a present, non-negative duration |
| `ViewModels.ReachableNonNegativeDurations` | sleep/sleep/ViewModels/SleepStore.swift:14-18 | from a fresh store with a clock that never goes backwards, all history durations are non-negative |
| `ViewModels.NapScenario` | sleep/sleep/ViewModels/SleepStore.swift:8-20 | start "nap" at t0 and end at t0 + 3600: one record with those times and note, duration 3600, store idle |
| `ViewModels.EndWithoutStartScenario` | sleep/sleep/ViewModels/SleepStore.swift:13 | endSleep on a fresh store leaves it empty and idle |
| `ViewModels.SleepStore.constructor` | sleep/sleep/ViewModels/SleepStore.swift:5-6 | a new store has an empty history and no current record |
| `ViewModels.SleepStore.StartSleep` | sleep/sleep/ViewModels/SleepStore.swift:8-10 | history unchanged, current record set to a fresh in-progress record with the given note and time, invariant kept |
| `ViewModels.SleepStore.EndSleep` | sleep/sleep/ViewModels/SleepStore.swift:12-22 | no change at all when idle; otherwise exactly the completed record is appended and the current record cleared, invariant kept |
| `ContentView.TrailingPad` | sleep/sleep/ContentView.swift:279-281 | the padding loop adds fewer than 7 blanks, reaches a multiple of 7, and stops at the first one |
| `ContentView.MonthWeeks` | sleep/sleep/ContentView.swift:265-286 | the loops build the month's cell list; the result is its rows, every row has 7 cells, joining them gives the list back, and there are ceil((firstWeekday - 1 + daysInMonth) / 7) rows |
| `ContentView.MonthCellsShape` | sleep/sleep/ContentView.swift:270-281 | the cell list starts with exactly firstWeekday - 1 blanks, then cell i holds day i - lead + 1 for each day of the month, then blanks; its length is a multiple of 7 and under 7 past the last day |
| `ContentView.MonthDays` | sleep/sleep/ContentView.swift:273-277 | the non-blank cells are the days 1 to daysInMonth, each once, in increasing order |
| `ContentView.FullRows` | sleep/sleep/ContentView.swift:283-285 | when the cell count is a multiple of 7, the chunking gives count / 7 rows of exactly 7 cells |
| `ContentView.FlattenRows` | sleep/sleep/ContentView.swift:283-285 | joining the rows of the stride chunking gives back the cell list, for any length |
| `ContentView.FormatDuration` | sleep/sleep/ContentView.swift:528-532 | for s >= 0 the minutes are in 0..59 and hours * 3600 + minutes * 60 <= s < that + 60 |
| `ContentView.FormatDurationUnique` | sleep/sleep/ContentView.swift:529-530 | for s >= 0 those bounds determine the hours and minutes uniquely |
| `ContentView.FormatDurationClosedForm` | sleep/sleep/ContentView.swift:529-530 | for s >= 0 the hours are s / 3600 and the minutes (s / 60) % 60 |
| `ContentView.FormatDurationNegated` | sleep/sleep/ContentView.swift:529-530 | with Swift's truncating arithmetic a negative duration reads as the negation of the positive one |
| `ContentView.WeekDates` | sleep/sleep/ContentView.swift:139-143 | seven entries, starting at the first day of the week, each one day after the previous |
| `ContentView.WeekDatesCoverWeek` | sleep/sleep/ContentView.swift:142 | a day is in the week strip if and only if it is one of the seven days from the start of the week |

## Left out

- SwiftUI views, tabs, navigation, settings screens, pickers and layout modifiers: presentation only.
- `Calendar.current`, `dateInterval`, `range(of:in:for:)`, `date(byAdding:)`, `date(bySettingHour:...)`, `DateFormatter` and `isToday`: library calls. Their answers are parameters. The `if let` around each day's date is taken to succeed, so each day is a plain day number.
- `moveWeek`, `moveMonth`, `moveYear` and `dateForMonth`: thin wrappers over calendar arithmetic in the library.
- `hasSleepRecord`: it always returns false, so there is no logic to model.
- `Date()` and `UUID()`: the clock becomes a `now` parameter, and the id generator becomes the `nextId` counter. Their use as defaults of the record initializer's `sleepTime` and `id` therefore becomes two required arguments.
- `Date` and `TimeInterval` as `Double`: floating point. Time is whole seconds, so `Int(duration)` has nothing left to truncate.
- `FormatDuration`: returns the hours and minutes. The `String(format:)` text built from them is not modelled.
- The traps in monthWeeks are not modelled, because the calendar never triggers them. So `MonthWeeks` requires `daysInMonth >= 1`, since Swift's `1...daysInMonth` traps otherwise. It also requires `firstWeekday` in 1..7, the calendar's weekday range; below 1, `Array(repeating:count:)` would trap.
- `@Published`/`ObservableObject` change notification and `Codable`: framework observation and serialisation, with no logic in the source.
- Persistence: the store keeps its state in memory only, as the source does.
