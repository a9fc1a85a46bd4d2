# StudyTimerApp core, modelled in Dafny

This project models the stateful and computational core of StudyTimerApp, a React / React Native study-timer app:

- **The countdown hook** `useTimer` (`TimerHook`). The remaining time and the `isActive` / `isPaused` flags live in a `Timer` class. Its start, pause, resume, stop, reset, add-time and one-second tick operations change the state in place. Each is specified by a function on `TimerState`.
- **The Timer component** (`TimerComponent`). It provides the play/pause dispatch, reset, the ±5-minute controls with the minus guard, and the completion effect. Effect calls are recorded as a sequence.
- **The local TTL cache** of `CacheService` (`Cache`). It is a map of `{value, timestamp, ttl}` entries plus the key insertion order, with expiry checked on read. The clock `now`, in milliseconds, is a parameter.
- **The reading countdown**, written once for the web screen and once for the native screen (`Reading`). It has separate hours, minutes and seconds fields, borrows across them on each tick, and has toggle, reset and subject-switch handlers.
- **The pure helpers** of `src/utils/helpers.js`:
  - `HelpersFormat`: clock and duration formatting, progress capping, study levels;
  - `HelpersValidation`: email, password and name validation;
  - `HelpersCollections`: `groupBy` and `sortBy`;
  - `HelpersStreak`: the day-streak loop, over whole day numbers.
- **The todo list operations** (`TodoList`): toggle by id, the status filter and its counts, the subject initial and the priority colour.

`Text` holds the string machinery the formatters need: decimal rendering of naturals, `padStart`, and splitting on a separator. Each renderer comes with the parser that undoes it, so the formatters can be stated as round trips.

Where the source changes state step by step, the model does too. Such code becomes classes with `modifies` clauses, or methods with loops and invariants: `Timer`, `TimerView`, `CacheService`, `ReadingTimer`, `GroupBy` and `CalculateStreak`. Each of these methods is proved against a specification function. The properties are proved about those functions.

## Model

| member | source | states |
|---|---|---|
| TimerHook.Timer.constructor | src/hooks/useTimer.js:5-8 | the hook starts at the given initial time (1500 by default), neither active nor paused |
| TimerHook.Timer.Start | src/hooks/useTimer.js:11-14 | the new state is `Started`: active, not paused, time unchanged |
| TimerHook.Timer.Pause | src/hooks/useTimer.js:16-18 | only `isPaused` becomes true |
| TimerHook.Timer.Resume | src/hooks/useTimer.js:20-22 | only `isPaused` becomes false |
| TimerHook.Timer.Stop | src/hooks/useTimer.js:24-28 | back to the initial time, inactive and unpaused; the same state as reset |
| TimerHook.Timer.Reset | src/hooks/useTimer.js:30-34 | back to the initial time, inactive and unpaused |
| TimerHook.Timer.AddTime | src/hooks/useTimer.js:36-38 | the time becomes `max(0, time + seconds)` and is never negative |
| TimerHook.Timer.Tick | src/hooks/useTimer.js:40-71 | one interval callback: nothing happens unless the timer is running; the last second clears both flags at time 0 |
| TimerHook.Timer.FormatTime | src/hooks/useTimer.js:73-82 | the clock text of the remaining time reads back as exactly that time; its fields are the whole hours (only from one hour on), the minutes within the hour and the seconds within the minute, each zero-padded |
| TimerHook.Timer.IsCompleted | src/hooks/useTimer.js:100 | true exactly when the time is 0 and the timer is inactive; a completed timer is not counting down |
| TimerHook.Timer.Progress | src/hooks/useTimer.js:84-86 | 0 at the initial time, 100 at time 0, and within [0, 100] while the time lies between them |
| TimerHook.StartEffect | src/hooks/useTimer.js:11-14 | start keeps the time, sets active and unpaused, so a started timer is never completed, even at time 0 |
| TimerHook.PauseThenResume | src/hooks/useTimer.js:16-22 | pausing a running timer stops it counting; resuming restores exactly the running state |
| TimerHook.TickEffect | src/hooks/useTimer.js:41-57 | a tick happens only when running and then takes exactly one second off; from time <= 1 it completes the timer |
| TimerHook.NoTickAtZero | src/hooks/useTimer.js:41 | at time 0 a tick changes nothing |
| TimerHook.AddTimeEffect | src/hooks/useTimer.js:36-38 | addTime floors at 0 and does not cap at the initial time |
| TimerHook.ConsistentKept | src/hooks/useTimer.js:11-57 | every operation keeps the time non-negative, unless it is a negative initial time |
| TimerHook.CountdownCompletes | src/hooks/useTimer.js:40-71 | a started timer with t seconds is still running with t - n left after n < t ticks, and completed after exactly t ticks |
| TimerHook.ProgressBounds | src/hooks/useTimer.js:84-86 | progress is 0 at the initial time and 100 at zero; it lies in [0, 100] in between and grows as the time drops |
| TimerComponent.Toggled | src/components/Timer.jsx:37-45 | toggling keeps the time; the result is paused exactly when the timer was active and unpaused, and active unless it was paused while inactive |
| TimerComponent.Reaction | src/components/Timer.jsx:30-35 | one run of the completion effect makes one notification, first, followed by exactly one `onComplete` call when the callback is given and none otherwise |
| TimerComponent.ToggleTwice | src/components/Timer.jsx:37-45 | two toggles from running pause it and then restore the running state |
| TimerComponent.ToggleResumesOrStarts | src/components/Timer.jsx:40-43 | toggling a timer that is not counting down leaves it unpaused with its time; it becomes active unless it was paused while inactive, which `resume` leaves inactive |
| TimerComponent.PausedOnlyWhenActiveKept | src/components/Timer.jsx:37-53 | reset, toggle, the time controls and ticks keep every paused timer active |
| TimerComponent.RestartNoReaction | src/components/Timer.jsx:30-45 | toggling any completed timer (whose paused flag, as always in the component, implies active) starts it at zero: it is no longer completed, the effect makes no calls, and ticks leave it unchanged |
| TimerComponent.MinusStaysPositive | src/components/Timer.jsx:112-113 | the enabled minus control takes exactly 300 seconds off and leaves a positive time |
| TimerComponent.TimerView.constructor | src/components/Timer.jsx:8 | mounts with 1500 seconds by default; the effect reacts once if the initial time is 0 |
| TimerComponent.TimerView.Toggle | src/components/Timer.jsx:37-45 | the hook's new state is `Toggled` of the old; the effect reacts if the new state is completed |
| TimerComponent.TimerView.HandleReset | src/components/Timer.jsx:47-49 | the hook returns to its initial state |
| TimerComponent.TimerView.AddMinutes | src/components/Timer.jsx:51-53 | `addTime(minutes * 60)` |
| TimerComponent.TimerView.MinusFive | src/components/Timer.jsx:112-113 | callable only above 300 seconds; takes 300 seconds off, keeps the flags, and causes no reaction |
| TimerComponent.TimerView.PlusFive | src/components/Timer.jsx:129 | `addTime(300)` |
| TimerComponent.TimerView.Tick | src/hooks/useTimer.js:40-71 | the hook ticks; the effect reacts on the render that completes the timer |
| TimerComponent.RunOut | src/components/Timer.jsx:30-35 | a two-second timer with a callback, started and run out, notifies and calls back exactly once |
| TimerComponent.RestartCompleted | src/components/Timer.jsx:30-35 | one scenario: a timer mounted at zero reacts once on mount, and toggling and ticking it add no further calls |
| HelpersFormat.FormatTime | src/utils/helpers.js:4-13 | the text is made of digits and colons only, and below 100 hours it is 8 characters from one hour on and 5 below |
| HelpersFormat.FormatTimeRoundTrip | src/utils/helpers.js:4-13 | `formatTime` reads back as its input; its fields are the zero-padded whole hours (present exactly from one hour on), the minutes within the hour and the seconds within the minute; minutes and seconds have exactly two digits |
| HelpersFormat.FormatTimeExamples | src/utils/helpers.js:4-13 | 3661 gives "01:01:01", 65 gives "01:05", 5 gives "00:05" |
| HelpersFormat.DecodeThreeFields | src/utils/helpers.js:10 | an `HH:MM:SS` text reads as hours * 3600 + minutes * 60 + seconds |
| HelpersFormat.DecodeTwoFields | src/utils/helpers.js:12 | an `MM:SS` text reads as minutes * 60 + seconds |
| HelpersFormat.FormatDuration | src/utils/helpers.js:15-22 | at least two characters; ends in `h` exactly for a whole number of hours from 60 minutes on, otherwise in `m` (the full `{m}m` / `{h}h` / `{h}h {r}m` form is stated by the three Duration lemmas) |
| HelpersFormat.FormatDurationRoundTrip | src/utils/helpers.js:15-22 | `formatDuration` reads back as its input and has an hours field exactly from 60 minutes on |
| HelpersFormat.DurationUnderAnHour | src/utils/helpers.js:16-18 | below an hour the text is `{m}m` and reads back |
| HelpersFormat.DurationWholeHours | src/utils/helpers.js:19-21 | whole hours give `{h}h` and read back |
| HelpersFormat.DurationHoursAndMinutes | src/utils/helpers.js:19-21 | otherwise `{h}h {r}m`, which reads back |
| HelpersFormat.RoundDiv | src/utils/helpers.js:95 | `Math.round(n / d)`: the integer within half of the quotient, with halves rounded up |
| HelpersFormat.CalculateProgress | src/utils/helpers.js:93-96 | 0 for a missing or zero target; never above 100; 100 once the target is reached; otherwise exactly the rounded percentage when that is below 100, and 100 when it is not |
| HelpersFormat.RoundDivMonotone | src/utils/helpers.js:95 | for a positive divisor the rounded quotient never falls as the numerator grows |
| HelpersFormat.ProgressMonotone | src/utils/helpers.js:93-96 | for a positive target the progress never falls as the current amount grows |
| HelpersFormat.GetStudyLevel | src/utils/helpers.js:126-132 | the level's threshold (10/50/100/200) is at most the hours, and the next level's is above them |
| HelpersFormat.StudyLevelMonotone | src/utils/helpers.js:126-132 | more hours never give a lower level |
| HelpersValidation.ValidatePassword | src/utils/helpers.js:82-84 | holds iff the password is present with a JavaScript length (UTF-16 code units) of at least 6 |
| HelpersValidation.ValidateName | src/utils/helpers.js:86-90 | holds iff the name is present with a JavaScript length (UTF-16 code units) of 2 to 50 |
| HelpersValidation.LengthsCountCodeUnits | src/utils/helpers.js:82-90 | three characters beyond U+FFFF are a valid password and one is a valid name; "abc" and "a" are too short |
| Text.Utf16Length | src/utils/helpers.js:83 | JavaScript's `length`: between the number of characters and twice that, and equal to it exactly when no character lies beyond U+FFFF |
| HelpersValidation.IndexOf | src/utils/constants.js:122 | the position of the first occurrence of a character, or none when absent |
| HelpersValidation.ValidateEmail | src/utils/helpers.js:78-80 | a missing address is rejected; an accepted one contains `@` and is at least five characters long, as in `a@b.c` |
| HelpersValidation.ValidateEmailMatchesPattern | src/utils/constants.js:122 | the email check holds iff the text is local part, `@`, host, `.`, top-level part, each non-empty and free of whitespace and `@` |
| HelpersValidation.ValidEmailShape | src/utils/helpers.js:78-80 | an accepted email has no whitespace, exactly one `@`, and a split into local part, host and top-level part |
| HelpersValidation.ValidateEmailAccepts | src/utils/helpers.js:78-80 | "a@b.c" is accepted |
| HelpersValidation.ValidateEmailRejectsEmptyHost | src/utils/helpers.js:78-80 | "a@.c" is rejected |
| HelpersValidation.ValidateEmailRejectsSpace | src/utils/helpers.js:78-80 | "a b@c.d" is rejected |
| HelpersCollections.GroupBy | src/utils/helpers.js:196-203 | the groups' keys are exactly the items' keys, and each group holds the items with its key, in order |
| HelpersCollections.GroupMembers | src/utils/helpers.js:198-200 | an item is in group k iff it is an item whose key is k |
| HelpersCollections.GroupAppend | src/utils/helpers.js:197-202 | grouping keeps the original relative order |
| HelpersCollections.GroupSizesSum | src/utils/helpers.js:196-203 | the group sizes add up to the number of items |
| HelpersCollections.GroupMissingKey | src/utils/helpers.js:199 | a key no item has gets no group |
| HelpersCollections.Insert | src/utils/helpers.js:206-214 | inserting adds exactly the one item |
| HelpersCollections.InsertOrdered | src/utils/helpers.js:210-213 | inserting into an ordered list keeps it ordered |
| HelpersCollections.SortBy | src/utils/helpers.js:205-215 | the result is a permutation of the input, ascending by key, or descending for "desc" |
| HelpersStreak.CalculateStreak | src/utils/helpers.js:98-124 | the code as written: 0 for a missing list, otherwise the run of days today, today - 2, ... among the dates; never more than the number of dates |
| HelpersStreak.CalculateStreakConsecutive | src/utils/helpers.js:98-124 | the intended count: the run of consecutive days ending today |
| HelpersStreak.RunCharacterized | src/utils/helpers.js:110-121 | the run is k iff the k days walked back from today are all dates and the next one is not |
| HelpersStreak.StreakNeedsToday | src/utils/helpers.js:117-121 | when every date is before today the streak is 0 |
| HelpersStreak.RunBoundedByDates | src/utils/helpers.js:110-121 | the streak never exceeds the number of dates |
| HelpersStreak.StreakTodayAndYesterday | src/utils/helpers.js:117-119 | dates today and yesterday give 1 as written and 2 as intended |
| Text.ToDecimal | src/utils/helpers.js:10 | decimal rendering: digits only, reads back as the number, one digit exactly below 10, no leading zero |
| Text.PadTwo | src/screens/ReadingModeScreen.jsx:66-68 | two-digit zero padding: at least two digits, exactly two below 100, reads back as the number |
| Text.PadTwoIsPadStart | screens/ReadingScreen.js:68-70 | `formatNumber` is `padStart(2, '0')` of the decimal text |
| Text.PadStart | src/utils/helpers.js:10 | the text is kept at the end, the fill in front, up to the width |
| Cache.GenerateKey | src/services/cache.js:27-29 | the key is the prefix followed by the identifier, with nothing between them |
| Cache.GenerateKeyInjective | src/services/cache.js:27-29 | for a fixed prefix, keys of different identifiers differ |
| Cache.ProfileAndStatsKeysDiffer | src/utils/constants.js:137-138 | a profile key never equals a stats key |
| Cache.SetThenGet | src/services/cache.js:32-74 | a value set at t0 is read back while now - t0 <= ttl * 1000, and is gone after that |
| Cache.GetMissing | src/services/cache.js:61-65 | a missing key reads as null and changes nothing |
| Cache.ReadEffect | src/services/cache.js:66-74 | a read changes no other key's answer; it drops only the read key and only when that key is expired |
| Cache.RemovedEffect | src/services/cache.js:83-93 | delete removes only the given key |
| Cache.SweepEntries | src/services/cache.js:132-138 | reading several keys removes exactly the expired entries among them and keeps all others unchanged |
| Cache.SweepAnswers | src/services/cache.js:132-138 | reading several keys changes no key's answer |
| Cache.CleanedEffect | src/services/cache.js:231-240 | cleanup keeps exactly the live entries unchanged and changes no key's answer |
| Cache.StoredAllEntries | src/services/cache.js:141-145 | after setMultiple each key holds its last value in the list, stamped now; other keys are unchanged |
| Cache.StoredWellformed | src/services/cache.js:32-50 | set keeps the key order and the map in step |
| Cache.SweepWellformed | src/services/cache.js:132-138 | reading several keys keeps the key order and the map in step |
| Cache.CacheService.constructor | src/services/cache.js:4-9 | an empty cache |
| Cache.CacheService.Set | src/services/cache.js:32-50 | stores `{value, now, ttl * 1000}` under the key, replacing an older entry; ttl defaults to 3600 |
| Cache.CacheService.Get | src/services/cache.js:53-80 | returns the live value or null, and removes an expired entry |
| Cache.CacheService.Delete | src/services/cache.js:83-93 | removes the key |
| Cache.CacheService.Clear | src/services/cache.js:96-106 | empties the map |
| Cache.CacheService.Exists | src/services/cache.js:109-129 | true iff a live entry exists; removes an expired one |
| Cache.CacheService.GetMultiple | src/services/cache.js:132-138 | one answer per requested key, each that key's live value |
| Cache.CacheService.SetMultiple | src/services/cache.js:141-145 | sets every pair in order |
| Cache.CacheService.InvalidateUserCache | src/services/cache.js:218-224 | both the profile and the stats key of the user are gone, nothing else changes |
| Cache.CacheService.CleanupExpired | src/services/cache.js:231-240 | removes exactly the expired entries |
| Cache.CacheService.GetStats | src/services/cache.js:243-253 | reports "local", the stored keys in insertion order, and their number |
| Reading.ClockOf | src/screens/ReadingModeScreen.jsx:27-47 | the canonical hours, minutes and seconds of a total, with minutes and seconds in [0, 59] |
| Reading.CanonicalClock | src/screens/ReadingModeScreen.jsx:32-39 | fields with minutes and seconds in [0, 59] are the canonical fields of their total |
| Reading.TickCountsDown | src/screens/ReadingModeScreen.jsx:27-47 | while time remains a tick lowers the total by exactly one and keeps minutes and seconds in [0, 59] |
| Reading.TickAtZero | src/screens/ReadingModeScreen.jsx:40-43 | at 0:00:00 the fields stay at zero |
| Reading.ProgressSteps | src/screens/ReadingModeScreen.jsx:78-80 | progress is 0 at 0:25:00 and 100 at zero, and each tick adds 1/15 of a percent |
| Reading.Display | src/screens/ReadingModeScreen.jsx:125 | the display's three fields are the zero-padded hours, minutes and seconds, in that order; it reads back as the total and is 8 characters when every field is below 100 |
| Reading.ReadingTimer.WebScreen | src/screens/ReadingModeScreen.jsx:10-17 | the web screen starts at 0:25:00, inactive, with Biology then Math |
| Reading.ReadingTimer.NativeScreen | screens/ReadingScreen.js:13-20 | the native screen starts at 0:25:00, active, with Biology then Math |
| Reading.ReadingTimer.Tick | screens/ReadingScreen.js:30-49 | nothing happens while inactive; otherwise a tick with borrowing; at zero the timer deactivates; the field bounds are kept |
| Reading.ReadingTimer.Toggle | src/screens/ReadingModeScreen.jsx:55-57 | flips `isActive` only |
| Reading.ReadingTimer.Reset | screens/ReadingScreen.js:61-66 | 0:25:00 and inactive |
| Reading.ReadingTimer.HandleSubjectChange | src/screens/ReadingModeScreen.jsx:70-76 | the next subject becomes current, Chemistry comes next, and the timer resets |
| TodoList.ToggleTodo | src/screens/TodoListScreen.jsx:10-14 | same length and order; `completed` flips exactly on items with the id; nothing else changes |
| TodoList.ToggleTwice | src/screens/TodoListScreen.jsx:11-13 | toggling the same id twice restores the list |
| TodoList.FilterTodos | src/screens/TodoListScreen.jsx:16-20 | keeps exactly the items the filter accepts |
| TodoList.FilterAppend | src/screens/TodoListScreen.jsx:16-20 | filtering keeps the list order |
| TodoList.FilterKeepsAll | src/screens/TodoListScreen.jsx:19 | any filter other than completed or pending keeps the whole list |
| TodoList.PendingPlusDone | src/screens/TodoListScreen.jsx:50-62 | the pending count plus the done count is the total count |
| TodoList.GetSubjectInitial | src/screens/TodoListScreen.jsx:31-33 | the first character upper-cased, or "" for an empty subject |
| TodoList.InitialIdempotent | src/screens/TodoListScreen.jsx:31-33 | an initial is already upper case |
| TodoList.GetPriorityColor | src/screens/TodoListScreen.jsx:22-29 | high, medium and low get their fixed colours, anything else `#6B7280` |
| TodoList.PriorityColorsDistinct | src/screens/TodoListScreen.jsx:22-29 | the four colours differ, so the colour tells the priority class |

## Left out

- Real time: `setInterval` and `clearInterval`, effect cleanup and React's render scheduling. Each one-second interval callback is an explicit `Tick` operation. The component re-renders after each handled event that changes the hook's state.
- The hook's own `showNotification` call at the end of the countdown (src/hooks/useTimer.js:49-52) is left out and not recorded: `Timer.Tick` records no call. In the code, a tick that ends the countdown therefore sends two notifications, and the model records only the second. Only the component effect's `notifyTimerComplete` / `onComplete` calls are recorded, as `Call` values; their effects (browser notifications) are not modelled.
- Floating point: progress percentages are exact rationals (`real`). `calculateProgress` is modelled on integer amounts. The SVG circle geometry is not modelled.
- TimerHook.Timer.constructor: a non-positive initial time is accepted as in the code, so `Progress` requires `initialTime > 0`. The hook never rejects it.
- HelpersFormat.FormatTimeRoundTrip: negative or fractional seconds are outside the model, since `FormatTime` takes a natural number.
- TimerHook.Timer.FormatTime: requires `time >= 0`. A timer built with a negative initial time holds a negative time, and for it the code prints texts such as "-1:-5"; those are not modelled.
- HelpersFormat.GetStudyLevel: NaN or non-numeric hours are not modelled.
- HelpersValidation: JavaScript's `\s` is modelled as its fixed list of code points below U+10000. Strings are sequences of code points. The e-mail expression has no `u` flag, so JavaScript matches a character beyond U+FFFF as two code units. Neither unit is a space or `@`, so both readings accept the same strings. The length checks count UTF-16 code units through `Utf16Length`.
- HelpersValidation.ValidatePassword: values that are neither a string nor missing (numbers, objects) are not modelled. A missing value is `None`.
- HelpersCollections.GroupBy: JavaScript converts object keys to strings, so `1` and `"1"` share a group. The model keys groups by the key value itself.
- HelpersCollections.SortBy: the comparator never returns 0, so the order of items with equal keys depends on the engine. The model fixes one such order, and its contract promises only sortedness and permutation. Keys are integers. The copy leaves the input unchanged because Dafny sequences are values.
- HelpersStreak: `Date` arithmetic is replaced by integer day numbers. `today` is a parameter. Time zones and daylight-saving days are not modelled.
- TodoList.GetSubjectInitial: only ASCII letters are upper-cased. Unicode case mapping, including mappings to several characters, is not modelled.
- TodoList.GetSubjectInitial: for a subject whose first character lies beyond U+FFFF, `charAt(0)` returns a lone high surrogate (for "\U{1F600}x", the unit U+D83D), which a Dafny string cannot hold. The model returns the whole first character instead.
- TodoList: the display-only fields of a todo (times, day label) are left out. They take no part in any operation.
- Cache: the Redis branches are unreachable because the client is never connected, and are left out. So are `initializeRedis`, `warmUserCache`, the user and stats wrapper methods, and the periodic cleanup timer. The async methods are modelled as synchronous. Console logging is left out.
- Cache.CacheService.GetMultiple: the whole batch is read at one `now`.
- The rest of the repository is not part of this model:
  - the rendering screens and the static data;
  - `TimeTableScreen` and `TimeTable`;
  - the network API client;
  - the authentication context;
  - the notification hook;
  - the date, storage, randomness, debounce and browser helpers of src/utils/helpers.js.
- Reading: the `else if (!isActive && seconds !== 0)` branch of the effect runs whenever the timer is inactive with seconds left. It only clears `interval`, which is still null at that point, so it has no effect and is left out.
- TimerHook: `addTime` floors at 0 and has no upper cap; `stop` resets from any state.
- TimerHook.Timer.constructor: `initialTime` is a prop of the hook and may change between renders, changing what stop and reset go back to. The model fixes it when the timer is created.
- HelpersCollections.GroupBy: `groups[group] || []` finds inherited properties of a plain object. An item whose key is `constructor`, `toString`, `__proto__` or another `Object.prototype` name therefore makes the code throw a TypeError at `push`. The model builds that group like any other.
- HelpersFormat.CalculateProgress: the code computes `(current / target) * 100` in double precision, so an exact half can round down. `calculateProgress(57, 200)` computes 28.499999999999996 and gives 28, and (29, 200) gives 14. The model rounds the exact quotient and gives 29 and 15.
- HelpersFormat.FormatDurationRoundTrip: `FormatDuration` takes a natural number of minutes. The code also formats negative and fractional values, for example -5 as "-5m" and 90.5 as "1h 30.5m"; these are not modelled.
- Cache.CacheService.SetMultiple: it takes a list of key and value pairs. The code walks `Object.entries` of an object, which has no duplicate keys and lists integer-like keys first in ascending order. The model keeps the list's order and lets the last pair for a key win.

## Findings

| source | as written | input that shows it | evidently intended | confidence | as-written member | corrected member |
|---|---|---|---|---|---|---|
| src/utils/helpers.js:110-121 | the loop moves `currentDate` back one day on every match AND compares the day difference with the growing `streak`, so it counts today, today - 2, today - 4, ... | study dates today and yesterday give a streak of 1 | the number of consecutive study days ending today (2 here) | not executed | HelpersStreak.CalculateStreak | HelpersStreak.CalculateStreakConsecutive |
