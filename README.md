# TimerApp timer-list model

A Dafny model of the timer-list engine of TimerApp, a React Native countdown-timer
application. The application keeps an ordered list of timer records
(`id, name, duration, category, remainingTime, running, completed`). Its screens
rewrite that list in response to commands:

- start, pause, reset and mark-completed by id;
- a once-per-second `tick` that counts running timers down and raises a
  completion notice;
- start/pause/reset for every timer of one category;
- create (a validated append) and delete (a filter by id).

The model also covers the derived views: the category headers and their counts,
the expansion flags, the "MM:SS" formatter, and the row component's status label
and button-enable rules.

Layout:

- `timer.dfy`: `TimerModel` has the record, the bounds invariant
  `0 <= remainingTime <= duration` and the record updates. `Wrappers` holds `Option`.
- `timer_ops.dfy`: `TimerOps` has the list transforms. Each handler runs a
  `timers.map(...)` or `timers.filter(...)` over the current list. This module
  also holds the tick loop `RunTick` and the load decision.
- `categories.dfy`: `CategoryView` has the headers, the counts, the expanded rows
  and the expansion toggle.
- `decimal.dfy`, `time_format.dfy`: `Decimal` and `TimeFormat` hold
  `toString`, `padStart` and `formatTime`.
- `timer_form.dfy`: `TimerForm` has the creation form, `parseInt(text) || 0` and
  `createTimer`.
- `timer_view.dfy`: `TimerView` has the status label and button rules of the
  row component.
- `list_screen.dfy`, `test_timer.dfy`, `add_timer_screen.dfy`: one class per
  component (`TimerListScreen`, `TestTimer`, `AddTimerScreen`). The class fields
  are the component's state hooks. Each handler is a method that overwrites those
  fields (every method frames the exact fields it writes with ``modifies this`field``).
  The source repeats the same logic in each component; the model defines it once
  in the modules above, and each class method cites its own copy.
- `lifecycle.dfy`: `Lifecycle` has a create → start → tick scenario that combines
  the pieces.

In several places the code does not do what one might expect of a countdown timer
(a timer at zero marked completed, a rejected form explained). The model follows
the code:

- `createTimer` silently does nothing on a bad form. It returns no rejection reason.
- Bulk start has no completed check, so a completed timer can end up both running
  and completed. Per-id start does have the check.
- Pause clears `running` even on a completed timer.
- The tick's list write does not set `completed`. A timer that reaches zero stays
  running, so its status label stays "Running". In TestTimer.js its time then shows as "00:00"
  (see `Lifecycle.CountdownScenario`).
- Ids are not proved unique. They come from the clock, and the model takes them as
  a parameter.

## Model

| member | source | states |
|---|---|---|
| `TimerOps.StartTimer` | src/screens/TimerListScreen/TimerListScreen.tsx:62-66 | same length. A record starts running only if it has the id and is not completed. Every other record is unchanged. No field other than `running` ever changes. |
| `TimerOps.PauseTimer` | src/screens/TimerListScreen/TimerListScreen.tsx:68-72 | records with the id stop running, whether or not they are completed. Nothing else changes. |
| `TimerOps.ResetTimer` | src/screens/TimerListScreen/TimerListScreen.tsx:74-78 | records with the id end at `remainingTime == duration`, not running, not completed, whatever their prior state. Their id, name, duration and category are kept. Other records are unchanged. |
| `TimerOps.ResetIdempotent` | src/screens/TimerListScreen/TimerListScreen.tsx:74-78 | resetting an id twice equals resetting it once |
| `TimerOps.MarkCompleted` | src/screens/TimerListScreen/TimerListScreen.tsx:80-84 | records with the id end at zero, not running, completed. Other records are unchanged. |
| `TimerOps.CommandsKeepBounds` | src/screens/TimerListScreen/TimerListScreen.tsx:62-84 | start, pause, reset and mark-completed keep `0 <= remainingTime <= duration` for every record |
| `TimerOps.CommandsKeepExclusive` | src/screens/TimerListScreen/TimerListScreen.tsx:62-84 | those four commands never make a record both running and completed, because per-id start skips completed records |
| `TimerOps.TickMap` | src/screens/TimerListScreen/TimerListScreen.tsx:87-98 | same length and order; ids, names, durations, categories and both flags are kept. Running records with time left lose exactly 1. Every other record is returned unchanged. A non-negative remaining time stays non-negative. |
| `TimerOps.TickKeepsBounds` | src/screens/TimerListScreen/TimerListScreen.tsx:86-99 | a tick preserves `0 <= remainingTime <= duration` for every record |
| `TimerOps.Completions` | src/screens/TimerListScreen/TimerListScreen.tsx:88-90 | the records whose notice a tick raises are exactly the listed records that are running with 1 second left |
| `TimerOps.ReachesZeroIffNotice` | src/screens/TimerListScreen/TimerListScreen.tsx:88-93 | a record goes from non-zero to zero in a tick exactly when it is running with 1 second left, and it is then among the notices |
| `TimerOps.NoticeSnoc` | src/screens/TimerListScreen/TimerListScreen.tsx:87-98 | one more record adds itself to the notices exactly when it finishes now, and then its name becomes the notice name |
| `TimerOps.RunTick` | src/screens/TimerListScreen/TimerListScreen.tsx:86-99 | the loop over the list yields the ticked list. The notice name ends as the last finishing record's, else the previous name. The notice becomes visible exactly when some record finishes. |
| `TimerOps.NoticeName` | src/screens/TimerListScreen/TimerListScreen.tsx:90-93 | the notice name after a tick is either the previous name or the name of a record in the list that is running with 1 second left |
| `TimerOps.NoticeNameIsLast` | src/screens/TimerListScreen/TimerListScreen.tsx:90-93 | with several finishing records, the notice name is that of the last one in list order |
| `TimerOps.NoticeNameKept` | src/screens/TimerListScreen/TimerListScreen.tsx:90-93 | when no record finishes, no notice is raised and the previous name stays |
| `TimerOps.AnyRunning` | src/screens/TimerListScreen/TimerListScreen.tsx:104 | `timers.some(timer => timer.running)`: some record is running. It has no contract of its own; `IdleTickIsNoOp` states what follows when it is false. |
| `ListScreen.TimerListScreen.IntervalArmed` | src/screens/TimerListScreen/TimerListScreen.tsx:104 | the interval is armed exactly when `AnyRunning` holds of the screen's current list. No contract of its own. |
| `TimerOps.IdleTickIsNoOp` | src/screens/TimerListScreen/TimerListScreen.tsx:104-106 | with no running timer (the interval is not armed), a tick changes nothing and raises no notice |
| `TimerOps.TicksCountDown` | src/screens/TimerListScreen/TimerListScreen.tsx:86-99 | over `k` ticks with no other command, a running record's remaining time becomes `max(r - k, 0)`. Every other field stays as it was. |
| `TimerOps.NoticeExactlyOnce` | src/screens/TimerListScreen/TimerListScreen.tsx:90-93 | a running record with `n >= 1` seconds left raises its notice in tick `n` and in no other tick |
| `TimerOps.BulkAction` | src/screens/TimerListScreen/TimerListScreen.tsx:119-131 | only records of the category change. `start` sets running with no completed check, `pause` clears running, and `reset` leaves the reset state. Any other action returns the list unchanged. Ids, names, durations and categories are always kept. |
| `TimerOps.BulkResetIdempotent` | src/component/TestTimer.js:121-133 | bulk reset of a category twice equals once |
| `TimerOps.BulkResetIsReset` | src/screens/TimerListScreen/TimerListScreen.tsx:125 | on each record of the category, bulk reset gives what `resetTimer` on that record's id gives |
| `TimerOps.BulkKeepsBounds` | src/screens/TimerListScreen/TimerListScreen.tsx:119-131 | every bulk action preserves `0 <= remainingTime <= duration` |
| `TimerOps.BulkStartRunsCompleted` | src/screens/TimerListScreen/TimerListScreen.tsx:123 | bulk start on a completed record makes it running and completed at once, while per-id start leaves the same record unchanged |
| `TimerOps.DeleteTimer` | src/component/TestTimer.js:58-60 | a record survives exactly when its id differs. If no record has the id, the list is unchanged. |
| `TimerOps.DeleteConcat` | src/component/TestTimer.js:58-60 | delete distributes over concatenation, so the survivors keep their original order |
| `TimerOps.DeleteIdempotent` | src/component/TestTimer.js:58-60 | deleting an id twice equals deleting it once |
| `TimerOps.AfterLoad` | src/screens/TimerListScreen/TimerListScreen.tsx:31-43 | the list is replaced only when a non-empty stored value parsed. An absent value, an empty string, a parse failure or a read failure leave the list as it was. |
| `CategoryView.UniqueCategories` | src/screens/TimerListScreen/TimerListScreen.tsx:142 | the headers have no duplicates, and a category is listed exactly when some record carries it. The same expression is at src/component/TestTimer.js:165. |
| `CategoryView.UniqueCategoriesPrefix` | src/screens/TimerListScreen/TimerListScreen.tsx:142 | the headers of each prefix of the list are a prefix of the headers of the whole list, which means first-seen order |
| `CategoryView.InCategory` | src/screens/TimerListScreen/TimerListScreen.tsx:162 | the rows under a header are exactly the records of that category. They are never more than the list holds. The same filter is at src/component/TestTimer.js:183. |
| `CategoryView.InCategoryConcat` | src/screens/TimerListScreen/TimerListScreen.tsx:162 | filtering distributes over concatenation, as `filter` does, so the rows keep list order and multiplicity |
| `CategoryView.CountFor` | src/screens/TimerListScreen/TimerListScreen.tsx:149 | the header count is at most the list's length, and it is zero exactly when no record carries the category. The same count is at src/component/TestTimer.js:171. |
| `CategoryView.CountForSnoc` | src/screens/TimerListScreen/TimerListScreen.tsx:149 | appending a record raises its own category's count by one and no other count |
| `CategoryView.HeaderIffCounted` | src/screens/TimerListScreen/TimerListScreen.tsx:149 | a category has a header exactly when its count is positive |
| `CategoryView.SumCountsSnoc` | src/screens/TimerListScreen/TimerListScreen.tsx:149 | over distinct headers, appending a record adds one to the total exactly when its category is among them |
| `CategoryView.CountsPartitionList` | src/screens/TimerListScreen/TimerListScreen.tsx:142-149 | together, the header counts count every record exactly once |
| `CategoryView.IsExpanded` | src/screens/TimerListScreen/TimerListScreen.tsx:150-160 | how `expandedCategories[category]` reads as a condition. A stored flag decides. A missing key is collapsed (`undefined`), except a name inherited from `Object.prototype` (`constructor`, `toString`, `__proto__` and the rest), which reads truthy. No contract of its own; `FirstToggle` states the consequence. The same lookups are at src/component/TestTimer.js:172 and :181. |
| `CategoryView.ToggleExpansion` | src/component/TestTimer.js:117-119 | the toggled key is stored as the negation of how it read. Every other key is unchanged. |
| `CategoryView.FirstToggle` | src/screens/TimerListScreen/TimerListScreen.tsx:115-117 | a header starts collapsed and its first tap expands it. A header named after an inherited `Object.prototype` property starts expanded instead, and its first tap collapses it. |
| `CategoryView.ToggleTwice` | src/screens/TimerListScreen/TimerListScreen.tsx:115-117 | toggling a header twice leaves every header as expanded as it was |
| `CategoryView.VisibleRows` | src/screens/TimerListScreen/TimerListScreen.tsx:160-162 | an expanded header shows exactly the filtered rows of its category, in list order (`InCategory`), as many as its count. A collapsed one shows none. The same rendering is at src/component/TestTimer.js:181-183. |
| `Decimal.NatToString` | src/component/TestTimer.js:114 | the rendering is non-empty, all digits, with no leading zero |
| `Decimal.IntToString` | src/component/TestTimer.js:114 | the rendering is non-empty: digits for a non-negative number, a minus sign then digits otherwise |
| `Decimal.NatToStringValue` | src/component/TestTimer.js:114 | reading the decimal rendering back gives the number |
| `Decimal.NatToStringLength` | src/component/TestTimer.js:114 | the rendering has one digit exactly below 10, and two digits exactly from 10 to 99 |
| `Decimal.LeadingZero` | src/component/TestTimer.js:114 | a leading `'0'` from padding does not change a digit string's value |
| `TimeFormat.PadStart2` | src/component/TestTimer.js:114 | the result has length `max(2, |s|)` and ends with `s`; everything before `s` is `'0'` |
| `TimeFormat.PaddedValue` | src/component/TestTimer.js:114 | a two-place zero-padded rendering is all digits and reads back as the number |
| `TimeFormat.JsRemainder` | src/component/TestTimer.js:113 | JavaScript's truncating `%`: the remainder takes the sign of the dividend. No contract of its own; `FormatTimeShape` states its value for `s >= 0`. |
| `TimeFormat.FormatTime` | src/component/TestTimer.js:111-115 | `formatTime`: padded minutes, ":", padded seconds. No contract of its own; its properties are the next three rows. |
| `TimeFormat.FormatTimeShape` | src/component/TestTimer.js:111-115 | for `s >= 0`, the result is at least five characters: at least two digits worth `s / 60`, then ":", then exactly two digits worth `s % 60` |
| `TimeFormat.FormatTimeLength` | src/component/TestTimer.js:111-115 | for `s >= 0`, the result has exactly 5 characters if and only if `s < 6000` |
| `TimeFormat.ReadClockFormatTime` | src/component/TestTimer.js:111-115 | round trip: reading "MM:SS" back gives `min * 60 + sec == s` |
| `TimerForm.SkipSpace` | src/screens/AddTimerScreen/AddTimerScreen.tsx:86 | the result is a suffix of the text and does not start with white space. Everything dropped before it is white space. |
| `TimerForm.DigitPrefix` | src/screens/AddTimerScreen/AddTimerScreen.tsx:86 | the result is the longest prefix made of digits of the base |
| `TimerForm.ParseMagnitude` | src/screens/AddTimerScreen/AddTimerScreen.tsx:86 | a parsed magnitude is never negative |
| `TimerForm.ParseInt` | src/screens/AddTimerScreen/AddTimerScreen.tsx:86 | `parseInt(text)` with no radix gives NaN for blank text, and a negative number only when a minus sign follows the leading white space |
| `TimerForm.SkipLeadingSpace` | src/screens/AddTimerScreen/AddTimerScreen.tsx:86 | `parseInt` skips all leading white space and line terminators, and stops at the first other character |
| `TimerForm.DigitPrefixStops` | src/screens/AddTimerScreen/AddTimerScreen.tsx:86 | digits of the base are read up to, and not including, the first character that is not one |
| `TimerForm.ParseIntSigned` | src/screens/AddTimerScreen/AddTimerScreen.tsx:86 | after the white space, a leading `-` negates the magnitude read from the rest, a leading `+` is dropped, and NaN stays NaN |
| `TimerForm.SignedRead` | src/screens/AddTimerScreen/AddTimerScreen.tsx:86 | once the white space is skipped, an optional sign is taken off before the magnitude is read |
| `TimerForm.UnsignedRead` | src/screens/AddTimerScreen/AddTimerScreen.tsx:86 | with no sign after the white space, the rest is read as the magnitude |
| `TimerForm.SignRead` | src/screens/AddTimerScreen/AddTimerScreen.tsx:86 | a `-` after the white space negates the magnitude read from the rest, and a `+` leaves it as it is |
| `TimerForm.DecimalDigitsRead` | src/screens/AddTimerScreen/AddTimerScreen.tsx:86 | decimal digits followed by a non-digit are read as their value, with leading zeros allowed, unless the text is a lone `0` followed by `x` or `X` |
| `TimerForm.HexDigitsRead` | src/screens/AddTimerScreen/AddTimerScreen.tsx:86 | `0x` or `0X` and hexadecimal digits, followed by a non-hexadecimal character, are read as the hexadecimal value |
| `TimerForm.ParseIntDecimal` | src/screens/AddTimerScreen/AddTimerScreen.tsx:86 | text such as `"025"`, `" 7"`, `"25."`, `"12abc"`, `"+5"` or `"-3"` (white space, an optional sign, decimal digits, then anything that is not a digit) parses to the signed value of the digits |
| `TimerForm.ParseIntHex` | src/screens/AddTimerScreen/AddTimerScreen.tsx:86 | text such as `"0x1A"` or `" -0XfF!"` (white space, an optional sign, `0x` or `0X`, hexadecimal digits, then anything that is not one) parses to the signed hexadecimal value |
| `TimerForm.DurationFromText` | src/screens/AddTimerScreen/AddTimerScreen.tsx:86 | `parseInt(text) \|\| 0`: a parsed number is kept as it is, and NaN becomes 0 |
| `TimerForm.NoLeadingDigitIsNaN` | src/screens/AddTimerScreen/AddTimerScreen.tsx:86 | unsigned text that does not start with a digit parses to NaN |
| `TimerForm.NoDigitReadsZero` | src/screens/AddTimerScreen/AddTimerScreen.tsx:86 | `parseInt(text) \|\| 0` is 0 for text with no decimal digit |
| `TimerForm.AllDigitsPrefix` | src/screens/AddTimerScreen/AddTimerScreen.tsx:86 | an all-digit text is read in full |
| `TimerForm.DecimalMagnitude` | src/screens/AddTimerScreen/AddTimerScreen.tsx:86 | the unsigned decimal rendering of `n` parses back to `n` |
| `TimerForm.DurationTextRoundTrip` | src/screens/AddTimerScreen/AddTimerScreen.tsx:85-86 | the field shows `duration.toString()`, and parsing that text gives the same duration back |
| `TimerForm.WithName` | src/screens/AddTimerScreen/AddTimerScreen.tsx:79 | the name becomes the text. Duration and category are kept. |
| `TimerForm.WithDurationText` | src/component/TestTimer.js:150 | the duration becomes the parsed text. Name and category are kept. |
| `TimerForm.WithCategory` | src/screens/AddTimerScreen/AddTimerScreen.tsx:19-21 | the category becomes the selection. Name and duration are kept. |
| `TimerForm.Accepts` | src/screens/AddTimerScreen/AddTimerScreen.tsx:53 | the create guard: a non-empty name and a positive duration. No contract of its own; `CreateTimer` states what it decides. |
| `TimerForm.CreateTimer` | src/screens/AddTimerScreen/AddTimerScreen.tsx:52-66 | an empty name or a duration `<= 0` leaves the list and the form unchanged. Otherwise exactly one record is appended at the end, earlier records are unchanged, and the form goes blank. The new record has the given id plus the form's name, duration and category, with `remainingTime == duration`, not running and not completed. |
| `TimerForm.CreateKeepsBounds` | src/component/TestTimer.js:42-56 | creation preserves the bounds invariant and the running/completed exclusion |
| `TimerForm.CategoryNotValidated` | src/screens/AddTimerScreen/AddTimerScreen.tsx:53 | acceptance does not depend on the category. For every list and id, an accepted form whose category is not one of the picker's choices (such as the "" left when nothing was picked) creates a record with that category. |
| `TimerForm.NonNumericDurationRejected` | src/screens/AddTimerScreen/AddTimerScreen.tsx:86 | a duration typed with no digit is stored as 0, so for every list and id create leaves the list and the form unchanged |
| `TimerView.StatusLabel` | src/component/TimerComponent/Timer.tsx:23 | "Completed" exactly when completed (running or not). "Running" exactly when running and not completed. "Paused" exactly when neither flag is set. The same ternary is at src/component/TestTimer.js:199. |
| `TimerView.StartDisabled` | src/component/TimerComponent/Timer.tsx:44 | Start is disabled while running or once completed. No contract of its own; `StartEnabledIffEffective` states what it means. The same prop is at src/component/TestTimer.js:195. |
| `TimerView.PauseDisabled` | src/component/TimerComponent/Timer.tsx:51 | Pause is disabled unless running. No contract of its own; `PauseEnabledIffEffective` states what it means. The same prop is at src/component/TestTimer.js:196. |
| `TimerView.StartEnabledIffEffective` | src/component/TimerComponent/Timer.tsx:44 | Start, disabled exactly when `running \|\| completed`, is enabled exactly when pressing it changes the record. The same rule at src/component/TestTimer.js:195. |
| `TimerView.PauseEnabledIffEffective` | src/component/TimerComponent/Timer.tsx:51 | Pause, disabled exactly when `!running`, is enabled exactly when pressing it changes the record. The same rule at src/component/TestTimer.js:196. |
| `TimerView.ResetAlwaysAvailable` | src/component/TimerComponent/Timer.tsx:53-57 | Reset has no disabled state. Pressing it from any state leaves the row "Paused" at full time. Same button at src/component/TestTimer.js:197. |
| `TimerView.StatusAfterCommands` | src/component/TimerComponent/Timer.tsx:23 | the label after each command: start gives "Running" unless completed, pause gives "Paused" unless completed, mark-completed gives "Completed". A bulk-started completed record shows "Completed" while running. Same label at src/component/TestTimer.js:199. |
| `Lifecycle.CountdownScenario` | src/component/TestTimer.js:42-199 | a created and started timer of `d` seconds raises its notice in tick `d` only. After `d` ticks it is at zero, still running and not completed. Its status label reads "Running", and the screen's own `formatTime` renders its time as "00:00". |
| `ListScreen.TimerListScreen.constructor` | src/screens/TimerListScreen/TimerListScreen.tsx:23-27 | the initial state: empty list, no expanded header, no notice |
| `ListScreen.TimerListScreen.LoadTimers` | src/screens/TimerListScreen/TimerListScreen.tsx:31-43 | the list becomes the load decision's result, and the refresh flag ends lowered |
| `ListScreen.TimerListScreen.StartTimer` | src/screens/TimerListScreen/TimerListScreen.tsx:62-66 | only `timers` changes, into the started list. Bounds and exclusion are kept. |
| `ListScreen.TimerListScreen.PauseTimer` | src/screens/TimerListScreen/TimerListScreen.tsx:68-72 | only `timers` changes, into the paused list. Bounds are kept. |
| `ListScreen.TimerListScreen.ResetTimer` | src/screens/TimerListScreen/TimerListScreen.tsx:74-78 | only `timers` changes, into the reset list. Bounds are kept. |
| `ListScreen.TimerListScreen.MarkCompleted` | src/screens/TimerListScreen/TimerListScreen.tsx:80-84 | only `timers` changes, into the completed list. Bounds are kept. |
| `ListScreen.TimerListScreen.Tick` | src/screens/TimerListScreen/TimerListScreen.tsx:86-99 | `timers`, the notice name and the notice flag become the tick's results. Bounds are kept. Nothing else changes. |
| `ListScreen.TimerListScreen.ToggleCategoryExpansion` | src/screens/TimerListScreen/TimerListScreen.tsx:115-117 | only the expansion flags change, by the toggle |
| `ListScreen.TimerListScreen.HandleBulkAction` | src/screens/TimerListScreen/TimerListScreen.tsx:119-131 | only `timers` changes, by the bulk action. Bounds are kept. |
| `ListScreen.TimerListScreen.CloseModal` | src/screens/TimerListScreen/TimerListScreen.tsx:193 | the notice is hidden |
| `TestTimerScreen.TestTimer.constructor` | src/component/TestTimer.js:7-11 | the initial state: empty list, blank form, no expanded header, no notice |
| `TestTimerScreen.TestTimer.LoadTimers` | src/component/TestTimer.js:15-24 | the list becomes the load decision's result |
| `TestTimerScreen.TestTimer.CreateTimer` | src/component/TestTimer.js:42-56 | the list and the form become the create result, and bounds are kept |
| `TestTimerScreen.TestTimer.DeleteTimer` | src/component/TestTimer.js:58-60 | only `timers` changes, by delete, and bounds are kept |
| `TestTimerScreen.TestTimer.StartTimer` | src/component/TestTimer.js:62-66 | only `timers` changes, into the started list |
| `TestTimerScreen.TestTimer.PauseTimer` | src/component/TestTimer.js:68-72 | only `timers` changes, into the paused list |
| `TestTimerScreen.TestTimer.ResetTimer` | src/component/TestTimer.js:74-78 | only `timers` changes, into the reset list |
| `TestTimerScreen.TestTimer.MarkCompleted` | src/component/TestTimer.js:80-84 | only `timers` changes, into the completed list |
| `TestTimerScreen.TestTimer.Tick` | src/component/TestTimer.js:86-99 | `timers`, the notice name and the notice flag become the tick's results |
| `TestTimerScreen.TestTimer.ToggleCategoryExpansion` | src/component/TestTimer.js:117-119 | only the expansion flags change, by the toggle |
| `TestTimerScreen.TestTimer.HandleBulkAction` | src/component/TestTimer.js:121-133 | only `timers` changes, by the bulk action |
| `TestTimerScreen.TestTimer.OnNameText` | src/component/TestTimer.js:143 | only the form changes: its name becomes the text |
| `TestTimerScreen.TestTimer.OnDurationText` | src/component/TestTimer.js:150 | only the form changes: its duration becomes the parsed text |
| `TestTimerScreen.TestTimer.OnCategoryText` | src/component/TestTimer.js:156 | only the form changes: its category becomes the text |
| `TestTimerScreen.TestTimer.CloseModal` | src/component/TestTimer.js:219 | the notice is hidden |
| `AddScreen.AddTimerScreen.constructor` | src/screens/AddTimerScreen/AddTimerScreen.tsx:14-15 | the initial state: empty list, blank form |
| `AddScreen.AddTimerScreen.LoadTimers` | src/screens/AddTimerScreen/AddTimerScreen.tsx:25-34 | the list becomes the load decision's result |
| `AddScreen.AddTimerScreen.HandleCategorySelection` | src/screens/AddTimerScreen/AddTimerScreen.tsx:19-21 | only the form's category changes |
| `AddScreen.AddTimerScreen.OnNameText` | src/screens/AddTimerScreen/AddTimerScreen.tsx:79 | only the form's name changes |
| `AddScreen.AddTimerScreen.OnDurationText` | src/screens/AddTimerScreen/AddTimerScreen.tsx:86 | only the form's duration changes, to the parsed text |
| `AddScreen.AddTimerScreen.CreateTimer` | src/screens/AddTimerScreen/AddTimerScreen.tsx:52-66 | the list and the form become the create result, and bounds are kept |

## Left out

- Storage and JSON: `AsyncStorage.getItem` and `setItem`, `JSON.stringify` and `JSON.parse`, and the save-on-every-change effect are asynchronous I/O through foreign libraries. Load is modelled only as its decision over an outcome passed in (`LoadOutcome`). Save is not modelled.
- Interval scheduling and React's update order: `setInterval`, `clearInterval` and `useEffect` are not modelled. Only the arming condition is kept (`TimerListScreen.IntervalArmed`, `TimerOps.AnyRunning`).
- Inside `tick`, the callback also calls `markCompleted` on the same stale list. The model takes the order in which the state writes were issued: the outer `setTimers` comes last and wins. Another ordering by React's batching is not modelled, so the model never claims that a tick sets `completed`.
- Clock ids: `Date.now()` ids become the `now` and `id` parameters, and their uniqueness is not claimed.
- The progress bar's `remainingTime / duration` is floating-point arithmetic and is not modelled.
- UI and navigation are not modelled: routing in App.tsx, `navigation.push` and `navigate`, the category picker's modal widget, the platform button wrapper, `StyleSheet` blocks and the notice's chrome. Also out: `handleCancel`, which is empty, and TestTimer's `editingTimer` and `updateTimer`; the latter is referenced but never defined.
- The `formatTime` that Timer.tsx imports from `utils/formatTime` is not part of this model. `TimeFormat.FormatTime` follows the TestTimer.js version.
- The duration unit (minutes as the placeholder says, or seconds as the code comment says) is not resolved. The model takes the stored number as seconds.
- Numbers are unbounded integers. JavaScript's double precision is not modelled: it affects `parseInt` above 2^53 and `toString` of very large values, which uses exponent notation. TestTimer.js's `parseInt(newTimer.duration)` on an already integral duration is therefore the identity.
- `CategoryView.ToggleExpansion` and `CategoryView.VisibleRows`: only the built-in `Object.prototype` names are modelled as inherited keys. Properties added to `Object.prototype` at run time are not.
- `TimeFormat.JsRemainder`, `TimeFormat.FormatTime`: their value is stated only for a non-negative number of seconds. A negative time cannot arise from the list operations when the bounds invariant holds.
- `TimerForm.ParseMagnitude`: its contract gives only the sign of the result. Its value is stated through `DecimalDigitsRead`, `HexDigitsRead`, `DecimalMagnitude` and `NoLeadingDigitIsNaN`.
- `TimerForm.ParseInt`: its own contract gives only NaN for blank text and where a negative result can come from. The parsed value is stated by `ParseIntDecimal` and `ParseIntHex`, and NaN for text without a leading digit by `NoLeadingDigitIsNaN`.
- `TimerOps.AfterLoad`: parse success is an input. The model does not state which blobs `JSON.parse` accepts.
