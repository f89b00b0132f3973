# Time tracker core, modelled and verified in Dafny

The time tracker is a single-page app. The user creates activities that have a target number
of hours and adds time to them, typed in as "1:30", "1.5" or "1,5". Each addition is
logged in a history of at most 100 entries. Activities and entries are deleted by swiping a row
left and confirming. This project models the logic under the page's plumbing:

- `parseTimeInput` and the part of `parseFloat` it relies on;
- `formatHours`;
- the day label of `formatDate`;
- the store of activities and history, with its four commands and the `createdAt` migration on load;
- the progress bar and the names shown for history rows;
- the swipe-to-delete state machine of both lists.

Modules, one file each:

| file | module | what it holds |
|---|---|---|
| `wrappers.dfy` | `Wrappers` | `Option` |
| `js_text.dfy` | `JsText` | `trim`, the ECMAScript white space set, digits, `${n}` for integers |
| `js_math.dfy` | `JsMath` | `Math.abs` on integers |
| `numbers.dfy` | `Numbers` | `parseFloat` as a recogniser of a decimal prefix; NaN is `None`, and the fallback to 0 is `OrZero` |
| `time_text.dfy` | `TimeText` | `parseTimeInput`; `formatHours` with a reader that inverts it; the day bucket of `formatDate` |
| `tracker.dfy` | `Tracker` | activities, entries, the store; each handler as a function from the old store to the new; invariants; sessions of commands; the migration |
| `render.dfy` | `Render` | percentage, "low" mark, bar width and label; the name fallbacks of history rows and delete prompts |
| `store.dfy` | `App` | class `TimeTracker`: the page's global variables and the handlers that update them in place; the four command handlers are each proved equal to their `Tracker` function, and the dialog handlers state the new variables directly |
| `swipe.dfy` | `Swipe` | the move and release decisions; class `SwipeController`, the variables one list shares among all its rows |

Conventions:

- **Hours** are `real`.
- **Timestamps** are integer milliseconds.
- **Ids and clock values** come from `Date.now()` in the app. Here they are parameters of the handlers.
- **Pending ids** (`currentActivityId`, `deleteActivityId`, `deleteHistoryId`) are strings, with `""` for `null`. Every guard in the code tests them for falsiness, and `""` and `null` are both falsy.
- **Touch coordinates** are integers.
- **The migration clock**: the app calls `new Date()` once for each activity it stamps (app.js:150). The model stamps every activity of one load with the same `now`, which differs from the app by at most the time the loop takes.

The name a history row shows for an entry (app.js:553-554) is the live activity's name when the activity still exists, then the name stored in the entry when it is not empty, then the placeholder "Удаленная активность". The prompt for deleting an entry (app.js:270-271) shows the live name or the placeholder "Неизвестная активность".

## Model

| member | source | states |
|---|---|---|
| `JsText.TrimEmptyIffBlank` | app.js:53 | `trim` gives the empty string exactly when the input is all white space, so such input reads as no time |
| `JsText.TrimIdempotent` | app.js:283-286 | trimming twice is trimming once: the handler trims, then `parseTimeInput` trims again |
| `Numbers.ParseFloatTrimStart` | app.js:60-61 | `parseFloat` skips leading white space: it reads the literal at the start of the text's `trimStart` |
| `Numbers.ParseFloatNeedsDigit` | app.js:66 | `parseFloat` yields a number only for a text that holds a digit |
| `Numbers.ParseFloatNotNumber` | app.js:66 | a text whose first non-space character cannot begin a literal is NaN |
| `Numbers.ParseNumeral` | app.js:60-61 | a rendered natural number followed by text that cannot continue a literal parses to that number: a longest-prefix read |
| `Numbers.ParseFraction` | app.js:66 | "W.D" parses to W plus the decimal fraction D |
| `Numbers.ParseNegativeNumeral` | app.js:66 | "-n" parses to -n |
| `TimeText.BeforeColon` | app.js:59-61 | `split(':')[0]`: the longest prefix without a colon, followed by a colon or the end |
| `TimeText.ParseTimeInputBlank` | app.js:53 | empty or white-space input reads as 0 |
| `TimeText.ParseTimeInputTrim` | app.js:55 | reading trims first, so trimmed and untrimmed input read alike |
| `TimeText.ParseTimeInputCommaAsPoint` | app.js:55 | commas and points read alike: the input with its commas made points reads as the input |
| `TimeText.ParseTimeInputFields` | app.js:55-62 | for any trimmed, comma-free text "A:B…", the reading is `parseFloat(A)`, or 0 when it is NaN, plus `parseFloat(B)`, or 0 when it is NaN, in sixtieths, B being the text up to the next colon |
| `TimeText.ParseTimeInputNumber` | app.js:65-66 | trimmed, comma-free input without a colon reads as `parseFloat` of it, or 0 when that is NaN |
| `TimeText.ParseTimeInputWholeHours` | app.js:65-66 | a plain natural number such as "2" or "10" reads as that many hours |
| `TimeText.ParseTimeInputClock` | app.js:58-62 | "H:M" with rendered naturals reads as H + M/60 |
| `TimeText.ParseTimeInputHoursOnly` | app.js:58-62 | "H:" reads as H: the missing minutes default to 0 |
| `TimeText.ParseTimeInputDecimal` | app.js:55-66 | "W.D" and "W,D" both read as W plus the decimal fraction D |
| `TimeText.ParseTimeInputNotNumeric` | app.js:66 | input without a colon whose first character cannot begin a number reads as 0 |
| `TimeText.ParseTimeInputWord` | app.js:66 | a trimmed word without a colon that cannot begin a number reads as 0 |
| `TimeText.ParseTimeInputNeedsDigit` | app.js:52-67 | a non-zero reading needs a digit in the input, in either field of the colon form as well |
| `TimeText.ExampleClock` | app.js:51 | "1:30" is 1.5 hours |
| `TimeText.ExampleDecimal` | app.js:51 | "1.5" and "1,5" are 1.5 hours |
| `TimeText.ExampleText` | app.js:66 | "abc" is 0 hours |
| `TimeText.ExampleHoursOnly` | app.js:58-62 | "2:" is 2 hours |
| `TimeText.ExampleMissingHours` | app.js:58-62 | ":30" is half an hour: a missing hours field counts as 0 |
| `TimeText.ExampleUnreadableMinutes` | app.js:58-62 | "1:xx" is 1 hour: an unreadable minutes field counts as 0 |
| `TimeText.ExampleUnreadableHours` | app.js:58-62 | "ab:15" is a quarter hour: an unreadable hours field counts as 0 |
| `TimeText.ExampleDecimalMinutes` | app.js:58-62 | "1:30.5" is 1 + 30.5/60 hours: minutes are read as a decimal number |
| `TimeText.ExampleThirdField` | app.js:58-62 | "1:30:15" is 1.5 hours: fields after the second are ignored |
| `TimeText.ExampleNegative` | app.js:52-67 | "-1" is -1 hours: nothing rejects a negative reading |
| `TimeText.WholeHours` | app.js:71 | `Math.floor`: the greatest integer not above the hours |
| `TimeText.Round` | app.js:72 | `Math.round`: the nearest integer, halves rounded up |
| `TimeText.Minutes` | app.js:72 | the rounded minutes past the whole hours lie in 0..60, 60 included |
| `TimeText.ReadRenderedDuration` | app.js:74-86 | each of the four branches ("0ч", "Mм", "Hч", "Hч Mм") renders text that reads back as the hours and minutes it came from |
| `TimeText.FormatHoursReadBack` | app.js:70-87 | `formatHours` loses nothing but rounding: its text reads back as floor and rounded minutes; the "м" part appears exactly when the minutes are not 0, and the "ч" part exactly when the whole hours are not 0 or the minutes are 0 |
| `TimeText.FormatHoursClose` | app.js:71-72 | the hours and minutes shown are within half a minute of the amount |
| `TimeText.FormatHoursZero` | app.js:74-76 | "0ч" is shown exactly when floor and rounded minutes are both 0 |
| `TimeText.MinutesSixty` | app.js:72 | the minutes are 60 exactly when the amount is within half a minute below the next hour |
| `TimeText.FormatHoursSixtyMinutes` | app.js:72-86 | `formatHours(1.9999)` is "1ч 60м" |
| `TimeText.FormatHoursExamples` | app.js:70-87 | 0 → "0ч", 1.5 → "1ч 30м", 0.25 → "15м", 2 → "2ч" |
| `TimeText.CarriedParts` | app.js:71-72 | corrected split: minutes below 60, still within half a minute of the amount |
| `TimeText.FormatHoursCarriedReadBack` | app.js:70-87 | the corrected text reads back as hours and fewer than 60 minutes, within half a minute of the amount |
| `TimeText.DayBucket` | app.js:93-101 | each label holds exactly on its range of whole days apart, the same on either side of now: today below one day, yesterday below two, "N дн. назад" with N in 2..6 below seven, a calendar date from seven days on |
| `TimeText.DayText` | app.js:96-104 | only the calendar-date bucket needs the locale's date text |
| `Tracker.FirstWhere` | app.js:243 | `find`: the first index whose element satisfies the test, or none when no element does |
| `Tracker.Filter` | app.js:354 | `filter`: no longer than its input; keeps exactly the elements that pass |
| `Tracker.FilterConcat` | app.js:354-356 | filtering keeps relative order: the filter of a concatenation is the concatenation of the filters |
| `Tracker.FilterKeepsAll` | app.js:354-356 | filtering with a test every element passes changes nothing |
| `Tracker.TotalSpentUpdate` | app.js:322 | replacing one activity changes the total spent by the change in its hours (the total is a measure of the model, used to bound what deleting an entry takes away; the app shows no such sum) |
| `Tracker.CreateActivityEffect` | app.js:288-300 | nothing changes for an empty name or a negative target; otherwise one activity is added at the end and all else stays |
| `Tracker.CreateActivityKeeps` | app.js:288-300 | creation keeps the history invariants, and keeps spent hours non-negative when the initial time is not negative |
| `Tracker.CreateActivityNegative` | app.js:285-296 | creating with an initial time of "-1" yields an activity with negative spent hours |
| `Tracker.CreateActivityCheckedKeeps` | app.js:284-300 | corrected creation, which rejects a negative initial time as it rejects a negative target, keeps every invariant |
| `Tracker.Truncate` | app.js:334-336 | `slice(0, 100)` when longer than 100: at most 100 entries, the first ones |
| `Tracker.AddTimeEffect` | app.js:316-336 | nothing changes for hours ≤ 0, no selection or an unknown id. Otherwise only the selected activity changes, by exactly the hours; the new entry, carrying the activity's id and name, is put first and the history is cut to 100; the total spent grows by the hours |
| `Tracker.AddTimeAtLimit` | app.js:332-336 | with 100 entries, adding drops the oldest and keeps exactly 100 |
| `Tracker.AddTimeKeeps` | app.js:316-336 | adding time keeps spent hours non-negative, the history at most 100 positive entries, and no orphans |
| `Tracker.DeleteActivityEffect` | app.js:349-356 | without a pending id nothing changes; with one, no activity with the id and no entry referring to it remain, and every other activity and entry remains |
| `Tracker.DeleteUnreferencedActivity` | app.js:354-356 | deleting an activity that no entry refers to leaves the history exactly as it was |
| `Tracker.DeleteActivityKeeps` | app.js:349-356 | the cascade leaves no orphan entries, and the invariants hold |
| `Tracker.DeleteHistoryEffect` | app.js:371-383 | nothing changes without a matching entry. Otherwise no entry with the id remains and the others stay; only the owning activity changes, its spent hours becoming max(0, spent - hours) and its other fields kept; with no owner the activities are unchanged |
| `Tracker.DeleteHistoryKeeps` | app.js:371-383 | deleting an entry keeps every invariant, non-negative spent hours included |
| `Tracker.RunKeeps` | app.js:279-389 | any session of commands in which no activity starts with negative time keeps every invariant |
| `Tracker.ApplyKeepsNames` | app.js:288 | no command leaves an activity without a name |
| `Tracker.RunKeepsNames` | app.js:288 | every activity keeps a name through any session |
| `Tracker.ReadingScenario` | app.js:279-389 | create "Reading" with no initial time, add "1:30", delete that entry: spent hours go 0, 1.5, 0 |
| `Tracker.MigratedEffect` | app.js:148-153 | after the migration every activity has `createdAt`; existing ones are kept, missing ones set to now, nothing else changes |
| `Tracker.MigratedChangesIff` | app.js:147-156 | the migration changes the activities exactly when a save is needed, that is when some activity lacks `createdAt` |
| `Tracker.MigratedIdempotent` | app.js:148-153 | migrating a migrated list changes nothing, whatever the clock says |
| `Render.Percentage` | app.js:399-401 | at most 100; 0 for a target that is not positive. With a positive target: 100 exactly when the spent hours reach it, otherwise spent/target·100, non-negative exactly when spent is |
| `Render.PercentageMonotone` | app.js:399-401 | more spent hours never show less progress |
| `Render.LowIff` | app.js:428 | with a positive target, "low" exactly when less than a tenth of it is spent; without one, always low |
| `Render.BarWidth` | app.js:428 | `Math.max(percentage, 0)`: never negative, the percentage when that is not negative |
| `Render.BarWidthOfActivity` | app.js:399-428 | with non-negative spent hours the bar is exactly the percentage wide, between 0 and 100 |
| `Render.PercentLabelReadBack` | app.js:429 | the label of a non-negative percentage reads back as the percentage rounded, followed by "%" |
| `Render.PercentLabelOfActivity` | app.js:399-429 | with non-negative spent hours the label is between "0%" and "100%" |
| `Render.NegativeSpentCard` | app.js:399-429 | spent -1 of a target of 10: percentage -10, a bar of no width, label "-10%" |
| `Render.NegativeZeroLabel` | app.js:429 | a percentage of -0.3 is labelled "-0%" |
| `Render.ShownNames` | app.js:553-554 | for each entry: with its activity live, the row and the prompt show that activity's name; with it gone, the row shows the non-empty stored name or "Удаленная активность" and the prompt (app.js:271) "Неизвестная активность" |
| `Render.LiveNameShown` | app.js:553-554 | in a store without orphans, a history row and its delete prompt show the same name, the live activity's |
| `Render.StoredNameOnlyForOrphans` | app.js:554 | the stored name or placeholder is shown only when the entry's activity is gone |
| `Render.HistoryNameNotEmpty` | app.js:554 | when every activity has a name, every row and prompt shows a non-empty name |
| `App.TimeTracker.constructor` | app.js:45-49 | the store at page load: no activities, no history, nothing pending |
| `App.TimeTracker.LoadData` | app.js:140-165 | the loaded arrays (empty when missing), each activity without `createdAt` stamped with now, in place; a save is reported exactly when one was missing; unreadable data gives an empty store |
| `App.TimeTracker.OpenTimeModal` | app.js:242-247 | an existing activity becomes the selection and the title names it; an unknown id changes nothing |
| `App.TimeTracker.OpenDeleteModal` | app.js:254-259 | an existing activity becomes pending for deletion and the prompt names it; an unknown id changes nothing |
| `App.TimeTracker.OpenDeleteHistoryModal` | app.js:265-272 | an existing entry becomes pending; the prompt shows its activity's name or the placeholder, and its hours formatted |
| `App.TimeTracker.CancelTime` | app.js:202-208 | the selection is cleared and nothing else changes |
| `App.TimeTracker.CancelDelete` | app.js:211-216 | the pending activity is cleared and nothing else changes |
| `App.TimeTracker.CancelDeleteHistory` | app.js:219-224 | the pending entry is cleared and nothing else changes |
| `App.TimeTracker.CreateActivity` | app.js:279-300 | the new state is `Tracker.CreateActivity` of the trimmed name and the read initial time; it saves exactly when name and target pass |
| `App.TimeTracker.PushActivity` | app.js:288-300 | the push in place is `Tracker.CreateActivity`; with a non-negative initial time it keeps the invariants |
| `App.TimeTracker.AddTime` | app.js:309-316 | the new state is `Tracker.AddTime` of the read input and the selection; it saves exactly when that applies |
| `App.TimeTracker.AddHours` | app.js:316-342 | the update of `spentHours` in place, `unshift` and `slice`: `Tracker.AddTime`; the selection is cleared exactly when it saves; the invariants are kept |
| `App.TimeTracker.DeleteActivity` | app.js:348-361 | the new state is `Tracker.DeleteActivity` of the pending id; it saves exactly when one is pending, then clears it; the invariants are kept |
| `App.TimeTracker.DeleteHistory` | app.js:366-387 | the new state is `Tracker.DeleteHistory` of the pending id; it saves exactly when the entry exists; the pending id ends up cleared in every case; the invariants are kept |
| `Swipe.Classify` | app.js:478-507 | a move acts exactly when it is horizontal (abs(dx) > abs(dy) and abs(dx) > 10). Leftward it reveals min(dx, 80) pixels; rightward it is always beyond 10 and closes the row |
| `Swipe.HorizontalRevealsOrCloses` | app.js:482-502 | every horizontal move either reveals or closes; the code's third case cannot happen |
| `Swipe.Commits` | app.js:522 | releasing deletes only after more than 30 pixels; always after more than 50; between 30 and 50 only within 200 ms |
| `Swipe.CommitsMonotone` | app.js:522 | going further or releasing sooner never turns a delete into a snap back |
| `Swipe.Release` | app.js:521-534 | only a classified swipe acts: it opens the prompt for the tracked row exactly when it commits, and slides back otherwise |
| `Swipe.SwipeController.constructor` | app.js:451-457 | the declared start values: nothing tracked, no swipe seen |
| `Swipe.SwipeController.TouchStart` | app.js:462-471 | start point, time and row recorded, whatever was tracked before; both flags cleared (history list: app.js:587-597) |
| `Swipe.SwipeController.TouchMove` | app.js:473-509 | without a tracked row the move is ignored and nothing changes. Otherwise it is classified from the start point; a swipe once seen stays seen (history list: app.js:599-631) |
| `Swipe.SwipeController.TouchEnd` | app.js:511-539 | without a tracked row nothing happens. Otherwise the release is decided from the start point and time; tracking is cleared, so later moves and releases are ignored. In the history list `hasSwiped` always equals `isSwiping`, so its test of either flag decides as the activity list does (app.js:633-662) |

## Left out

- Telegram WebApp calls (`expand`, `CloudStorage`, `HapticFeedback`, `BackButton`). `saveData` is reported as a `saved`/`needsSave` result and not performed. JSON encoding is left out too: `LoadData` takes the storage's answer already parsed, as `Loaded`.
- DOM work: header offsets, modal classes, `showToast`, form resets, markup strings, `escapeHtml`, listener wiring. Closing the time dialog by clicking outside it leaves `currentActivityId` set. That changes no modelled state, so it has no member.
- `toLocaleDateString` for dates a week or more away. `DayText` yields `None` there. The ISO timestamp format and `updateStorageUsage` (`TextEncoder`) are left out as well.
- The swipe easing curve (`Math.pow`), CSS transitions and `cancelAnimationFrame`. The last is guarded by `animationFrame`, which nothing ever sets. `Reveal` carries the clamped distance the curve is computed from.
- IEEE-754 behaviour. Hours are exact reals, so there is no rounding error, no NaN and no Infinity. A blank target field gives NaN in the app, and NaN passes the `< 0` check. Here `CreateActivity` takes the target as an already-read real.
- `parseFloat` of "Infinity", and `toFixed` of magnitudes of 10^21 or more.
- Falsy values other than a missing `createdAt` (for example an empty string) are not distinguished. Malformed array elements, whose migration would throw, are left out too.
- Uniqueness of `Date.now()` ids is not assumed. Ids are parameters, and `DeleteActivity` and `DeleteHistory` remove every element carrying the id.
- The corrected creation `Tracker.CreateActivityChecked` is proved to keep the invariants, but sessions (`Tracker.Run`) and the class apply the creation as written. `Tracker.RunKeeps` therefore requires that no activity starts with negative time.
- Each swipe list is modelled as one `SwipeController` whose `kind` says which list it is. Updates of the rows' styles are not modelled: the controller returns the `Move` and `EndAction` the styles would follow.

## Findings

| source | as written | input that shows it | evidently intended | confidence | as-written member | corrected member |
|---|---|---|---|---|---|---|
| app.js:71-86 | minutes are `Math.round` of the fraction times 60 and are not carried into the hours | `formatHours(1.9999)` gives "1ч 60м" | "2ч": minutes below 60 | not executed | `TimeText.FormatHoursSixtyMinutes` | `TimeText.FormatHoursCarriedReadBack` |
| app.js:284-296 | the target is checked for `< 0`, the parsed initial time is not | initial time "-1" creates an activity with spent hours -1, shown as "-10%" of a 10-hour target | reject a negative initial time as a negative target is rejected, so spent hours never go negative | not executed | `Tracker.CreateActivityNegative` | `Tracker.CreateActivityCheckedKeeps` |
