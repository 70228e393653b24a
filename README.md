# Learning dashboard core, modelled in Dafny

`project.js` is the script of a browser learning dashboard. Around its DOM code sit four
small pieces of logic, and this project models each of them with the browser abstracted
away:

- **Streak tracker** (`streak.dfy`, module `Streak`). This is `updateStreak`, which turns
  the loaded record `{currentStreak, longestStreak, lastActivityDate, badges}` and the
  minutes of activity into the new record, together with the badge table `BADGES`. It also
  covers two helpers from `updateUI`: the next badge not yet held, and the progress step
  `currentStreak % 7`.
  - Calendar days are integer day numbers.
  - The record is a class whose method updates its fields in place, looping over the badge
    table as the source does.
  - The method is proved against the pure function `Update`. Lemmas then prove, about
    `Update`, the badge facts, an invariant that `updateStreak` keeps, and what repeated
    presses of the "log activity" button compute.
- **Reminder scheduler** (`reminders.dfy`, module `Reminders`). This covers `setReminder`,
  `clearReminder`, `cancelReminder`, the timer callbacks and `restoreReminders`, plus the
  `reminder-<id>` key format and the time left shown by `renderReminders`.
  - `localStorage`'s reminder records are a map from course id to `{choice, timestamp}`.
  - `activeTimeouts` is a map whose keys are a number-or-string sum type, because a
    JavaScript `Map` keeps `1` and `"1"` apart.
  - The armed `setTimeout` callbacks are a map from handle to what each callback removes
    when it fires. Firing is an explicit method.
  - The clock is a parameter `now`, in milliseconds.
- **Search filter** (`search.dfy`, module `Search`). This is the `filter` in
  `renderSearchCourses`: an ordered filter of the course list by a case-insensitive
  substring match on title or description, combined with the active tag.
- **Offline lesson render** (`lesson.dfy`, module `Lesson`). This is the markup `loadLesson`
  writes, as a pure function of the network state, the cached lesson and image records, and
  the object URL minted for the image.
  - `String.prototype.replace` with a string pattern is modelled as `ReplaceFirst`. It
    rewrites only the first occurrence.

`strings.dfy` (module `Strings`) holds substring occurrence, `indexOf` and `includes`.
`wrappers.dfy` holds `Option`.

Three behaviours of the code are easy to misread, and the model follows the code in each:

- The offline render replaces only the first occurrence of the image URL in the cached
  lesson (project.js:63), because `replace` with a string pattern stops after one match.
  `Lesson.ReplaceFirstKeepsLater` and `Lesson.ReplaceFirstOnlyOnce` prove that
  occurrences starting after the end of the first one survive.
- `downloadCourse` awaits `fetch` while its read-write transaction is open
  (project.js:29-39), so the three offline records are not written as one atomic unit. No
  atomicity is claimed, and the download itself is left out.
- `cancelReminder` removes the stored record and clears the timer that `activeTimeouts`
  holds under the course id (project.js:198-210). After a page reload the restored timer is
  held under a different key, so the cancel does not disarm it (see Findings).

## Model

| member | source | states |
|---|---|---|
| Strings.IndexOf | project.js:63 | the position found is an occurrence of the pattern with no earlier one, and there is no result exactly when the pattern occurs nowhere |
| Strings.Includes | project.js:351-352 | `includes` holds exactly when the pattern occurs at some position |
| Lesson.ReplaceFirst | project.js:63 | without an occurrence the string is unchanged; otherwise the result is the text before the first occurrence, then the replacement, then the text after that occurrence |
| Lesson.ReplaceFirstKeepsLater | project.js:63 | every occurrence that starts after the first one ends survives in the result, shifted by the change in length: only the first one is replaced |
| Lesson.ReplaceFirstOnlyOnce | project.js:63 | a string holding the image URL twice keeps its second copy after the replace |
| Lesson.LoadLesson | project.js:47-66 | online gives the live lesson HTML; offline before the database has opened nothing is written, because `db` is still undefined; offline without a cached lesson gives the "not available offline" placeholder; offline with a cached lesson and image gives the cached content with the first image URL replaced by the object URL; a cached lesson without its image record writes nothing |
| Search.LowerChar | project.js:346 | ASCII capitals map to the matching small letter and every other character is unchanged |
| Search.Lower | project.js:346 | lower-casing keeps the length and lower-cases each character |
| Search.Matches | project.js:350-357 | a course matches exactly when the search text occurs in its lower-cased title or description and the tag is "all" or one of its tags; the empty search text with "all" matches every course |
| Search.Filter | project.js:349-358 | the result is no longer than the list, and each result is from the list and matches the search text and the tag |
| Search.FilterIsSublist | project.js:349-358 | the results are an order-preserving sublist of the course list |
| Search.FilterCounts | project.js:349-358 | each matching course appears as often as in the list, and a course that does not match never appears |
| Search.FilterMembers | project.js:349-358 | a course is in the filtered list exactly when it is in the course list and matches |
| Search.SearchResults | project.js:346-358 | the courses shown are an order-preserving sublist of the course list, holding exactly the listed courses that match the lower-cased input and the tag |
| Search.SearchResultsExactly | project.js:346-358 | a course is shown if and only if it is in the list, its lower-cased title or description contains the lower-cased search text, and the tag is "all" or one of its tags |
| Search.EmptySearchShowsAll | project.js:346-358 | an empty search with the tag "all" shows every course, in order |
| Search.NoResultsExactly | project.js:349-363 | the "no results" message is shown exactly when no course matches |
| Streak.NextStreak | project.js:269-279 | a second log on the same day keeps the streak; a log of at least 5 minutes the day after the last one extends it by one; on any other day such a log restarts it at 1; a log under 5 minutes on a new day resets it to 0 |
| Streak.Update | project.js:262-292 | the current streak follows the same four cases; the longest streak is at least the current one and at least the old longest, and equals one of the two; the last activity day is today |
| Streak.StreakData.constructor | project.js:246-253 | the record holds the loaded values |
| Streak.StreakData.UpdateStreak | project.js:262-292 | the in-place update, badge loop included, leaves the record that `Update` specifies |
| Streak.AwardKeepsPrefix | project.js:284-288 | the badge loop only appends: the old badges stay, in order, at the front |
| Streak.AwardMembers | project.js:284-288 | after the loop a badge is held if and only if it was held before or its threshold is within the streak |
| Streak.AwardNoDuplicates | project.js:284-288 | a badge already held is never appended again |
| Streak.AwardNothingNew | project.js:284-288 | when every badge the streak earns is already held, the loop changes nothing |
| Streak.AwardIdempotent | project.js:284-288 | running the badge loop a second time with the same streak adds nothing |
| Streak.InitialInv | project.js:246-253 | the empty record satisfies the invariant: streaks non-negative, longest at least current, no badge twice, badges held exactly those earned within the longest streak |
| Streak.UpdateKeepsInv | project.js:262-292 | `updateStreak` preserves that invariant |
| Streak.FirstUnheld | project.js:301 | `find` returns the first badge entry not held, all earlier ones being held, and finds nothing exactly when every entry is held |
| Streak.NextBadge | project.js:301-302 | there is no next badge exactly when every badge of the table is held; otherwise it is a badge of the table not yet held, and every badge with a smaller threshold is held |
| Streak.NextBadgeBeyondLongest | project.js:301-302 | for a record kept by `updateStreak`, "All badges earned!" shows exactly when the longest streak reached 100; otherwise the next badge is the one with the smallest threshold above the longest streak |
| Streak.ProgressStep | project.js:297 | the JavaScript remainder lies in 0..6 for a non-negative streak, in -6..0 for a negative one, and differs from the streak by a multiple of 7 |
| Streak.ProgressEmptyOnWeeks | project.js:297 | the progress bar is empty exactly when the streak is a multiple of 7 |
| Streak.ReplayStep | project.js:269-281 | one more press on a later day grows the streak by one after yesterday and restarts it at 1 otherwise; the longest streak keeps the maximum |
| Streak.ReplayCurrentIsTailRun | project.js:269-281 | pressing once a day, the current streak is the length of the run of consecutive days ending on the last press |
| Streak.ReplayLongestBoundsRuns | project.js:269-281 | pressing once a day, no run of consecutive days is longer than the longest streak |
| Streak.ReplayLongestIsARun | project.js:269-281 | pressing once a day, the longest streak is the length of some run of consecutive days |
| Reminders.Delay | project.js:177-179 | the delay is positive: one hour (60 minutes) for "1hour" and 24 hours for "tomorrow" |
| Reminders.ReminderKey | project.js:181 | the key is `reminder-` followed by at least one decimal digit, and its only dash is the one ending the prefix |
| Reminders.Digits | project.js:181 | a course id is written as a non-empty string of decimal digits |
| Reminders.ParseDigits | project.js:217 | `Number` of a text of n decimal digits, as the corrected restore applies it to the cut-out id: the value is below 10^n, at least 10^(n-1) without a leading zero, and its last decimal digit is the last character |
| Reminders.ParseDigitsOfDigits | project.js:217 | reading back the decimal text of an id gives the id |
| Reminders.DigitsInjective | project.js:181 | distinct ids have distinct decimal texts, so distinct courses have distinct storage keys |
| Reminders.SplitOnDash | project.js:217 | `split('-')` yields at least one piece, no piece holds a dash, joining the pieces with dashes gives the string back, and a string without a dash is its own only piece |
| Reminders.KeyCourseId | project.js:217 | `split('-')[1]` is defined exactly when the key holds a dash, and then it is the dash-free text after the first dash, up to the next dash or the end |
| Reminders.KeyRoundTrip | project.js:217 | `split('-')[1]` of the key `reminder-<id>` is the id's decimal text |
| Reminders.TimeLeft | project.js:153-155 | the minutes are below 60 and hours and minutes are the whole hours and minutes of the time left, clamped at zero |
| Reminders.TimeLeftTomorrow | project.js:153-155 | a reminder set for tomorrow shows 24h 0m at the moment it is set |
| Reminders.Live | project.js:219-234 | the records kept by a restore are exactly the stored ones whose timestamp is after now, unchanged |
| Reminders.RestoreKeyInjective | project.js:217-231 | distinct courses are restored under distinct `activeTimeouts` keys |
| Reminders.RestoringKeyFresh | project.js:212-236 | during a restore, the key of a record not yet visited is not yet registered |
| Reminders.RestoringStep | project.js:219-234 | visiting one record keeps it with a timer for its time left if that is positive, and deletes it otherwise |
| Reminders.RestoringDone | project.js:212-236 | after every record is visited, the store holds the live records, each with one timer under its restored key for its time left |
| Reminders.OneTimerWhenKeyedByCourse | project.js:193-207 | when every timer is registered under its course's numeric id, no course has two armed timers |
| Reminders.Scheduler.constructor | project.js:96 | at page load the records survive and no timer is armed |
| Reminders.Scheduler.ClearReminder | project.js:204-210 | the record of the course and the timer under its numeric id are removed, and nothing else changes |
| Reminders.Scheduler.CancelReminder | project.js:198-202 | the same as `clearReminder` |
| Reminders.Scheduler.ArmTimer | project.js:182-193 | one timer is armed and registered under its key; the store is unchanged |
| Reminders.Scheduler.SetReminder | project.js:167-196 | "none" leaves no record and no timer for the course; otherwise exactly one record with timestamp now + 1 hour or now + 24 hours and one timer under the numeric id, with other courses unchanged |
| Reminders.Scheduler.Fire | project.js:182-192 | the callback removes the record and the `activeTimeouts` entry it was made for, with or without notification permission, and disarms itself; the restore callback at lines 220-230 does the same for a course it finds in the course list |
| Reminders.Scheduler.RestoreOne | project.js:214-234 | for the key `reminder-<id>`, one record is re-armed for its time left when that is positive, registered under the id cut out of the key (its text as written, its number in the corrected restore), and deleted with no timer otherwise |
| Reminders.Scheduler.RestoreReminders | project.js:212-236 | the store keeps exactly the live records; each has one timer for its time left, registered under the string id cut from its key |
| Reminders.Scheduler.RestoreRemindersByNumber | project.js:212-236 | the corrected restore keeps the same records and timers, registered under the numeric id, and so keeps every timer keyed by its course |
| Reminders.CancelAfterReload | project.js:198-231 | after a reload, Cancel removes the record but the restored timer stays armed |
| Reminders.ReloadThenReset | project.js:167-231 | after a reload with one future record, setting a new reminder for the course leaves two armed timers for it, the restored one and the new one |
| Reminders.ResetAfterReload | project.js:167-231 | after a reload, when the restored reminder is due before the newly set one, the restored timer fires first and deletes the new record, and the new timer stays armed for a reminder no longer stored |
| Reminders.DoubleNotifyAfterReload | project.js:167-231 | after a reload, when the newly set reminder is due before the restored one, both timers fire and the course is notified twice, leaving no record and no timer |
| Reminders.CancelAfterReloadByNumber | project.js:198-236 | with the corrected restore, Cancel after a reload removes the record and disarms the timer |
| Reminders.NotifyOnceAfterReloadByNumber | project.js:167-236 | with the corrected restore, setting a new reminder after a reload leaves one timer, so the course is notified once and nothing stays armed |
| Reminders.ResetAfterReloadByNumber | project.js:167-236 | with the corrected restore, setting a new reminder after a reload leaves the record stored and exactly one armed timer for the course |

Helper functions without a row are pinned down by the members above:
- `Streak.AwardOne` and `Streak.Award` (the badge loop, project.js:284-288) by the `Streak.Award*` lemmas and `Streak.StreakData.UpdateStreak`.
- `Streak.Replay` (repeated presses of the button, project.js:305-306) by the `Streak.Replay*` lemmas.
- `Reminders.RestoreKey` (the key chosen at project.js:217 and 231) by `Reminders.RestoreKeyInjective` and `Reminders.Scheduler.RestoreOne`.
- `Reminders.Cancelled` (the `clearTimeout` at project.js:205-207) by `Reminders.Scheduler.ClearReminder`.

## Left out

- DOM writes, `innerHTML` templating, toasts, the confetti modal and scrolling are user interface only. They are not part of this model.
- IndexedDB transactions and `fetch` in `downloadCourse` and `checkOfflineStatus` are asynchronous I/O. They are not part of this model, and no atomicity of the offline write is claimed.
- `loadLesson`'s lookups are inputs, not transactions. `Lesson.LoadLesson` takes the network state, whether the database has opened, the cached lesson (if any), whether the image record exists, and the object URL as parameters.
- Lesson.LoadLesson: offline before the open request succeeds (project.js:11, 21-25), the call at project.js:87 throws at project.js:52. The model gives "nothing written" for that case. It does not model that this uncaught exception stops the rest of the top-level script, so the later statements of project.js do not run on that page load.
- Notification permission and the notification itself are browser APIs. `Reminders.Scheduler.Fire` takes the permission as a parameter and only reports whether a notification would be shown.
- Reminders.Scheduler.Fire: the model always finds the timer's course. A restored record whose id is not in the `courses` list (project.js:90-94) finds no course at project.js:221. With permission granted, the callback then throws at project.js:223, before the removals at project.js:227-228. So the record and the `activeTimeouts` entry stay behind. The model's invariant pairs every `activeTimeouts` entry with an armed timer and has no room for that stale entry, so the model removes both in every case.
- Real `setTimeout` timing is not modelled. A timer is a map entry with its delay, and it fires only when `Fire` is called.
- Reminders.Scheduler.RestoreReminders: `restoreReminders` deletes keys while iterating `localStorage` by index, which can skip the key after each deleted one. Key order is implementation-defined. The model visits every record of the abstract map exactly once, in an arbitrary order, so skipped keys are not modelled.
- `Date`, calendar and time-zone arithmetic, and the date parsing in `loadData`/`saveData`, are replaced by integer day numbers.
- `renderReminders`'s DOM output and its course title lookup are left out. Only the time-left arithmetic is modelled.
- Search.Lower, Search.LowerChar: lower-casing is modelled on ASCII letters only, not full Unicode `toLowerCase`.
- Lesson.ReplaceFirst: a `$` pattern in the replacement string, which JavaScript's `replace` would expand, is not modelled. Object URLs contain no `$`.
- Streak.ReplayCurrentIsTailRun, Streak.ReplayLongestBoundsRuns, Streak.ReplayLongestIsARun: these assume one button press per day, in date order, with the button's 10 minutes.
- Video resume (`saveTimestamp`, `loadTimestamp`) works on floating-point times and is event plumbing. It is not part of this model.

## Findings

| source | as written | input that shows it | evidently intended | confidence | as-written member | corrected member |
|---|---|---|---|---|---|---|
| project.js:217-231 | `restoreReminders` registers each restored timer in `activeTimeouts` under the string id `key.split('-')[1]`, while `clearReminder` and `setReminder` look up the numeric id | store a reminder for course 1 that is still in the future, reload, press Cancel: the record is removed, but the timer under `"1"` stays armed and later notifies | register the restored timer under `Number(key.split('-')[1])`, so one course has one timer and Cancel disarms it | not executed | Reminders.CancelAfterReload | Reminders.CancelAfterReloadByNumber |
| project.js:167-231 | the same key mismatch, seen through setting a new reminder after a reload, when the restored reminder is due first | a reminder for course 1 due in 30 minutes, reload, set "1 hour": the restored timer fires first and deletes the new record; the new timer stays armed for nothing | as above | not executed | Reminders.ResetAfterReload | Reminders.ResetAfterReloadByNumber |
| project.js:167-231 | the same key mismatch, when the new reminder is due first | a reminder for course 1 due in 5 hours, reload, set "1 hour": the new timer fires and notifies, and hours later the restored timer notifies a second time | as above, so that one reminder notifies once | not executed | Reminders.DoubleNotifyAfterReload | Reminders.NotifyOnceAfterReloadByNumber |
