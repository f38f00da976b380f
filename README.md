# Study tracker core, modelled in Dafny

The page is a personal study-time tracker. A user times self-study and coaching
sessions with a stopwatch, keeps a syllabus checklist, and reads statistics
computed from the session ledger. This project models the state logic of
`script.js` and leaves out the DOM work around it:

- `App.AppState` is the page's single state object. It holds the timer (`seconds`,
  `isRunning`, `timerType`), the ledger `logs` (newest first), the `syllabus`
  list, and the two records kept in local storage. Its methods are the event
  handlers: start, the one-second tick, stop, add, toggle, delete and clear-all.
  `Valid()` says two things. The count is zero while the timer is idle. Each
  stored record, read back the way a page load reads it, equals the list in
  memory (write-through).
- `Clock` holds the `HH:MM:SS` display. Whole seconds are split with division and
  remainder. Each field is rendered in decimal and padded to two characters.
- `Ledger` holds the session record and the recent-activity table.
- `Syllabus` holds `trim`, the toggle, delete and progress calculations, each
  done on values.
- `Stats` holds the analytics view's integer sums. These are the per-mode
  totals, the per-subject dictionary built in a loop, and the descending sort.
  It also holds an integer version of the daily-goal bar.

Inputs the page gets from outside become parameters:

- `Date.now()` ids and `toISOString()` end times;
- the subject chosen in the select box at stop time;
- the raw text of the syllabus input box;
- the user's answer to the clear-all confirmation.

Session modes are kept as the strings the page passes (`"self-study"`,
`"coaching"`). The statistics therefore say what happens to a ledger entry with
any other mode: it is left out of both totals.

## Model

| member | source | states |
|---|---|---|
| App.AppState.constructor | script.js:2-11 | A page load reads both collections from storage, with a missing record read as empty. The timer starts idle at zero in self-study mode, and the stored copies equal the in-memory lists |
| App.AppState.StartTimer | script.js:69-73 | If the timer is running, nothing changes. Otherwise the state becomes Running(kind), with the count, ledger, syllabus and stored records kept as they were |
| App.AppState.Tick | script.js:83-86 | Runs only while the timer runs. The count grows by exactly one and nothing else changes |
| App.AppState.StopTimer | script.js:89-110 | The timer always ends Idle at zero. A count above 1 puts exactly one log {id, date, old count, old mode, subject} in front of the old ledger, which stays as the tail, and stores it. A count of 1 or less leaves the ledger and its record unchanged. The syllabus is untouched |
| App.AppState.AddSyllabusItem | script.js:163-171 | Blank input, empty after trimming, leaves the list and its record unchanged. Otherwise the list becomes the old list plus {id, trimmed text, done: false} at the end, and is stored |
| App.AppState.ToggleSyllabus | script.js:174-181 | The first item with the id is found by a loop. The list becomes `Toggled(old list, id)`. An unknown id changes nothing and stores nothing |
| App.AppState.DeleteSyllabus | script.js:183-187 | The list becomes `Deleted(old list, id)`, and the stored record follows it. Delete removes every item with the id (`filter`), not just the first |
| App.AppState.Display | script.js:119-123 | The timer text is at least eight characters long, with colons third and sixth from the end. It is exactly eight characters below 100 hours, and it reads "00:00:00" at a count of zero |
| App.AppState.ClearAllData | script.js:286-291 | When confirmed, both records are removed and the reload leaves empty lists and an idle timer at zero in self-study mode. When declined, nothing changes |
| Clock.Decimal | script.js:120-122 | `toString()` of a count gives a digit string at least one long that reads back as the count. It has no leading zero except for "0", and it is one digit exactly below 10 |
| Clock.PadStart2 | script.js:120-122 | `padStart(2, '0')`: the result is at least two characters long, ends with the input, and is filled with '0' in front |
| Clock.Field | script.js:120-122 | Each display field is at least two digits long and reads back as its value. It is exactly two digits long when the value is below 100 |
| Clock.Split | script.js:120-122 | `h*3600 + m*60 + s == seconds`, with `m < 60` and `s < 60` |
| Clock.SplitUnique | script.js:120-122 | Any h, m, s with that sum and m, s below 60 is exactly the split, so the display shows a count in only one way |
| Clock.Format | script.js:119-123 | The joined `${hrs}:${mins}:${secs}` text is at least eight characters long, with colons third and sixth from the end, and exactly eight characters below 100 hours. Its digits are stated by `Clock.FormatReadsBack` |
| Clock.FormatZero | script.js:109-110 | After a reset the display reads "00:00:00" |
| Clock.FormatReadsBack | script.js:119-124 | Below 100 hours the display is eight characters long, `HH:MM:SS`. Reading its three digit pairs back as h, m, s gives h*3600 + m*60 + s equal to the count, with m and s below 60 |
| Ledger.Recent | script.js:136 | The recent view has exactly `min(5, n)` entries and is a prefix of the ledger |
| Ledger.RenderLogs | script.js:131-136 | The placeholder is shown exactly when the ledger is empty. Otherwise between 1 and 5 rows are shown, forming a prefix of length `min(5, n)` |
| Ledger.RecentAfterCommit | script.js:102-104 | After a commit, the table starts with the new session, followed by the earlier newest rows in order |
| Syllabus.Trim | script.js:165 | The result is a slice of the input, beginning right after its leading whitespace. Neither end of the result is whitespace, and everything cut off is whitespace |
| Syllabus.TrimEmptyIffBlank | script.js:165-166 | Trimmed text is empty exactly when the input is all whitespace, which covers `"   "` and `""` |
| Syllabus.TrimIdempotent | script.js:165 | Trimming twice gives the same result as trimming once |
| Syllabus.Toggled | script.js:175-177 | Toggling keeps the length, and keeps every position's id and text |
| Syllabus.ToggleUnknown | script.js:175-176 | Toggling an id that no item has changes nothing |
| Syllabus.ToggleFirst | script.js:175-177 | Only the first item with the id has `done` flipped. Every other item stays exactly as it was |
| Syllabus.ToggleTwice | script.js:177 | Toggling the same id twice gives back the original list |
| Syllabus.ToggleCountDone | script.js:177 | Toggling an existing id moves the done count by exactly one, in the direction of the flip |
| Syllabus.Deleted | script.js:184 | Every kept item was in the list and has a different id. Every item with a different id is kept |
| Syllabus.DeletedConcat | script.js:184 | Delete distributes over concatenation, so the original order of the kept items is preserved |
| Syllabus.DeletedSingle | script.js:184 | A single item is dropped exactly when its id matches |
| Syllabus.DeleteUnknown | script.js:184 | Deleting an id that no item has changes nothing |
| Syllabus.DeleteIdempotent | script.js:184 | Deleting twice gives the same result as deleting once |
| Syllabus.CountDone | script.js:199 | The done count never exceeds the list length |
| Syllabus.Progress | script.js:198-200 | The progress is 0 for an empty list. In every case it lies in 0..100. Otherwise it is `completed*100/total` rounded half up: `2t*p <= 200c + t < 2t*(p+1)` |
| Syllabus.RoundHalfUp | script.js:200 | The integer formula for round-half-up of c out of t lies in 0..100 and satisfies those bounds |
| Syllabus.ProgressExamples | script.js:198-200 | An empty list gives 0%. One of two items done gives 50%. One of three gives 33%, and two of three give 67% |
| Stats.TotalOfType | script.js:229-230 | A mode's total never exceeds the ledger's summed duration |
| Stats.TotalTime | script.js:229-231 | `totalSelf + totalCoach` is the summed duration of exactly the ledger's self-study and coaching sessions |
| Stats.TotalTimeIsKnownSum | script.js:229-231 | `totalSelf + totalCoach` equals the summed duration of exactly the logs whose mode is "self-study" or "coaching" |
| Stats.TotalTimeAllKnown | script.js:229-231 | When every log has one of the two modes, the total time is the summed duration of the whole ledger |
| Stats.FirstIndex | script.js:252-253 | The position of the first session with a subject (the iteration that creates its key), or the ledger length when none has it |
| Stats.DistinctSubjects | script.js:251-255 | The dictionary's keys have no duplicates, and every log's subject is among them |
| Stats.DistinctSubjectsOrder | script.js:251-255 | The keys are in first-encounter order: each key's first session exists, and the keys are listed by strictly increasing position of it. With the contract of `DistinctSubjects`, this fixes the key list exactly |
| Stats.DistinctSubjectsOccur | script.js:251-255 | Every key comes from some log |
| Stats.Accumulate | script.js:253-254 | One `forEach` step: a subject not yet a key becomes the last key. Afterwards the step's subject holds its old value (0 if new) plus the session's duration, and every other key keeps its value |
| Stats.BuildSubjectStats | script.js:251-255 | The loop creates exactly the keys `DistinctSubjects(logs)`, one per distinct subject, in first-encounter order (`DistinctSubjectsOrder`). It stores, under each key, the summed duration of that subject's logs |
| Stats.SubjectTotalsSum | script.js:252-255 | The per-subject totals add up to the sum of all log durations |
| Stats.SubjectEntries | script.js:265 | `Object.entries(subjectStats)`: one row per distinct subject, in first-encounter order, each holding that subject's total |
| Stats.Insert | script.js:266 | Inserting into a descending list keeps it descending. The result is the old rows plus the new one, as a multiset |
| Stats.SortDescending | script.js:266 | The sorted rows are in non-increasing order of total and are a permutation of the entries, with the same sum |
| Stats.Breakdown | script.js:265-266 | The sorted entries are in non-increasing order of total and are a permutation of `SubjectEntries` |
| Stats.BreakdownProperties | script.js:250-266 | The breakdown is non-increasing and a permutation of the dictionary's entries. Each row carries its subject's total, every subject in the ledger appears, and the totals add up to the ledger's |
| Stats.BreakdownSumsToTotalTime | script.js:231-268 | When every log is self-study or coaching, the subject totals add up to `totalTime`, so the subject percentages add up to 100 |
| Stats.RenderBars | script.js:250-266 | The empty state is shown exactly when `totalTime` is 0. Otherwise the dictionary built by the loop is shown as its entries sorted by the descending sort |
| Stats.GoalPercent | script.js:238-240 | The goal percentage never exceeds 100. It is exactly 100 when the total reaches 6 hours, and below that it is the floor of `total*100/21600` |
| Stats.GoalExamples | script.js:238-240 | 1.5 hours gives 25%, and 10 hours is clamped to 100% |

## Left out

- DOM work is presentation and is not modelled. This covers `getElementById`, `innerHTML` templates, class toggles, status texts, `lucide.createIcons`, `initDateDisplay` and `switchTab` (script.js:14-66).
- The page rewrites the display text whenever the count changes, and here that text is the view `AppState.Display()`. `Tick` and `StopTimer` do not restate it; `Clock.FormatZero` gives the value after a stop.
- `JSON.stringify`/`JSON.parse` are taken to round-trip the lists exactly, so a stored record holds the list itself. Corrupt stored data is not modelled.
- `setInterval`/`clearInterval` become the explicit `Tick` method, which runs only while the timer runs. The interval handle and the scheduling are left out.
- `Date.now()`, `new Date().toISOString()` and the selected subject are parameters. Clearing the input box after an add is DOM work and is left out.
- Locale date and time text and the per-row `Math.floor(duration / 60)` minutes in the recent table are presentation and are left out.
- Floating point is left out. This covers the `toFixed(1)` hour cards and the sidebar hours text. It also covers each subject's percentage text, which depends only on its total (proved above) and `totalTime`.
- `confirm(...)` becomes the `confirmed` parameter. `location.reload()` becomes re-initialising the state from the emptied storage.
- Syllabus.Progress: uses the exact quotient `completed/total`, where the page computes it in floating point before `Math.round`. The two can differ: with 23 of 40 items done the page shows 57% (the double product is just below 57.5), and the model gives 58.
- Stats.GoalPercent: is an integer idealisation. The page first formats the hours to one decimal with `toFixed(1)`, then divides by 6 in floating point, so the page's bar can differ from this floor by the rounding of the hours text. For example, at 21420 seconds `toFixed(1)` gives "6.0" and the page shows 100%, while `GoalPercent` gives 99.
- Stats.SortDescending: is stable by construction, because ties keep their entry order, as the page's sort does. Its contract does not state stability, only order and permutation.
- Stats.BuildSubjectStats: takes `Object.entries` as insertion order. The page would list integer-like subject names first. A subject named after an `Object.prototype` member ("toString", "__proto__") would make `!subjectStats[...]` misbehave. The page fills subjects from a select box, and both cases are left out.
