# Campus Life Planner — a verified model of its core

Campus Life Planner is a browser task planner. A task has a title, a duration in
minutes, a tag and a due date. Tasks live as one JSON list under one `localStorage`
key. This project models the part of the program that decides things, with the
page and the browser taken away:

- **the field validators** (`js/utils/validation.js`): the four anchored patterns for
  title, duration, date and tag, the duplicate-word and time-token helpers, and
  `validateTask`, which runs every check and collects the failures in a fixed order;
- **the task store** (`js/utils/storage.js`): get, save, add, update, delete, import and
  export over the content of the storage key, as pure functions from the old content
  to the new one;
- **the dashboard and the submit decision** (`js/app.js`): the values `updateDashboard`
  computes (task count, total duration in minutes or hours, most used tag, five most
  recent tasks), `formatDurationHrsMins`, and the validate-then-add-or-update decision
  of `handleTaskSubmit`.

Modules, one per file:

| module | file | what it holds |
|---|---|---|
| `Wrappers` | wrappers.dfy | `Option` |
| `JsChars` | jschars.dfy | the character classes `\s`, `\S`, `.`, `\d`, `\w`, `\b`, and `trim` |
| `Decimal` | decimal.dfy | `String(n)` for integers, `parseInt`, `padStart` |
| `Regex` | regex.dfy | the regular-expression fragment the patterns use, its meaning, and splitting lemmas |
| `StableSort` | stablesort.dfy | `Array.prototype.sort` with a descending numeric comparator, which must be stable |
| `Validation` | validation.dfy | the patterns, each written as a `Regex.Re` value and as a character predicate, proved equal; `validateTask`; `hasDuplicateWords`; `extractTimeTokens` |
| `Storage` | storage.dfy | the task store |
| `Dashboard` | dashboard.dfy | `updateDashboard`'s values and `formatDurationHrsMins` |
| `Submit` | submit.dfy | `handleTaskSubmit` |

Modelling choices:

- The storage key holds `Option<seq<Task>>`, where `None` means the key is absent.
- JSON is taken to round-trip, so the key holds the list itself.
- The clock (`new Date().toISOString()`) is an integer parameter `now`. Timestamps are
  integers because ISO 8601 text orders instants the same way they order.
- `JSON.parse` in `importData` is a parameter `parse: string -> Option<Json>`, where
  `None` stands for a throw. The serialiser in `exportData` is a parameter too.
- The calendar half of `validateDate` (`new Date(date)` being a valid date) is a
  parameter `calendar: string -> bool`. Only strings that pass the syntactic test
  reach it.
- Characters are Dafny `char`s, which are Unicode scalar values. JavaScript strings are
  sequences of UTF-16 code units. So a character outside the Basic Multilingual Plane
  is one `char` here and two code units there, and a lone surrogate cannot be
  written at all.

Each pattern is proved equal to a character predicate. Each text the program writes
(`formatDurationHrsMins`, the total-duration text, record ids) gets a reader, and the
reader is proved to read the text back. The store operations are proved to keep the
invariants the program relies on, and to break the one it does not keep: ids are
unique only while nothing is deleted.

Three quirks of the source are stated as proved facts:

- The duration pattern `^([1-9]\d*)(.\d{1,2})?$` has an unescaped `.`, so
  `"1x25"` passes (`Validation.DurationTextExamples`).
- `addTask` derives the id from the current count. Three adds, deleting `rec_002`
  and one more add therefore leave two tasks with id `rec_003`
  (`Storage.DeleteThenAddRepeatsId`).
- `deleteTask` writes even when no task matched, so an absent key becomes `[]`.

## Model

| member | source | states |
|---|---|---|
| Validation.TitlePatternIff | js/utils/validation.js:5 | the title pattern accepts exactly the non-empty strings whose first and last characters are not whitespace and which contain no line terminator anywhere (`.` refuses line terminators) |
| Validation.TrimmedTitleIff | js/app.js:236 | after `trim`, which strips the same whitespace `\S` excludes, a title is refused only when nothing is left or a line terminator remains inside it |
| Validation.DurationPatternIff | js/utils/validation.js:8 | the duration pattern accepts exactly a digit 1-9, then digits, then optionally any one character other than a line terminator followed by one or two digits |
| Validation.DurationAcceptsPositive | js/utils/validation.js:27-29 | `validateDuration`, testing `String(d)`, accepts exactly the positive integers; 0, negative numbers and `NaN` are refused |
| Validation.DurationTextExamples | js/utils/validation.js:8 | "90", "1x25" and "1.5" pass; "0", "05", "-5", "NaN" and "1.234" do not |
| Validation.MonthPatternIff | js/utils/validation.js:11 | `(0[1-9]\|1[0-2])` accepts exactly two digits whose value is 1 to 12 |
| Validation.DayPatternIff | js/utils/validation.js:11 | `(0[1-9]\|[12]\d\|3[01])` accepts exactly two digits whose value is 1 to 31 |
| Validation.DatePatternIff | js/utils/validation.js:11 | the date pattern accepts exactly ten characters `YYYY-MM-DD` with digits in place, month 01-12 and day 01-31 |
| Validation.TagPatternIff | js/utils/validation.js:14 | the tag pattern accepts exactly the non-empty strings of ASCII letters, spaces and hyphens that start and end with a letter and have a letter before every separator (no digits, no doubled, leading or trailing separators) |
| Validation.TagGroupsIff | js/utils/validation.js:14 | `(?:[ -][A-Za-z]+)*` accepts exactly the empty string and a separator followed by a valid tag |
| Validation.ValidateTask | js/utils/validation.js:56-79 | `isValid` holds exactly when the error list is empty; an error is listed exactly when its check fails; errors appear in check order (title, duration, date, tag), each at most once, so at most four |
| Validation.ErrorsListFailures | js/utils/validation.js:57-73 | for any outcomes of the four checks, the pushed list is empty exactly when all pass, holds each failed check's error and no other, in check order |
| Validation.ValidTaskExample | js/utils/validation.js:56-79 | a task with title "Study", duration 90, tag "School Work" and a calendar-valid date "2024-03-15" is valid with no errors |
| Validation.InvalidTaskExample | js/utils/validation.js:32-38 | " Study", -5, "School123" and "2024-02-30" fail all four checks, in order; the date passes the syntactic test and is refused only by the calendar check |
| Validation.DuplicateStartsAtIff | js/utils/validation.js:17 | the character test at a start position holds exactly when `\b(\w+)\s+\1\b` matches there: a whole word, whitespace, the identical word, a word boundary |
| Validation.HasDuplicateWords | js/utils/validation.js:46-48 | `hasDuplicateWords` is true exactly when the duplicate-word pattern matches somewhere in the text |
| Validation.ExtractTimeTokens | js/utils/validation.js:51-53 | the result is empty when `\b\d{2}:\d{2}\b` matches nowhere, and otherwise is the one leftmost match (no `g` flag) |
| JsChars.Trim | js/app.js:236-238 | `trim` returns a slice of its input with only whitespace cut from either end, and whose own ends are not whitespace |
| Decimal.DecimalRoundTrip | js/utils/storage.js:19 | `String(n)` for an integer reads back as `n` |
| Decimal.PadStart | js/utils/storage.js:19 | `padStart(len, fill)` keeps the string as its suffix, is at least `len` long and is filled with `fill` in front |
| Decimal.ParseIntOfDecimal | js/app.js:239 | `parseInt` reads `String(n)` back as `n` even with a tail after it, provided the tail does not continue the digits or make a lone `0` a hexadecimal prefix |
| Storage.SaveThenGet | js/utils/storage.js:6-14 | `getTasks` after `saveTasks(ts)` yields `ts` |
| Storage.AddTask | js/utils/storage.js:17-25 | `addTask` writes the list with one more task; earlier tasks are unchanged, the new task is last, has the given fields, the id for the old count plus one, and both timestamps equal the clock |
| Storage.RecordIdRoundTrip | js/utils/storage.js:19 | the number can be read back out of `rec_` + the zero-padded count |
| Storage.RecordIdInjective | js/utils/storage.js:19 | different counts give different ids |
| Storage.RecordIdExamples | js/utils/storage.js:19 | the ids for 1, 42 and 1000 are rec_001, rec_042 and rec_1000 |
| Storage.NumberedIdsAreUnique | js/utils/storage.js:19 | a list whose ids are those `addTask` gives at each position has no two tasks with the same id |
| Storage.AddKeepsNumbering | js/utils/storage.js:17-25 | adding to a list numbered by position keeps it numbered by position |
| Storage.AddAllKeepsNumbering | js/utils/storage.js:17-25 | any number of adds to a list numbered by position (such as an absent key) keeps it numbered and its ids distinct, so n adds to empty storage give rec_001 … rec_n |
| Storage.DeleteThenAddRepeatsId | js/utils/storage.js:17-45 | three adds, deleting rec_002 and one more add leave two tasks with id rec_003: ids are unique only without deletes |
| Storage.FindIndex | js/utils/storage.js:30 | `findIndex` by id yields the first position whose task has the id, and nothing exactly when no task has it |
| Storage.UpdateTask | js/utils/storage.js:28-38 | with no task having the id, `updateTask` returns null and does not write; otherwise it replaces only the first task with the id and keeps the length and every other task |
| Storage.UpdatedTaskIsMerge | js/utils/storage.js:30-35 | the replacing task is the old one with the given fields overwritten, the others kept, the id and creation time kept, and `updatedAt` the clock |
| Storage.UpdateKeepsNumbering | js/utils/storage.js:28-38 | an update keeps a list numbered by position |
| Storage.DeleteRemovesAllMatches | js/utils/storage.js:41-45 | `deleteTask` always writes; it removes every task with the id and keeps every other task with its multiplicity and in its order |
| Storage.DeleteAbsentId | js/utils/storage.js:41-45 | deleting an id no task has leaves the list as it was |
| Storage.AddKeepsTimestampsOrdered | js/utils/storage.js:17-25 | adding keeps every task's creation time at or before its update time |
| Storage.UpdateKeepsTimestampsOrdered | js/utils/storage.js:28-38 | with a clock not earlier than any creation time, an update keeps creation at or before update |
| Storage.DeleteKeepsTimestampsOrdered | js/utils/storage.js:41-45 | deleting keeps creation at or before update |
| Storage.ImportData | js/utils/storage.js:48-60 | `importData` succeeds exactly when the text parses to an array; it then replaces the whole list with that array, and otherwise leaves the storage untouched |
| Storage.ExportImportRoundTrip | js/utils/storage.js:48-66 | importing what `exportData` produced reproduces the exported list, given a parser that reads back what the serialiser writes |
| StableSort.SortDescending | js/app.js:140-141 | the sort by descending numeric key is a permutation of its input and is ordered by descending key |
| StableSort.SortIsStable | js/app.js:140-141 | for every key value, the elements with that key keep their relative order |
| StableSort.SortHeadIsFirstMax | js/app.js:140-143 | the first element after sorting is the first element of largest key in the input |
| StableSort.TopOfSortIsStable | js/app.js:146-148 | a prefix of the sort takes elements with equal keys in their input order |
| Dashboard.FormatIsQuantities | js/app.js:150-157 | the source's plural rules (`h > 1`, `m > 1`, `mins !== 1`) equal "plural unless exactly one" on the values each sees, so the text is the hours and the leftover minutes, each with its unit |
| Dashboard.HoursAndMinutesRoundTrip | js/app.js:150-157 | the hours-and-minutes text reads back as the minutes it was made from |
| Dashboard.FormatHrsMinsRoundTrip | js/app.js:150-157 | `formatDurationHrsMins` loses nothing: its text reads back as its argument |
| Dashboard.FormatHrsMinsExamplesBelowAnHour | js/app.js:156 | 0, 1 and 45 minutes are "0 mins", "1 min" and "45 mins" |
| Dashboard.FormatHrsMinsExamplesWholeHours | js/app.js:151-154 | 60 and 120 minutes are "1 hr" and "2 hrs" |
| Dashboard.FormatHrsMinsExamplesMixed | js/app.js:151-154 | 61 and 125 minutes are "1 hr 1 min" and "2 hrs 5 mins" |
| Dashboard.TotalAfterAddAndUpdate | js/app.js:126 | adding a task raises the total duration by its duration; an update changes it by the difference between new and old duration |
| Dashboard.DurationUnitOf | js/app.js:125-128 | hours are shown exactly when the stored setting is "hours"; a missing setting means minutes |
| Dashboard.RoundedHundredths | js/app.js:129-130 | `toFixed(2)` of minutes / 60 picks the hundredth of an hour nearest to the minutes |
| Dashboard.TotalDurationTextReadsBack | js/app.js:125-131 | the total text reads back as the total in minutes; in hours, as the exact hours when whole and otherwise as the nearest hundredth |
| Dashboard.TotalDurationTextExamples | js/app.js:125-131 | 125 minutes are "2.08 hrs" or "125 mins"; 120 minutes are "2 hrs" |
| Dashboard.TallyIsTallyOf | js/app.js:135-138 | the tag-count object has one entry per distinct tag, in the order of each tag's first task, counting the tasks with that tag |
| Dashboard.TallyEmptyIffNoTasks | js/app.js:135-143 | the tag-count object is empty exactly when there are no tasks |
| Dashboard.MostUsedTagIsFirstMostFrequent | js/app.js:135-143 | the most used tag is missing (shown as `-`) exactly when there are no tasks; otherwise no tag is used more, and among the tags used as often it is the one whose first task comes first |
| Dashboard.MostUsedTagExample | js/app.js:135-143 | with tags A, B, A, C, B the tie between A and B goes to A |
| Dashboard.RecentTasksAreNewest | js/app.js:146-148 | the recent list has min(5, n) tasks drawn from the list, newest first, and no task left out is newer than one shown |
| Dashboard.RecentTasksKeepListOrder | js/app.js:146-148 | recent tasks with the same creation time appear in list order |
| Dashboard.Summarize | js/app.js:118-148 | the count shown is the number of tasks, the tag shown is `-` for no tasks and otherwise the most used tag, and the recent list has min(5, n) entries |
| Submit.DraftOf | js/app.js:236-247 | title, tag and due date are trimmed and the duration is `parseInt` of the field; the trimmed title passes exactly when it is non-empty with no line terminator inside, and the duration passes exactly when `parseInt` reads a positive integer |
| Submit.HandleTaskSubmit | js/app.js:232-257 | a refused draft alerts the joined messages and leaves the storage as it was; an accepted one updates the task being edited when the form carries a non-empty id and adds a task otherwise, with a positive integer duration |
| Submit.AddKeepsTasksValid | js/app.js:256 | adding a task whose fields pass the validators to a list of valid tasks keeps every task valid |
| Submit.UpdateKeepsTasksValid | js/app.js:254 | updating with fields that all pass the validators keeps every task valid |
| Submit.SubmitKeepsTasksValid | js/app.js:247-257 | submitting never stores a task that fails validation, whether it is refused, adds or updates |
| Submit.SubmitChangesCountByAddOnly | js/app.js:253-257 | an accepted new task adds exactly one task, an edit keeps the count, and an edit of an id no task has changes nothing |

## Left out

- The DOM and the page: the theme, the menu, the modal, HTML templating and `innerHTML`. This covers the rendering of each recent task with its duration text, which the model computes but does not render.
- The seed `fetch`, and the Blob, FileReader and download plumbing of export and import. These are asynchronous browser I/O.
- Search. It compiles a `RegExp` from user input, so there is no fixed pattern to model.
- The calendar half of `validateDate`. Whether `new Date("2024-02-30")` is valid differs between engines, so it is the parameter `calendar`.
- The details of `JSON.parse` and `JSON.stringify`, including the pretty-printing of `exportData`. They are parameters or taken to round-trip.
- `getTasks` on a key whose text is not JSON: `JSON.parse` throws, which the model does not represent (the key holds a list or nothing).
- Storage.ImportData: reads every element of an imported array as a complete task. The code stores any array as it is (js/utils/storage.js:50-52), `[1, {}]` included, and the dashboard's total would then be `NaN` (js/app.js:126). The model's `Json` has no such arrays.
- Importing by appending with fresh ids: the code only replaces the whole list, and the model follows the code.
- Decimal.ToDecimal: does not model the exponent form `String` uses from 10^21 on, because durations and counts stay far below it.
- Decimal.ParseInt: does not model the loss of precision beyond 2^53 or `-0`, because the program only shows the value again through `String`, which writes `-0` as `0`.
- Dashboard.RoundedHundredths: models `toFixed(2)` of `minutes / 60` as exact rounding to the nearest hundredth, not as double-precision arithmetic. No tie can occur, and the double nearest to minutes / 60 is far closer than half a hundredth for any realistic total.
- Durations stored as strings, which unvalidated seed or imported data can hold (the `reduce` would then concatenate). The model's durations are integers.
- Tag keys that collide with object prototype properties (a tag named `constructor`), and integer-like tags, which JavaScript objects list before string keys. The model keeps every key in insertion order.
- Storage.Patch: carries only the four fields `handleTaskSubmit` passes; other properties an arbitrary caller could spread into a task are not modelled.
- Dashboard.Summarize: states the count, the tag and the length of the recent list; the total text and the recent tasks themselves are stated by `Dashboard.TotalDurationTextReadsBack` and `Dashboard.RecentTasksAreNewest`.
- Validation.DurationPatternIff: describes the pattern on strings of Unicode scalar values, not of UTF-16 code units. An astral character (one outside the Basic Multilingual Plane) is one character here, so the optional `.` takes it whole and `"1\U{1F600}5"` passes. JavaScript's `.` without the `u` flag takes one of its two code units, so JavaScript refuses that string. `validateDuration` only tests `String` of a number, which is plain ASCII, so the difference cannot arise through it.
- Validation.TitlePatternIff: also describes its pattern on strings of Unicode scalar values. Each half of a surrogate pair is neither whitespace nor a line terminator, so splitting an astral character into two code units does not change the title pattern's answer. Lone surrogates are not modelled.
- The second copy of `formatDurationHrsMins` (js/app.js:172-179) is identical to the first and is modelled once.
