# Task Manager: a verified model of the task list

This project models the task-list logic of the Task Manager command-line
program (`todo_app.py`): the due-date validator, the three operations that
change the list in place (add, mark complete, delete) and what the listing
shows, including the overdue rule. It proves properties of that model in
Dafny.

- `wrappers.dfy` (module `Wrappers`): `Option` and `Result`.
- `dates.dfy` (module `Dates`): Gregorian dates with leap years, the
  `strptime("%Y-%m-%d")` pattern match, the calendar checks `datetime`
  makes, `strftime("%Y-%m-%d")`, and `validate_date` with the current date
  passed in as `today`. A day count since 0001-01-01 (`Ordinal`) gives an
  independent reading of "strictly before".
- `tasks.dfy` (module `Tasks`): the `Task` record and the class `TaskStore`,
  whose field `tasks` is the shared list. `AddTask`, `MarkComplete` and
  `DeleteTask` are methods. The two scans are loops with an early return,
  as in the source. Each method is proved against a function of the old
  list: `Added`, `Completed` or `Removed`. A ghost counter `saves` counts
  the calls of `save_tasks`. The id lemmas are in this file too.
- `listing.dfy` (module `Listing`): `display_tasks` as a pure function from
  the list, the `incomplete_only` flag and `today` to either "No tasks
  found." or the sequence of printed rows.

The model keeps these behaviours of the code:

- Ids are `len(tasks) + 1`, not "largest id + 1". With n tasks this is
  sound exactly when no task already has id n + 1 (`AddUniqueIff`), in
  particular while the ids are exactly 1..n (`AddKeepsDense`). Deleting
  any id but the largest from ids 1..n and then adding a task reuses the
  largest id (`DeleteThenAddDuplicates`).
- "No tasks found." is printed only when the unfiltered list is empty. An
  incomplete-only listing of a list whose tasks are all completed prints
  nothing at all.
- `mark_complete` saves whenever the id is found, even when the task was
  already completed. So the list is unchanged by a second call, but the
  save counter is not.

## Model

| member | source | states |
|---|---|---|
| `Dates.Before` | todo_app.py:35 | Python's `date <`: lexicographic on (year, month, day); it never holds between equal dates (its agreement with the day count is `BeforeIsOrdinalLess`) |
| `Dates.ScanMonth` | todo_app.py:34 | the `%m` alternatives 1[0-2], 0[1-9], [1-9] each followed by '-': a match gives a month in 1..12, and the text read before the '-' is a spelling of that month (two digits, or one without the leading zero) |
| `Dates.ScanDay` | todo_app.py:34 | the `%d` alternatives 3[01], [12]d, 0[1-9], [1-9], space + [1-9], first match wins: a day in 1..31, and the text read is a spelling of that day (two digits, one digit, or space and one digit) |
| `Dates.ScanMonthReads` | todo_app.py:34 | conversely, any spelling of month m followed by '-' is read as m |
| `Dates.ScanDayReads` | todo_app.py:34 | conversely, any spelling of day d that ends the text is read as d |
| `Dates.Scan` | todo_app.py:34 | four ASCII digits, '-', month, day, and no characters left over; the fields found are within 0..9999, 1..12, 1..31 |
| `Dates.ScanIsSpelling` | todo_app.py:34 | a text the pattern matches is a spelling of the fields it produced: the four year digits, '-', a month spelling, '-', a day spelling |
| `Dates.SpellingIsScanned` | todo_app.py:34 | every such spelling of fields in range is matched and read as those fields |
| `Dates.ScanSpellings` | todo_app.py:34 | the pattern reads s as d iff d is in range and s is one of its spellings |
| `Dates.ParseSpellings` | todo_app.py:34 | strptime gives d iff d is a valid date and s is one of its spellings, so "2027-3-5", "2027-03-5" and "2027-03- 5" all read as 5 March 2027 |
| `Dates.Parse` | todo_app.py:34 | strptime succeeds exactly when the match succeeds and the fields form a real date (year 1..9999, day within the month, 29 February only in leap years) |
| `Dates.Format` | todo_app.py:37 | strftime gives ten characters, digits except '-' at positions 4 and 7 |
| `Dates.ParseFormat` | todo_app.py:34-37 | parsing the formatted form of any valid date gives that date back |
| `Dates.CanonicalFormat` | todo_app.py:34-37 | a ten-character, space-free text that parses is exactly the formatted form of its date |
| `Dates.BeforeIsOrdinalLess` | todo_app.py:35 | for valid dates, comparing (year, month, day) is comparing day numbers since 0001-01-01, and equal dates are equal day numbers |
| `Dates.ValidateDate` | todo_app.py:31-39 | succeeds iff the text parses and the date is not strictly before today; the result is then the canonical form; the format error is reported iff parsing fails, the past-date error otherwise |
| `Dates.ValidateIdempotent` | todo_app.py:34-37 | validating a successful result again with the same today returns the same string |
| `Dates.ValidateKeepsCanonical` | todo_app.py:34-37 | an accepted text already written as YYYY-MM-DD comes back unchanged |
| `Dates.ValidateAcceptsToday` | todo_app.py:35-37 | today's own date is accepted |
| `Dates.ValidateByOrdinal` | todo_app.py:35-37 | a valid date is accepted iff its day number is at least today's |
| `Dates.ValidateRefusalExamples` | todo_app.py:34-39 | "2020-01-01" is refused as past, "not-a-date" as badly formatted |
| `Dates.ValidatePaddingExamples` | todo_app.py:34-37 | "2027-3-5" and "2027-03- 5" are accepted and both come back as "2027-03-05" |
| `Dates.ValidateLeapDayExamples` | todo_app.py:34 | 2027-02-29 is refused, 2028-02-29 accepted |
| `Dates.ValidateMalformedExamples` | todo_app.py:34 | month 13 and a trailing extra digit are refused as badly formatted |
| `Tasks.Added` | todo_app.py:44-52 | exactly one record is appended and the earlier ones are untouched; it has id old length + 1, completed false, the given description, due date and timestamp, and the given category or "General" |
| `Tasks.FirstIndex` | todo_app.py:62-63 | the scan finds the first position whose id matches, and finds none iff no record has that id |
| `Tasks.Completed` | todo_app.py:62-67 | an absent id leaves the list as it was; otherwise only the first matching record changes, and only its completed flag, which becomes true |
| `Tasks.Removed` | todo_app.py:75-79 | an absent id leaves the list as it was; otherwise the result is the list before the first match followed by the list after it |
| `Tasks.TaskStore.constructor` | todo_app.py:105 | the store starts with the loaded list and no save |
| `Tasks.TaskStore.AddTask` | todo_app.py:41-57 | the list becomes `Added` of the old list, and one save happens |
| `Tasks.TaskStore.MarkComplete` | todo_app.py:59-70 | reports found iff some record has the id; the list becomes `Completed` of the old list; a save happens iff found |
| `Tasks.TaskStore.DeleteTask` | todo_app.py:72-83 | reports found iff some record has the id; the list becomes `Removed` of the old list; a save happens iff found |
| `Tasks.CompleteIdempotent` | todo_app.py:62-67 | marking the same id twice gives the same list as marking it once |
| `Tasks.SameIdsSameIndex` | todo_app.py:62-63 | the first match depends only on the ids of the list |
| `Tasks.AbsentIdChangesNothing` | todo_app.py:59-83 | with an absent id both mark-complete and delete leave the list unchanged |
| `Tasks.AddUniqueIff` | todo_app.py:45 | with unique ids, adding keeps them unique iff no record already has id length + 1 |
| `Tasks.AddKeepsDense` | todo_app.py:45 | while the ids are exactly 1..n, the new id n + 1 is fresh and the ids afterwards are exactly 1..n + 1 |
| `Tasks.CompleteKeepsIds` | todo_app.py:64 | marking complete changes no id, so ids exactly 1..n stay so |
| `Tasks.RemoveKeepsUnique` | todo_app.py:77 | deleting keeps the remaining ids unique |
| `Tasks.DenseHasEveryId` | todo_app.py:45 | when the ids are exactly 1..n, every number of 1..n is in use |
| `Tasks.DeleteThenAddDuplicates` | todo_app.py:45-77 | from ids exactly 1..n, deleting any id other than n and then adding duplicates id n |
| `Tasks.DeleteThenAddExample` | todo_app.py:45-77 | ids [1, 2, 3], delete 2, then add: the new task gets id 3 and the ids are no longer unique |
| `Tasks.SessionExample` | todo_app.py:41-83 | on an empty list, add "Buy milk" without a category gives task 1 in "General", not completed; marking 1 completes it; deleting 1 empties the list |
| `Listing.Overdue` | todo_app.py:96-100 | overdue needs a due date, an open task and a due date other than today (the full rule is `OverdueRule`) |
| `Listing.RowsOf` | todo_app.py:91-101 | the loop gives at most one row per task, exactly one per task without the filter, and only rows of open tasks with the filter |
| `Listing.DisplayTasks` | todo_app.py:85-101 | "No tasks found." iff the unfiltered list is empty; otherwise the rows of the loop |
| `Listing.RowsOfAppend` | todo_app.py:91-101 | rows of a concatenation are the rows of its first part followed by those of its second, so rows follow list order |
| `Listing.RowsOfAll` | todo_app.py:91-101 | without the filter there is one row per task, at the task's own position |
| `Listing.RowsOfMembers` | todo_app.py:91-93 | every row comes from a listed task, and every listed task has its row |
| `Listing.RowsOfIncomplete` | todo_app.py:92-93 | with the filter every row is of an incomplete task and there is one per incomplete task |
| `Listing.OverdueRule` | todo_app.py:96-100 | a row is overdue iff a due date is present, the task is open and the due date is strictly before today; completed tasks and tasks due today are never overdue |
| `Listing.OverdueByOrdinal` | todo_app.py:99 | with valid dates, overdue iff the task is open and the due day number is below today's |
| `Listing.OverdueExample` | todo_app.py:96-100 | due yesterday and open is overdue; completed, or due today, is not |
| `Listing.AllCompletedShowsNoRows` | todo_app.py:87-93 | a non-empty list whose tasks are all completed, listed incomplete-only, gives no rows and no "No tasks found." message |

## Left out

- `load_tasks` and `save_tasks` (todo_app.py:9-29): JSON file input and output. The store starts from a given list, and a save is only a step of the ghost counter `saves`.
- The menu loop in `main` (todo_app.py:103-167): the reading and stripping of input, the empty-description check, the `int(...)` parsing of ids, and the `or "General"` default for an empty category. The caller passes a category of `None` for the default of `add_task` itself.
- The clock: `datetime.now()` at todo_app.py:35, 49 and 90 becomes the parameter `today` or the timestamp text `createdAt`.
- Printed messages and the broad `except Exception` handlers. The found flag returned by `MarkComplete` and `DeleteTask` stands for the choice between the two messages. The `Err` cases of `ValidateDate` stand for the two error texts.
- `Dates.Scan`: Python's `\d` also matches non-ASCII decimal digits; the model accepts ASCII digits only.
- `Dates.Format`: it always pads the year to four digits. Some platforms' `strftime` print years below 1000 without padding; such dates are refused as past whenever today is in year 1000 or later.
- `Listing.DisplayTasks`: the due date is stored as a `Date`, not as its text, so the listing does not re-parse it. `ParseFormat` shows the re-parse of a validated date gives the same date. A malformed date in a loaded file would make the source raise there; that is not modelled.
