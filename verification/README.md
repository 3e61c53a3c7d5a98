# Task scheduler registry in Dafny

A model of `task_scheduler.py`, an in-memory to-do list. A `Task` holds an id,
a name, a description, an optional due date and a completion flag. A
`TaskManager` keeps tasks in a dict keyed by id, in insertion order. It adds,
removes, edits, lists, searches, sorts and marks tasks.

The model follows the code:

- `Task` is a class whose methods update its fields in place (`tasks.dfy`).
  `TaskRecord` is the value of those fields. Each method of `Task` is
  specified by the function of the same name on `TaskRecord`, and the registry
  applies those same functions to the values it stores.
- `TaskManager` is a class (`registry.dfy`) with two fields. `keys` holds the
  ids in insertion order. `tasks` maps each id to its task value. `Valid()` is
  the registry invariant: the ids are distinct, `keys` lists exactly the ids of
  `tasks`, and every task is filed under its own id.
- Each `print` in the source is a returned `Status`. The operations that print
  tasks (`list_tasks`, `search_task`, `sort_tasks`) return the lines `str(task)`
  gives. `search_task` and `sort_tasks` also return the tasks they print.
- A due date is `NoDate`, `Raw(text)` or `Parsed(date)`. The constructor stores
  its argument as given, so `Raw` is what it stores for a string. Only
  `set_due_date` parses (`dates.dfy`).
- Rendering a task whose due date is a non-empty raw string raises
  `AttributeError`, because `str` has no `strftime`. The empty string is false,
  so it shows as "No due date". `PrintTasks` stops at the first such task and
  reports `AttributeError`.
- `sorted(..., key=lambda x: x.due_date)` raises `TypeError` when it compares
  keys of different types or `None`. This happens whenever there are at least
  two tasks and they are not all parsed dates or all raw strings. `SortTasks`
  reports `TypeError` in that case. Otherwise it returns the stable sort
  (`ordering.dfy`).
- The date grammar is the one `strptime` uses for `"%Y-%m-%d"`:
  - exactly four year digits;
  - a month of one or two digits;
  - a day of one or two characters, where a space before a single digit is allowed;
  - nothing left over.

  A text that fits but names no calendar day (year 0, 29 February 2023) is
  rejected like a malformed one. `strftime` writes the date back with a
  zero-padded four-digit year and two-digit month and day.

Three consequences of the code are easy to miss, and the model keeps them:

- The constructor does not parse a due-date string. It stores the text as
  given, so such a task cannot be displayed (see Findings).
- `strptime` accepts more than the strict `YYYY-MM-DD` form. It also takes
  one-digit months and days, and a space before a one-digit day.
- A missing due date does not sort first. Sorting two or more tasks by due date
  raises `TypeError` when any of them has no due date. It succeeds exactly when
  the tasks all hold parsed dates or all hold raw strings.

## Model

| member | source | states |
|---|---|---|
| `Dates.Parse` | task_scheduler.py:13 | `strptime(text, "%Y-%m-%d")` as a partial function; whatever it accepts has 8 to 10 characters and starts with four digits and a hyphen |
| `Dates.Format` | task_scheduler.py:24 | `strftime("%Y-%m-%d")`: ten characters, four year digits, hyphens at positions 4 and 7, and the canonical form |
| `Dates.ParseSound` | task_scheduler.py:13 | every text `strptime` accepts splits at its two hyphens into a four-digit year, a month field and a day field, and the date is read from those fields |
| `Dates.ParseComplete` | task_scheduler.py:13 | every text made of a four-digit year, a month field and a day field is accepted exactly when it names a calendar day in years 1-9999 (leap years included); otherwise it is a format error |
| `Dates.FormatThenParse` | task_scheduler.py:24 | formatting any valid date with `%Y-%m-%d` and parsing the text gives the same date back |
| `Dates.ParseThenFormat` | task_scheduler.py:24 | a text that parses is given back unchanged by formatting if and only if it is in canonical ten-character form |
| `Dates.CanonicalFormats` | task_scheduler.py:24 | a canonical text that parses is reproduced character for character by formatting the parsed date |
| `Dates.ParseAcceptsCanonical` | task_scheduler.py:11-15 | "2024-05-10" parses to 10 May 2024 |
| `Dates.ParseAcceptsShortFields` | task_scheduler.py:13 | "2024-5-1" and "2024-05- 7" are accepted, as `strptime` accepts them |
| `Dates.ParseAcceptsLeapDay` | task_scheduler.py:13 | "2024-02-29" is accepted |
| `Dates.ParseRejectsNonLeapDay` | task_scheduler.py:13-15 | "2023-02-29" is rejected |
| `Dates.ParseRejectsYearZero` | task_scheduler.py:13-15 | "0000-01-01" is rejected |
| `Dates.ParseRejectsMalformed` | task_scheduler.py:13-15 | "bad-date", a trailing space and a two-digit year are rejected |
| `Text.Lower` | task_scheduler.py:61 | `str.lower()`: same length; each upper-case letter becomes its lower-case partner; no upper-case letter is left; no other character changes |
| `Text.LowerIdempotent` | task_scheduler.py:61 | lower-casing an already lower-cased text changes nothing |
| `Text.Contains` | task_scheduler.py:61 | the `in` test on strings; a keyword is never found in a shorter text |
| `Text.ContainsAt` | task_scheduler.py:61 | the substring test holds exactly when the keyword occurs at some offset of the text |
| `Text.StrLe` | task_scheduler.py:77 | Python's `<=` on strings, by code point; a prefix comes first |
| `Text.StrLeTotal` | task_scheduler.py:77 | any two strings are ordered one way or the other by Python's string comparison |
| `Text.StrLeTransitive` | task_scheduler.py:77 | Python's string comparison is transitive |
| `Text.StrLeAntisymmetric` | task_scheduler.py:77 | two strings ordered both ways are equal |
| `Tasks.Task.constructor` | task_scheduler.py:4-9 | a new task stores exactly the given id, name, description and due date (by default none) and is not completed |
| `Tasks.Task.SetDueDate` | task_scheduler.py:11-15 | on text that parses, the parsed date is stored and `Ok` is reported; otherwise the due date is unchanged and a format error is reported; no other field changes |
| `Tasks.TaskRecord.SetDueDate` | task_scheduler.py:11-15 | reports `Ok` exactly when the text parses; only the due date ever changes; on failure nothing changes and a format error is reported; on success the parsed date is stored, and it always displays |
| `Tasks.SetDueDateRoundTrip` | task_scheduler.py:11-15 | after setting a canonical date, the task displays exactly that text, with its other fields as before |
| `Tasks.TaskRecord.MarkCompleted` | task_scheduler.py:17-18 | the flag is set and every other field is kept |
| `Tasks.TaskRecord.MarkIncomplete` | task_scheduler.py:20-21 | the flag is cleared and every other field is kept |
| `Tasks.Task.MarkCompleted` | task_scheduler.py:17-18 | the flag becomes true and nothing else changes, so a second call changes nothing |
| `Tasks.Task.MarkIncomplete` | task_scheduler.py:20-21 | the flag becomes false and nothing else changes, so a second call changes nothing |
| `Tasks.TaskRecord.Render` | task_scheduler.py:23-26 | `str(task)` fails exactly when the due date is a non-empty unparsed string; otherwise it is the id, name, the due date as `DueDisplay` shows it, and the status word, in the f-string layout |
| `Tasks.DueDisplay` | task_scheduler.py:24 | the due-date part of `str(task)`: fails exactly for a non-empty unparsed string; a missing or empty due date shows "No due date"; a parsed date shows in canonical form and parses back to the same date |
| `Tasks.RawDueDateCannotRender` | task_scheduler.py:8 | a task built with a due-date string, as the program builds its first two tasks, cannot be displayed |
| `Tasks.Created` | task_scheduler.py:4-15 | a task whose due-date text goes through `set_due_date` always renders; text that parses is stored as that date and a canonical one displays as given; missing or invalid text leaves no due date, and invalid text reports a format error |
| `Registry.TaskManager.constructor` | task_scheduler.py:29-30 | a new registry is empty and valid |
| `Registry.TaskManager.Entries` | task_scheduler.py:55 | the tasks in insertion order have the ids in `keys`, and no two have the same id |
| `Registry.TaskManager.AddTask` | task_scheduler.py:32-36 | a taken id leaves the registry, including the existing task, unchanged and reports a duplicate; otherwise the task is appended under its id, the size grows by one and ids stay unique |
| `Registry.TaskManager.RemoveTask` | task_scheduler.py:38-42 | a present id is deleted from its position, the size drops by one and the other tasks keep their order; an absent id changes nothing and reports not-found |
| `Registry.Edited` | task_scheduler.py:46-50 | id and flag are kept; name and description are replaced only by non-empty values; the due date changes only through `set_due_date`, whose failure keeps the name and description edits and reports a format error |
| `Registry.TaskManager.EditTask` | task_scheduler.py:44-52 | a present task is replaced by its edited value and no other task or the order changes; an absent id changes nothing and reports not-found |
| `Registry.PrintTasks` | task_scheduler.py:55-56 | prints one line per task in order; stops with `AttributeError` at the first task that cannot be displayed, and reports `Ok` exactly when every task was printed |
| `Registry.PrintedUnique` | task_scheduler.py:55-56 | the printed lines and the outcome are determined by the tasks alone |
| `Registry.TaskManager.ListTasks` | task_scheduler.py:54-56 | prints every task of the registry in insertion order |
| `Registry.Matches` | task_scheduler.py:61 | the search test; the empty keyword matches every task, and a matching keyword is no longer than the name or the description |
| `Registry.Matching` | task_scheduler.py:59-62 | the `found_tasks` list: no longer than the registry, and every task in it matches |
| `Registry.MatchesIgnoringCase` | task_scheduler.py:61 | the keyword "DOCTOR" finds the task named "Doctor Appointment" |
| `Registry.MatchingPositions` | task_scheduler.py:59-62 | the search result is exactly the tasks whose lower-cased name or description contains the lower-cased keyword, in registry order |
| `Registry.EmptyKeywordMatchesAll` | task_scheduler.py:61 | the empty keyword matches every task |
| `Registry.TaskManager.SearchTask` | task_scheduler.py:58-67 | returns the matching tasks in registry order and prints them; when nothing matches, prints nothing and reports no matches |
| `Registry.TaskManager.MarkIncomplete` | task_scheduler.py:69-73 | a present id clears that task's flag only; an absent id changes nothing and reports not-found |
| `Ordering.KeyOf` | task_scheduler.py:77-79 | the sort key: a `bool` exactly for the completion sort; `None` exactly for a due-date sort of a task without a due date; a string exactly for an unparsed due date; for a parsed due date, that date |
| `Ordering.SortsWithoutError` | task_scheduler.py:77-79 | `sorted` returns without `TypeError`: always for fewer than two tasks, which it never compares; always by completion; by due date for two or more tasks exactly when all hold parsed dates or all hold raw strings, so never when one has no due date |
| `Ordering.Sort` | task_scheduler.py:77-79 | the stable insertion sort that models `sorted`; it keeps the length (its other properties are the lemmas below) |
| `Ordering.SortIsStableSort` | task_scheduler.py:77-79 | the sort returns a permutation of the tasks in non-decreasing key order, and tasks whose keys tie keep their relative order |
| `Ordering.SortPermutes` | task_scheduler.py:77-79 | the sorted list holds exactly the registry's tasks, each as often as before |
| `Ordering.SortSorted` | task_scheduler.py:77-79 | every task in the sorted list has a key no greater than every task after it |
| `Ordering.SortTied` | task_scheduler.py:77-79 | for every key, the tasks tying with it appear in the sorted list in the same order as in the registry |
| `Ordering.DueDateSortOrdersDates` | task_scheduler.py:77 | tasks that all hold parsed dates sort without error, and the result is in calendar order of the due dates |
| `Ordering.DueDateSortExample` | task_scheduler.py:77 | a task due 15 May and one due 5 May sort with 5 May first |
| `Ordering.PendingBeforeCompleted` | task_scheduler.py:79 | sorted by completion status, every pending task comes before every completed one |
| `Registry.TaskManager.SortTasks` | task_scheduler.py:75-84 | `due_date` and `completion_status` return and print the stable sort of the registry; a due-date sort that would compare incomparable keys reports `TypeError`; any other option reports an invalid option and returns nothing; the registry is never changed |

## Left out

- `main()` and its menu loop (task_scheduler.py:86-133): console input and output only.
- Aliasing: the registry stores a copy of the task's value. A caller that keeps the `Task` object and changes it later does not change the registry here, while in Python it would.
- Output text: the informational messages are `Status` values, not strings. An exception is reported as a status. It does not propagate to a caller.
- Lower-casing handles ASCII letters only. Python's `str.lower` also folds other Unicode letters.
- Digits: `strptime`'s `\d` also accepts non-ASCII decimal digits in the year and the day. The model accepts only `0`-`9`.
- Years below 1000: some C libraries' `strftime` write them without zero padding. The model always pads to four digits.
- Arguments of other types: the model passes strings where Python would accept any object, for example a non-string due date to `set_due_date`, which raises `TypeError`.
- Time of day: the model has no time component. `strptime` sets it to midnight, so it never affects a comparison.
- The relative order of keys of different kinds in `Ordering.KeyLe` is an arbitrary choice. A sort that would compare such keys reports `TypeError`, so that order is never observed.

## Findings

| source | as written | input that shows it | evidently intended | confidence | as-written member | corrected member |
|---|---|---|---|---|---|---|
| task_scheduler.py:8 | the constructor stores the due-date string unparsed, so `__str__` calls `strftime` on a `str` and raises `AttributeError` | `Task("1", "Buy groceries", "Buy milk, bread, eggs", "2024-12-01")`, then `str(task)` or `list_tasks()` | the text is parsed as `set_due_date` parses it, so every task can be displayed | high, not executed | `Tasks.RawDueDateCannotRender` | `Tasks.Created` |
