# A verified model of the task-list page logic

The page keeps an ordered list of task records, each with a `name`, a
`dueDate`, a `completed` flag and a `createdAt` timestamp. On load it reads
the saved list and stamps old records that lack `createdAt`. The page's
handlers add a task (with a trimmed name, and today's date when none is
given), tick or untick one, delete one, clear all of them after a
confirmation, and sort the list by due date or by creation time. After every
change the list is rendered into a pending and a completed region, each with
a counter, and saved.

The model keeps the list in one object, `Store.TodoStore`, whose field
`todos: seq<Todo>` the handlers reassign, as the script reassigns and
mutates its module-level `todoList`. Each handler is proved equal to a
function of the list before it (`TodoList.AfterAdd`, `Toggled`, `Deleted`,
`AfterClear`, `Backfilled`), and the properties of the page are proved about
those functions. The render loop and the in-place sort are methods with loop
invariants. `getTodayDate` is a pure formatter proved to read back to the day
it formats.

Files:

- `options.dfy`: `Option`, for fields a stored record may lack.
- `dates.dfy`: `getTodayDate`, decimal digits and `padStart`, and a reader of `y-mm-dd` texts.
- `jstext.dfy`: `String.prototype.trim`.
- `todolist.dfy`: the record and the list operations as functions, with their counting lemmas.
- `sorting.dfy`: the two comparators' keys, sortedness, and the lemmas the sort's loop uses.
- `render.dfy`: the rows and the groups that `renderTodoList` builds.
- `store.dfy`: the class with the load, backfill, render, add, toggle, delete, clear and sort handlers.
- `scenarios.dfy`: client methods that drive the store through the page's own sequences of actions.

Representation choices:

- `dueDate` is `Option<Day>`: `None` stands for an empty or absent value (the
  script treats both as falsy everywhere), `Some(d)` for the calendar day its
  `yyyy-mm-dd` text names. The text itself is not kept.
- `createdAt` is `Option<int>`; `None` is an absent field, and `Some(0)` is
  falsy like it.
- `Date.now()`, `new Date()`, the answer to `confirm` and the date input's
  value are parameters: `now` (for the backfill `clock`, one reading per record), `today` (a `Day`, or a `Dates.LocalDate` for
  the formatter), `confirmed` and `dueInput`.
- The date comparator's key is `Sorting.DayNumber`, an order-preserving day
  number; a missing date gets `FarFuture`, the number of the last day a
  JavaScript `Date` can hold (time value 8.64e15 ms). Comparing these keys is
  comparing calendar days (`Sorting.DayNumberOrder`).

Two facts about the code that the model keeps:

- `deleteTodo` passes its index to `splice`, which removes nothing past the
  end and counts a negative index from the end; `Deleted` models that, rather
  than requiring an index in range.
- The load is `JSON.parse(...) || []` (Logics/logic.js:4): an absent slot, or
  a saved text that decodes to a falsy JSON value (`null`, `false`, `0`,
  `""`), loads as `[]`. The constructor's `None` stands for all of these,
  and `Some(list)` for a saved text that decodes to a list. A malformed
  saved text, on which `JSON.parse` throws, is not modelled.

## Model

| member | source | states |
|---|---|---|
| `Store.TodoStore.Load` | Logics/logic.js:4 | the list is the decoded saved list, or empty when the slot is absent or decodes to a falsy value |
| `TodoList.Backfilled` | Logics/logic.js:8-11 | a record keeps its name, date and flag; its `createdAt` becomes the clock reading `now` exactly when it was absent or 0, a record with a truthy `createdAt` is unchanged, and with `now != 0` the result has a truthy `createdAt` |
| `Store.TodoStore.BackfillCreatedAt` | Logics/logic.js:8-11 | length and order are kept, record `i` is replaced by its backfilled form with the clock reading taken at record `i`, and when no reading is 0 no record lacks `createdAt` afterwards |
| `Dates.NatToString` | Logics/logic.js:25-27 | for `n` below 10^21, where JavaScript prints no exponent (every calendar field is), `String(n)` is a non-empty run of decimal digits with a leading zero only for 0 |
| `Dates.DecimalValueOfNatToString` | Logics/logic.js:25-27 | the digits of `String(n)` read back to `n` |
| `Dates.PadStart` | Logics/logic.js:26-27 | `padStart` yields `max(|s|, len)` characters: fill characters followed by `s` unchanged |
| `Dates.TwoDigitsShape` | Logics/logic.js:26-27 | a month or day number below 100, padded, is exactly two digits that read back to the number |
| `Dates.GetTodayDate` | Logics/logic.js:23-28 | `${String(getFullYear())}-${pad2(getMonth() + 1)}-${pad2(getDate())}`; what the text means is stated by `GetTodayDateRoundTrip` and `GetTodayDateLength` |
| `Dates.GetTodayDateRoundTrip` | Logics/logic.js:23-29 | for real calendar fields the text is year digits, a dash, two digits, a dash and two digits, and reading it back gives year, `getMonth() + 1` and `getDate()`: the formatter loses nothing |
| `Dates.GetTodayDateLength` | Logics/logic.js:23-29 | with a four-digit year the text has ten characters |
| `JsText.Trim` | Logics/logic.js:107 | the trimmed name is the slice of the input between leading and trailing whitespace, starts and ends with non-whitespace, and is empty exactly when the input is whitespace only |
| `JsText.TrimKeepsTrimmed` | Logics/logic.js:107 | a name typed without surrounding whitespace is kept exactly as typed |
| `JsText.TrimIdempotent` | Logics/logic.js:107 | trimming an already trimmed name changes nothing |
| `TodoList.AfterAdd` | Logics/logic.js:105-121 | a whitespace-only name leaves the list unchanged; otherwise one record is appended after the untouched old list, with the trimmed name, the given date or today, `completed = false` and `createdAt = now`, and the pending count rises by one |
| `Store.TodoStore.AddTodo` | Logics/logic.js:105-129 | reports whether the name was accepted and leaves the list as `AfterAdd` says |
| `TodoList.Toggled` | Logics/logic.js:133-134 | only `completed` at the index flips; the record's other fields and every other record are unchanged |
| `TodoList.ToggleTwice` | Logics/logic.js:133-134 | toggling the same index twice restores the list |
| `TodoList.ToggleCount` | Logics/logic.js:133-134 | a toggle moves exactly one record between the pending and the completed count |
| `Store.TodoStore.ToggleComplete` | Logics/logic.js:133-136 | the list becomes `Toggled` of the old list, for an index of the current list |
| `TodoList.Deleted` | Logics/logic.js:139-140 | `splice(index, 1)` removes the record at the splice start, keeps the records before it, shifts the later ones down by one and drops nothing else (multiset), and past the end leaves the list unchanged; an index in range is the start itself, a negative one counts from the end |
| `TodoList.DeleteCount` | Logics/logic.js:139-140 | deleting a record lowers only its own group's count, by one |
| `Store.TodoStore.DeleteTodo` | Logics/logic.js:139-142 | the list becomes `Deleted` of the old list |
| `TodoList.AfterClear` | Logics/logic.js:145-151 | the list becomes empty exactly when it was empty or the user confirmed; otherwise it is unchanged |
| `Store.TodoStore.ClearAll` | Logics/logic.js:145-151 | the list becomes `AfterClear` of the old list |
| `Sorting.Compare` | Logics/logic.js:165-175 | with the keys `DueKey` (`a.dueDate ? new Date(a.dueDate) : new Date(8640000000000000)`, Logics/logic.js:168-169) and `CreatedKey` (`a.createdAt`, or 0 when that is falsy, Logics/logic.js:174), the comparator is negative, zero or positive exactly as the first record's key is below, equal to or above the second's |
| `Sorting.DayNumberOrder` | Logics/logic.js:168-170 | for valid days the date key orders days as the calendar does and identifies equal days |
| `Sorting.ValidDayBeforeFarFuture` | Logics/logic.js:166-169 | every valid day's key is below the key of a missing date |
| `Sorting.SortedByDateUndatedLast` | Logics/logic.js:165-171 | in a list sorted by date, no record with a due date follows one without |
| `Sorting.WithKeyAppend` | Logics/logic.js:165-175 | the records with one key in a concatenation are those of the first part followed by those of the second |
| `Sorting.SwapKeepsOrderPerKey` | Logics/logic.js:165-175 | exchanging two neighbours whose keys differ keeps the order of the records within every key, so a sort that only makes such exchanges is stable |
| `Sorting.SortedStableUnique` | Logics/logic.js:165-175 | two sorted lists that keep each key's records in the same order are equal: with either comparator, every stable sort returns the same list |
| `Store.TodoStore.SortTodos` | Logics/logic.js:159-178 | the list ends sorted by the option's key, is a permutation of the old list, and is stable: records with equal keys keep their relative order, so the result is the one any stable `sort` gives; a list already in order is left as it was, so sorting twice equals sorting once |
| `TodoList.CountPartition` | Logics/logic.js:84-90 | every record is counted as pending or as completed |
| `Render.DueLabel` | Logics/logic.js:69 | the due-date cell shows the record's date, or today when it has none |
| `Render.Group` | Logics/logic.js:47-91 | each row of a region comes from a record of that region's kind, carries that record's index, text, flag and date label, and the rows keep list order |
| `Render.GroupSize` | Logics/logic.js:84-90 | a region has as many rows as there are records of its kind |
| `Render.GroupComplete` | Logics/logic.js:47-91 | every record of a region's kind has a row there |
| `Render.GroupsPartition` | Logics/logic.js:43-91 | the two regions together hold one row per record |
| `Store.TodoStore.RenderTodoList` | Logics/logic.js:43-97 | the loop's pending and completed rows are the two groups and its counters are their sizes, which add up to the list length |

## Left out

- Saving (`saveTodoList`, Logics/logic.js:18-20) and the storage read with `JSON.parse` (Logics/logic.js:4): browser storage and a library serialiser. The constructor takes the decoded list, or `None` for an absent slot or a falsy decoded value; a malformed saved text, on which `JSON.parse` throws, is not modelled.
- All DOM work: clearing the containers, creating elements, class names, event listeners and writing the counters into spans (Logics/logic.js:36-41, 49-82, 94-97). The rows and counts these would show are modelled.
- `alert` and `confirm` (Logics/logic.js:113, 147): the alert is `AddTodo` returning `false` with no change, and the answer to the confirmation is the `confirmed` parameter.
- Clearing the input fields after a successful add (Logics/logic.js:124-125): user-interface state only.
- The selector's scale pulse and its timer (Logics/logic.js:162-163): cosmetic.
- `Date.now()` and `new Date()`: the current time and today's date are parameters. The backfill reads the clock once per record that lacks a truthy `createdAt`, so `BackfillCreatedAt` takes one reading `clock[i]` per record, and the readings of the other records are unused; that the readings never decrease is not assumed or used.
- Store.TodoStore.RenderTodoList: takes one `today` for every undated row, while the script's `todo.dueDate || getTodayDate()` (Logics/logic.js:69) reads the date once per row, so undated rows of one render that straddles midnight could show different days there.
- Parsing a `dueDate` text with `new Date(string)`: a due date is represented by the day it names, and the exact text of a stored date (for instance a zero-padded year) is not kept. `Day` also admits fields that name no day (month 13, February 31); on those the key is still `DayNumber`, which the script does not reproduce: month 13 ties with January 1 of the next year and February 31 sorts between February 28 and March 1, while the script's result for such a text depends on how the engine's `Date` parses it. The calendar facts about the key (`DayNumberOrder`, `ValidDayBeforeFarFuture`, `SortedByDateUndatedLast`) are proved only under `ValidDay`, which itself still admits February 30 and 31.
- The `createdAt` values `NaN` and non-number values, which JavaScript also treats as falsy: timestamps are integers here.
- The engine's `Array.prototype.sort` algorithm is not visible; `SortTodos` is an insertion sort with the same comparator. The language requires that sort to be stable, and `SortedStableUnique` shows that any two stable sorts with one comparator give the same list, so the order is that of the engine's sort.
- Store.TodoStore.ToggleComplete: requires an index of the current list, because on any other index the script throws a TypeError rather than handling it.
- `eventKeydown` (Logics/logic.js:183): it only calls `addTodo` on the Enter key.
