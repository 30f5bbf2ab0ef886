# To-do manager: task store, due-today queries, list display and reminder queue

`app.py` is a desktop to-do manager. Its widgets are thin. Behind them is
a SQLite table `tasks` with these columns:

- `id INTEGER PRIMARY KEY AUTOINCREMENT`;
- `title`, `description`, `deadline` and `status`, all TEXT;
- `reminder INTEGER`.

The buttons and the context menu insert, update, delete and re-status the
row that is selected in the list, and they toggle its reminder flag. The
Clear button empties the form and drops the selection. Every
load lists all rows, tags each one for colouring, and pops up the titles
due today. A background thread regularly queries the tasks that are due
today and have a reminder set, and queues their titles. The Tk loop drains
that queue into pop-ups.

This project models that logic in Dafny.

- `py_text.dfy` (`PyText`) holds two pieces of Python string behaviour the
  program depends on:
  - `str.strip()` with no argument, using CPython's whitespace set;
  - the `<` operator on `str`. Python compares strings lexicographically,
    and a proper prefix is smaller. This is not Dafny's `<` on sequences.
- `iso_date.dfy` (`IsoDate`) covers the `full-date` form of RFC 3339. It
  proves the claim of section 5.1 of RFC 3339 for that form: comparing two
  dates as strings gives their calendar order. That claim is what makes
  `deadline < today` in `load_tasks` mean "overdue".
- `key_order.dfy` (`KeyOrder`) defines a set of integer keys listed in
  ascending order. `SELECT ... FROM tasks` has no `ORDER BY`, so SQLite
  scans the rowid B-tree in ascending id. The module proves that this
  listing is the only increasing listing of the keys, and that a key above
  all others is listed last.
- `task_table.dfy` (`TaskTable`) models the table as a value, a
  `map<int, Task>`. On that value it defines:
  - the two due-today queries, as order-preserving filters of the scan;
  - the tag rule and the Yes/No rendering of `load_tasks`;
  - the reminder toggle.
- `todo_app.dfy` (`App`) holds the mutable parts in class `TodoApp`:
  - the table and its AUTOINCREMENT counter, whose value is the
    `sqlite_sequence` entry;
  - the selected id;
  - the reminder queue.

  Each handler is a method whose contract states the new state. Update,
  delete, status change and toggle act only when a row is selected; adding
  and selecting need no selection. The invariant `StoreInvariant` says three things:
  - every stored row has a non-empty, stripped title, a stripped
    description and a 0/1 flag;
  - every live id was issued by the counter;
  - the counter is at least every id ever issued, so ids are never reused.

Two values are parameters rather than state:

- `today` is a parameter; it stands for `datetime.date.today()`;
- the answer to the deletion dialog is a `confirmed` parameter.

The selected id is the value shown in the list's first column. Tk returns
it as text. SQLite's INTEGER affinity compares that text as the number, so
the model keeps it as an `int`.

The `SELECT` that loads the list (app.py:285) has no `ORDER BY`, so rows
come back in ascending id. That is also insertion order, because every
insert takes an id above all earlier ones: `TaskTable.ScanOrderInsert`
together with the id guarantee of `App.TodoApp.AddTask` shows this.

## Model

| member | source | states |
|---|---|---|
| PyText.Strip | app.py:321-322 | `strip()` is a slice of the input with only whitespace cut off before and after it; it is empty exactly when the text is all whitespace, and otherwise it neither starts nor ends with whitespace |
| PyText.StripFixedPoints | app.py:321-322 | `strip()` leaves a string unchanged exactly when it has no whitespace at either end |
| PyText.StripIdempotent | app.py:350-351 | stripping an already stripped title or description changes nothing |
| PyText.LexTrichotomy | app.py:301-303 | Python's `<` on `str` is trichotomous: exactly one of `a < b`, `a == b`, `b < a` holds |
| PyText.LexTransitive | app.py:301-303 | Python's `<` on `str` is transitive, so with trichotomy it is a strict total order |
| IsoDate.DigitsOrder | app.py:299-303 | for digit strings of equal length, string order and string equality coincide with numeric order and numeric equality |
| IsoDate.FullDateOrder | app.py:299-303 | for `YYYY-MM-DD` dates, string `<` is calendar "earlier" and string `==` is "same day" (section 5.1 of RFC 3339) |
| KeyOrder.Ascending | app.py:285 | the scan lists every key exactly once, nothing else, in strictly increasing order |
| KeyOrder.AscendingUnique | app.py:285 | any strictly increasing listing of a key set is the scan order of that set |
| TaskTable.ScanOrderInsert | app.py:331-334 | a row inserted under an id above every present id is listed last; the other rows keep their order |
| TaskTable.SelectDue | app.py:511 | the filter keeps exactly those listed ids whose row is due (deadline is today, status not Completed, and for the poll reminder = 1), and only stored ids; on an increasing list such as the scan the result is increasing, so each kept id appears once and in scan order |
| TaskTable.DueRows | app.py:511 | an id is in the due-today result exactly when it is stored and its row is due; the result is in increasing id order |
| TaskTable.DueRowsAreSortedDueSet | app.py:511 | the due-today result is the set of due ids in ascending order |
| TaskTable.RefineListsReminderSet | app.py:539-543 | keeping the due-today rows that have reminder = 1 lists exactly the rows the reminder poll selects |
| TaskTable.ReminderRowsRefineDueRows | app.py:539-543 | the reminder poll returns the due-today rows restricted to reminder = 1, in the same order |
| TaskTable.ReminderListedOnce | app.py:539-546 | one poll lists a stored task exactly once if it is due with its reminder set, and never otherwise |
| TaskTable.CompletedIsNeverDue | app.py:472 | after a row's status is set to Completed, neither query returns it |
| TaskTable.DeletedIsNeverDue | app.py:384 | after a row is deleted, neither query returns it |
| TaskTable.TagCases | app.py:292-303 | the tag is "completed" iff status is Completed, whatever the date; otherwise "duetoday" iff deadline == today; otherwise "overdue" iff deadline < today; otherwise "inprogress" iff status is In Progress, and "pending" for every other status |
| TaskTable.TagFollowsCalendar | app.py:299-303 | for well-formed dates, a task that is not completed is tagged overdue exactly when its deadline is an earlier day, and due today exactly on the same day |
| TaskTable.DueTagMatchesSummary | app.py:300-301 | a row is highlighted as due today exactly when the due-today summary lists it |
| TaskTable.ReminderFlag | app.py:325 | the checkbox is stored as 0 or 1: 1 exactly when it is ticked |
| TaskTable.ReminderLabelRoundTrip | app.py:290 | the label displayed at line 290 reads back on selection (app.py:425) as checked exactly when the flag is 1, and a 0/1 flag survives display, that read-back and storing (app.py:325) |
| TaskTable.Toggled | app.py:492 | the toggled flag is 0 or 1, and it is 1 exactly when the old flag was not 1 |
| TaskTable.ToggleTwice | app.py:492 | toggling twice restores the flag exactly when it was 0 or 1 |
| App.FormRow | app.py:321-325 | the row built from the form holds `strip()` of the typed title and description, the deadline and status as given, and a reminder of 1 exactly when the box is ticked; whenever the title is not blank it keeps the store invariant |
| App.UnchangedFormKeepsRow | app.py:346-365 | selecting a stored row and updating without edits is accepted and writes back the identical row |
| App.InsertKeeps | app.py:94-103 | inserting under the next counter value keeps the store invariant; the new id was never issued and is above every issued id |
| App.ReplaceKeeps | app.py:361-364 | replacing a row with a well-formed one, or deleting it, keeps the store invariant |
| App.TodoApp.constructor | app.py:89-103 | the store opens on the rows already saved, with nothing selected and an empty queue, in a valid state |
| App.TodoApp.Select | app.py:395-425 | selecting a line records its id and fills the form from that line |
| App.TodoApp.ClearEntries | app.py:443-456 | the Clear button empties title and description, sets the status to Pending, unticks the box and clears the selection, so the selection-guarded handlers do nothing until a new line is selected |
| App.TodoApp.AddTask | app.py:320-343 | a blank title changes nothing; otherwise exactly one row is added, holding the stripped title and description and the given deadline, status and flag, under the id old counter + 1 (never issued before and above every earlier id), which becomes the new counter; the selection is cleared |
| App.TodoApp.UpdateTask | app.py:346-372 | with nothing selected or a blank title nothing changes; otherwise all five columns of the selected row are replaced if it exists (and nothing is written otherwise), every other row is unchanged, and the selection is cleared |
| App.TodoApp.DeleteTask | app.py:375-392 | with nothing selected or the dialog declined nothing changes; otherwise exactly the selected row is removed (if present) and the selection is cleared; issued ids are kept, so none is reused |
| App.TodoApp.ChangeStatus | app.py:467-481 | with a selection, only the status column of that row changes (if it exists); the selection stays |
| App.TodoApp.ToggleReminder | app.py:484-504 | with a selection whose row exists, that row's flag becomes `0 if current == 1 else 1` and nothing else changes; a missing row writes nothing and reports the failed read |
| App.RenderLines | app.py:288-305 | the loop over the fetched rows shows one line per row, line i rendering the i-th row with its Yes/No reminder and its tag |
| App.TodoApp.LoadTasks | app.py:280-317 | one line per stored task, in scan order, each rendered with its Yes/No reminder and its tag, followed by the due-today summary titles |
| App.TodoApp.ReminderCheckCycle | app.py:536-546 | one poll appends to the queue the titles of the rows due today with reminder = 1, in scan order, after what was already queued |
| App.TodoApp.Enqueue | app.py:545-546 | putting the titles one by one appends them to the queue in order |
| App.TodoApp.DrainReminders | app.py:521-529 | draining hands every queued title to the pop-up, oldest first, and leaves the queue empty |

## Left out

- Database connection, commits and the `except sqlite3.Error` arms with their message boxes are not modelled. These are I/O. A failing statement is assumed not to happen.
- `init_database` is not modelled. The table's existing rows and counter are parameters of `App.TodoApp.constructor`.
- App.TodoApp.constructor: the database file is taken to have been written only by this program, so its rows already satisfy the store invariant (stripped, non-empty titles, 0/1 flags, ids between 1 and the counter); a file edited by other tools, for example with a reminder of 2 or an unstripped title, is not covered. The ghost set of issued ids starts as the ids of the stored rows. Ids of rows deleted in earlier sessions are covered only through the counter bound.
- Widgets, styles, fonts, button states, the status bar texts and the pop-up windows are not modelled. These are UI. The due-today dialog is modelled only as the list of titles it shows.
- The reload of the list after each write is not modelled. `LoadTasks` models one load.
- `edit_selected_task`, the double-click handler and `show_context_menu` only move focus or open a menu on top of `on_task_select`.
- The background thread, `stop_thread`, the 360 × 10-second sleep loop and the `root.after` rescheduling are not modelled. One poll cycle and one drain are modelled as separate sequential steps, and no interleaving is modelled.
- `datetime.date.today()` reads the system clock, so `today` is a parameter.
- App.TodoApp.LoadTasks: a load is modelled with a single reading of the date. The code reads the clock again for every row (app.py:299) and once more in `check_due_tasks` (app.py:508); a load that runs across midnight can tag rows with two different dates, and then `TaskTable.DueTagMatchesSummary` need not hold for it.
- Re-parsing the deadline on selection (app.py:417-421) is not modelled. It depends on `datetime.date`'s calendar validation. `App.Form` has no deadline, and `App.UnchangedFormKeepsRow` takes the row's own deadline.
- App.TodoApp.ClearEntries: resetting the date picker to today, disabling the Update and Delete buttons and removing the highlight from the list are not modelled. `App.Form` has no deadline, and the rest is UI.
- AUTOINCREMENT failing with SQLITE_FULL once the largest rowid has been used is not modelled. Ids are unbounded integers.
- The status column is not restricted to the three values the widgets offer. Any text is accepted, as the TEXT column does.
