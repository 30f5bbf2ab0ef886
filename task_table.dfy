/**
 * The `tasks` table as values: one row per id, the order a plain
 * `SELECT ... FROM tasks` scans it in (ascending id), the two "due today"
 * queries, and the rules that turn a row into what the task list displays.
 */
module TaskTable {
  import opened PyText
  import opened IsoDate
  import opened KeyOrder

  const COMPLETED: string := "Completed"
  const IN_PROGRESS: string := "In Progress"
  const PENDING: string := "Pending"

  /** One row of `tasks` without its id column. `reminder` is the INTEGER
      column; every write path stores 0 or 1 in it. */
  datatype Task = Task(title: string, description: string, deadline: string, status: string, reminder: int)

  /** The table keyed by its `INTEGER PRIMARY KEY` column. */
  type Table = map<int, Task>

  /** The order `SELECT ... FROM tasks` with no `ORDER BY` returns rows in:
      SQLite scans a rowid table by ascending rowid. */
  function ScanOrder(tbl: Table): seq<int> {
    Ascending(tbl.Keys)
  }

  /** A row stored under an id above every present id is scanned last. */
  lemma ScanOrderInsert(tbl: Table, n: int, row: Task)
    requires forall k :: k in tbl ==> k < n
    ensures ScanOrder(tbl[n := row]) == ScanOrder(tbl) + [n]
  {
    assert tbl[n := row].Keys == tbl.Keys + {n};
    AscendingAppend(tbl.Keys, n);
  }

  // ---------------------------------------------------------------------
  // The "due today" queries
  // ---------------------------------------------------------------------

  /** The WHERE clause of both queries: `deadline = today AND status !=
      'Completed'`, and `reminder = 1` as well for the reminder poll. */
  predicate IsDue(t: Task, today: string, requireReminder: bool) {
    t.deadline == today && t.status != COMPLETED && (requireReminder ==> t.reminder == 1)
  }

  /** The ids of the stored rows the WHERE clause selects. */
  function DueSet(tbl: Table, today: string, requireReminder: bool): set<int> {
    set id | id in tbl && IsDue(tbl[id], today, requireReminder)
  }

  /** Filters `ids`, keeping order, to the rows the WHERE clause selects.
      On an increasing list of ids (the scan) the result is increasing too,
      so it holds each kept id once, in the order of `ids`. */
  function SelectDue(tbl: Table, ids: seq<int>, today: string, requireReminder: bool): (r: seq<int>)
    requires forall i :: 0 <= i < |ids| ==> ids[i] in tbl
    ensures forall i :: 0 <= i < |r| ==> r[i] in ids && r[i] in tbl && IsDue(tbl[r[i]], today, requireReminder)
    ensures forall i :: 0 <= i < |ids| && IsDue(tbl[ids[i]], today, requireReminder) ==> ids[i] in r
    ensures StrictlyIncreasing(ids) ==> StrictlyIncreasing(r)
  {
    if ids == [] then []
    else
      var tail := ids[1..];
      assert StrictlyIncreasing(ids) ==> StrictlyIncreasing(tail) by {
        if StrictlyIncreasing(ids) {
          TailIncreasing(ids);
        }
      }
      var rest := SelectDue(tbl, tail, today, requireReminder);
      if IsDue(tbl[ids[0]], today, requireReminder) then
        assert StrictlyIncreasing(ids) ==> StrictlyIncreasing([ids[0]] + rest) by {
          if StrictlyIncreasing(ids) {
            forall i | 0 <= i < |rest| ensures ids[0] < rest[i] {
              var j :| 0 <= j < |tail| && tail[j] == rest[i];
              assert tail[j] == ids[j + 1];
            }
            PrependSmallerIncreasing(ids[0], rest);
          }
        }
        [ids[0]] + rest
      else rest
  }

  /** The ids of the due rows in scan order: `check_due_tasks` runs it
      without the reminder condition, the reminder poll with it. Exactly the
      stored rows the WHERE clause accepts, each once, in ascending id. */
  function DueRows(tbl: Table, today: string, requireReminder: bool): (ids: seq<int>)
    ensures forall id :: id in ids <==> id in tbl && IsDue(tbl[id], today, requireReminder)
    ensures StrictlyIncreasing(ids)
  {
    var order := ScanOrder(tbl);
    var r := SelectDue(tbl, order, today, requireReminder);
    assert forall id :: id in tbl && IsDue(tbl[id], today, requireReminder) ==> id in r by {
      forall id | id in tbl && IsDue(tbl[id], today, requireReminder) ensures id in r {
        var i :| 0 <= i < |order| && order[i] == id;
      }
    }
    r
  }

  /** The title column of the given rows, in the given order. */
  function TitlesOf(tbl: Table, ids: seq<int>): seq<string>
    requires forall i :: 0 <= i < |ids| ==> ids[i] in tbl
  {
    seq(|ids|, i requires 0 <= i < |ids| => tbl[ids[i]].title)
  }

  /** The titles a query returns (`SELECT title ...`, `SELECT id, title ...`). */
  function DueTitles(tbl: Table, today: string, requireReminder: bool): seq<string> {
    var ids := DueRows(tbl, today, requireReminder);
    TitlesOf(tbl, ids)
  }

  /** The due rows are the set of due ids listed in ascending order: the
      query result depends on nothing but that set. */
  lemma DueRowsAreSortedDueSet(tbl: Table, today: string, requireReminder: bool)
    ensures DueRows(tbl, today, requireReminder) == Ascending(DueSet(tbl, today, requireReminder))
  {
    var ids := DueRows(tbl, today, requireReminder);
    var due := DueSet(tbl, today, requireReminder);
    forall i | 0 <= i < |ids| ensures ids[i] in due {
      assert ids[i] in ids;
    }
    forall k | k in due ensures k in ids {
    }
    AscendingUnique(ids, due);
  }

  /** Restricting the due-today rows to `reminder = 1` selects the rows of
      the reminder poll. */
  lemma RefineListsReminderSet(tbl: Table, today: string)
    ensures Lists(SelectDue(tbl, DueRows(tbl, today, false), today, true), DueSet(tbl, today, true))
  {
    var due := DueRows(tbl, today, false);
    var r := SelectDue(tbl, due, today, true);
    var reminded := DueSet(tbl, today, true);
    forall i | 0 <= i < |r| ensures r[i] in reminded {
      assert r[i] in tbl && IsDue(tbl[r[i]], today, true);
    }
    forall k | k in reminded ensures k in r {
      assert k in tbl && IsDue(tbl[k], today, false);
      assert k in due;
      var j :| 0 <= j < |due| && due[j] == k;
    }
  }

  /** The reminder poll returns the due-today rows further restricted to
      `reminder = 1`, in the same order. */
  lemma ReminderRowsRefineDueRows(tbl: Table, today: string)
    ensures DueRows(tbl, today, true) == SelectDue(tbl, DueRows(tbl, today, false), today, true)
  {
    var due := DueRows(tbl, today, false);
    RefineListsReminderSet(tbl, today);
    AscendingUnique(SelectDue(tbl, due, today, true), DueSet(tbl, today, true));
    DueRowsAreSortedDueSet(tbl, today, true);
  }

  lemma {:induction false} CountInIncreasing(s: seq<int>, x: int)
    requires StrictlyIncreasing(s)
    ensures multiset(s)[x] == if x in s then 1 else 0
  {
    if s != [] {
      assert s == [s[0]] + s[1..];
      CountInIncreasing(s[1..], x);
    }
  }

  /** One reminder poll lists a stored task exactly once when it is due
      with its reminder set, and not at all otherwise. */
  lemma ReminderListedOnce(tbl: Table, today: string, id: int)
    ensures multiset(DueRows(tbl, today, true))[id]
         == if id in tbl && IsDue(tbl[id], today, true) then 1 else 0
  {
    CountInIncreasing(DueRows(tbl, today, true), id);
  }

  /** Marking a task Completed takes it out of both queries. */
  lemma CompletedIsNeverDue(tbl: Table, id: int, today: string, requireReminder: bool)
    requires id in tbl
    ensures id !in DueRows(tbl[id := tbl[id].(status := COMPLETED)], today, requireReminder)
  {
  }

  /** Deleting a task takes it out of both queries. */
  lemma DeletedIsNeverDue(tbl: Table, id: int, today: string, requireReminder: bool)
    ensures id !in DueRows(tbl - {id}, today, requireReminder)
  {
  }

  // ---------------------------------------------------------------------
  // Display rules of the task list
  // ---------------------------------------------------------------------

  /** The tags `load_tasks` attaches to a displayed row. */
  datatype Tag = Completed | InProgress | Pending | DueToday | Overdue

  /** The tag of a row: first chosen by status, then overridden to
      `duetoday` or `overdue` by the deadline unless the task is completed.
      `deadline < today` is Python's string comparison. */
  function TagOf(t: Task, today: string): Tag {
    var byStatus :=
      if t.status == COMPLETED then Completed
      else if t.status == IN_PROGRESS then InProgress
      else Pending;
    if t.deadline == today && t.status != COMPLETED then DueToday
    else if LexLess(t.deadline, today) && t.status != COMPLETED then Overdue
    else byStatus
  }

  /** The tag as one flat case analysis: completed whatever the date;
      otherwise due today, overdue, in progress or pending. */
  lemma TagCases(t: Task, today: string)
    ensures TagOf(t, today) == Completed <==> t.status == COMPLETED
    ensures TagOf(t, today) == DueToday <==> t.status != COMPLETED && t.deadline == today
    ensures TagOf(t, today) == Overdue <==> t.status != COMPLETED && LexLess(t.deadline, today)
    ensures TagOf(t, today) == InProgress
        <==> t.status == IN_PROGRESS && t.deadline != today && !LexLess(t.deadline, today)
    ensures TagOf(t, today) == Pending
        <==> t.status != COMPLETED && t.status != IN_PROGRESS
             && t.deadline != today && !LexLess(t.deadline, today)
  {
    LexTrichotomy(t.deadline, today);
  }

  /** With well-formed dates the tag follows the calendar: overdue exactly
      when the deadline is an earlier day, due today exactly on the same day. */
  lemma TagFollowsCalendar(t: Task, today: string)
    requires IsFullDate(t.deadline) && IsFullDate(today)
    ensures TagOf(t, today) == Overdue <==> t.status != COMPLETED && Earlier(t.deadline, today)
    ensures TagOf(t, today) == DueToday <==> t.status != COMPLETED && SameDay(t.deadline, today)
  {
    TagCases(t, today);
    FullDateOrder(t.deadline, today);
  }

  /** The rows highlighted as due today are exactly the rows the due-today
      summary lists. */
  lemma DueTagMatchesSummary(tbl: Table, today: string, id: int)
    requires id in tbl
    ensures TagOf(tbl[id], today) == DueToday <==> id in DueRows(tbl, today, false)
  {
    TagCases(tbl[id], today);
  }

  /** How the reminder column is rendered: `"Yes" if reminder == 1 else "No"`. */
  function ReminderLabel(flag: int): string {
    if flag == 1 then "Yes" else "No"
  }

  /** How selecting a row sets the reminder checkbox from that label. */
  function ReminderChecked(shown: string): bool {
    shown == "Yes"
  }

  /** How the form stores the checkbox: `1 if checked else 0`. */
  function ReminderFlag(checked: bool): (flag: int)
    ensures flag == 0 || flag == 1
    ensures flag == 1 <==> checked
  {
    if checked then 1 else 0
  }

  /** Rendering then reading back the label recovers whether the flag is
      set, and a 0/1 flag survives display, selection and storing. */
  lemma ReminderLabelRoundTrip(flag: int)
    ensures ReminderChecked(ReminderLabel(flag)) <==> flag == 1
    ensures flag == 0 || flag == 1 ==> ReminderFlag(ReminderChecked(ReminderLabel(flag))) == flag
  {
  }

  /** The reminder toggle: `0 if current == 1 else 1`. */
  function Toggled(flag: int): (r: int)
    ensures r == 0 || r == 1
    ensures r == 1 <==> flag != 1
  {
    if flag == 1 then 0 else 1
  }

  /** Toggling twice restores the flag exactly when it was 0 or 1. */
  lemma ToggleTwice(flag: int)
    ensures Toggled(Toggled(flag)) == flag <==> flag == 0 || flag == 1
  {
  }

  /** One line of the task list: the six columns, the reminder shown as
      Yes/No, and the tag. */
  datatype DisplayRow = DisplayRow(
    id: int, title: string, description: string, deadline: string,
    status: string, reminder: string, tag: Tag)

  function Rendered(id: int, t: Task, today: string): DisplayRow {
    DisplayRow(id, t.title, t.description, t.deadline, t.status, ReminderLabel(t.reminder), TagOf(t, today))
  }
}
